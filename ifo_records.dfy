/** The records the IFO parser produces and the fixed-width decoders for one
    record each, together with the encoders they undo. */
module IfoRecords {
  import opened Wrappers
  import opened Bytes
  import opened Sector

  /** One entry of the title table `tt_srpt` in VIDEO_TS.IFO. */
  datatype TitleEntry = TitleEntry(titleSetNr: nat, titleSetSector: nat, nrOfAngles: nat, nrOfPtts: nat, vtsTtn: nat)

  /** One of the eight audio stream controls of a program chain. */
  datatype AudioControl = AudioControl(available: bool, number: nat)

  /** The raw playback-time fields of a cell (BCD digits are not decoded). */
  datatype Timespan = Timespan(hour: nat, minute: nat, second: nat, frameU: nat)

  datatype CellPlayback = CellPlayback(
    interleaved: bool, seamlessPlay: bool, seamlessAngle: bool,
    blockMode: nat, blockType: nat,
    playbackTime: Timespan,
    firstSector: nat, lastSector: nat, firstIlvuEndSector: nat, lastVobuStartSector: nat)

  datatype CellPosition = CellPosition(cellNr: nat, vobIdNr: nat)

  /** A program chain: the cells it plays, in order, and its program map. */
  datatype Pgc = Pgc(
    nrOfCells: nat, nrOfPrograms: nat,
    nextPgcNr: nat, prevPgcNr: nat, goupPgcNr: nat,
    programMap: seq<nat>,
    cellPosition: seq<CellPosition>,
    cellPlayback: seq<CellPlayback>,
    audioControl: seq<AudioControl>)

  /** One entry of the cell address table `vts_c_adt`. */
  datatype CellAddress = CellAddress(vobId: nat, cellId: nat, startSector: nat, lastSector: nat)

  /** One chapter pointer of `vts_ptt_srpt`: program chain and program number. */
  datatype PartOfTitle = PartOfTitle(pgcn: nat, pgn: nat)

  datatype VideoAttr = VideoAttr(mpegVersion: nat, videoFormat: nat, pictureSize: nat)

  datatype AudioAttr = AudioAttr(audioFormat: nat, language: string)

  datatype VtsiMat = VtsiMat(videoAttr: VideoAttr, audioAttr: seq<AudioAttr>)

  const PAL_FRAMERATE_CODE: nat := 0x01
  const NTSC_FRAMERATE_CODE: nat := 0x03

  /** The frame-rate codes `VTS_FRAMERATE` knows: PAL (25 fps) and NTSC (30000/1001 fps). */
  predicate KnownFrameRate(code: nat)
  {
    code == PAL_FRAMERATE_CODE || code == NTSC_FRAMERATE_CODE
  }

  // ---- bit fields of the first cell-playback byte ----

  /** Bits 7-6. */
  function BlockMode(b0: byte): (m: nat)
    ensures m < 4 && m == b0 as int / 64
  {
    var s := b0 >> 6;
    assert s as int == b0 as int / 64;
    s as nat
  }

  /** Bits 5-4. */
  function BlockType(b0: byte): (t: nat)
    ensures t < 4 && t == (b0 as int / 16) % 4
  {
    var s := b0 >> 4;
    assert s as int == b0 as int / 16;
    (s & 3) as nat
  }

  /** Bit `k` of `b` as a flag. */
  function Bit(b: byte, k: bv8): (f: bool)
    requires k < 8
    ensures f <==> (b >> k) & 1 == 1
  {
    b & (1 << k) != 0
  }

  /** The byte with the given block fields and flags; bit 1 is left clear. */
  function PlaybackFlagsByte(blockMode: nat, blockType: nat, seamlessPlay: bool, interleaved: bool, seamlessAngle: bool): (b: byte)
    requires blockMode < 4 && blockType < 4
  {
    (ByteOf(blockMode) << 6) | (ByteOf(blockType) << 4)
      | (if seamlessPlay then 8 else 0) | (if interleaved then 4 else 0) | (if seamlessAngle then 1 else 0)
  }

  lemma PlaybackFlagsRoundTrip(blockMode: nat, blockType: nat, seamlessPlay: bool, interleaved: bool, seamlessAngle: bool)
    requires blockMode < 4 && blockType < 4
    ensures var b := PlaybackFlagsByte(blockMode, blockType, seamlessPlay, interleaved, seamlessAngle);
      BlockMode(b) == blockMode && BlockType(b) == blockType
      && Bit(b, 3) == seamlessPlay && Bit(b, 2) == interleaved && Bit(b, 0) == seamlessAngle
  {
    var m := ByteOf(blockMode);
    var t := ByteOf(blockType);
    assert m < 4 && t < 4;
  }

  // ---- playback time ----

  /** `_get_timespan`: the four raw fields, or BadFrameRate unless the two
      top bits of the frame byte are a known frame-rate code. */
  function GetTimespan(hours: byte, minutes: byte, seconds: byte, frames: byte): (r: Result<Timespan, ParseError>)
    ensures r.Success? <==> KnownFrameRate(frames as int / 64)
    ensures r.Failure? ==> r.error == BadFrameRate
    ensures r.Success? ==> r.value == Timespan(hours as nat, minutes as nat, seconds as nat, frames as nat)
  {
    if (frames >> 6) & 0x01 != 1 then Failure(BadFrameRate)
    else
      var fps := (frames >> 6) as nat;
      if !KnownFrameRate(fps) then Failure(BadFrameRate)
      else Success(Timespan(hours as nat, minutes as nat, seconds as nat, frames as nat))
  }

  // ---- audio stream control ----

  function DecodeAudioControl(ac: byte): (a: AudioControl)
    ensures a.available <==> ac as int >= 0x80
    ensures a.number == ac as int % 8
  {
    AudioControl((ac & 0x80) != 0, (ac & 7) as nat)
  }

  function EncodeAudioControl(a: AudioControl): byte
    requires a.number < 8
  {
    (if a.available then 0x80 else 0) | ByteOf(a.number)
  }

  lemma AudioControlRoundTrip(a: AudioControl)
    requires a.number < 8
    ensures DecodeAudioControl(EncodeAudioControl(a)) == a
  {
    var n := ByteOf(a.number);
    assert n < 8;
  }

  // ---- title table entry (12 bytes: 1,1,2,2,1,1,4) ----

  function DecodeTitleEntry(rec: seq<byte>): TitleEntry
    requires |rec| == 12
  {
    TitleEntry(rec[6] as nat, BE(rec[8..12]), rec[1] as nat, BE(rec[2..4]), rec[7] as nat)
  }

  predicate TitleEntryFits(e: TitleEntry)
  {
    e.titleSetNr < 256 && e.titleSetSector < Pow256(4) && e.nrOfAngles < 256
    && e.nrOfPtts < Pow256(2) && e.vtsTtn < 256
  }

  /** The record for `e`; the playback type and the parental mask are fields
      the decoder skips. */
  function EncodeTitleEntry(e: TitleEntry, playbackType: byte, parentalMask: seq<byte>): (rec: seq<byte>)
    requires TitleEntryFits(e) && |parentalMask| == 2
    ensures |rec| == 12
  {
    [playbackType, ByteOf(e.nrOfAngles)] + ToBE(e.nrOfPtts, 2) + parentalMask
      + [ByteOf(e.titleSetNr), ByteOf(e.vtsTtn)] + ToBE(e.titleSetSector, 4)
  }

  lemma TitleEntryRoundTrip(e: TitleEntry, playbackType: byte, parentalMask: seq<byte>)
    requires TitleEntryFits(e) && |parentalMask| == 2
    ensures DecodeTitleEntry(EncodeTitleEntry(e, playbackType, parentalMask)) == e
  {
    var rec := EncodeTitleEntry(e, playbackType, parentalMask);
    assert rec[2..4] == ToBE(e.nrOfPtts, 2);
    assert rec[8..12] == ToBE(e.titleSetSector, 4);
    BEOfToBE(e.nrOfPtts, 2);
    BEOfToBE(e.titleSetSector, 4);
  }

  // ---- cell position (4 bytes: 2,1,1) ----

  function DecodeCellPosition(rec: seq<byte>): CellPosition
    requires |rec| == 4
  {
    CellPosition(rec[3] as nat, BE(rec[0..2]))
  }

  function EncodeCellPosition(c: CellPosition, reserved: byte): (rec: seq<byte>)
    requires c.cellNr < 256 && c.vobIdNr < Pow256(2)
    ensures |rec| == 4
  {
    ToBE(c.vobIdNr, 2) + [reserved, ByteOf(c.cellNr)]
  }

  lemma CellPositionRoundTrip(c: CellPosition, reserved: byte)
    requires c.cellNr < 256 && c.vobIdNr < Pow256(2)
    ensures DecodeCellPosition(EncodeCellPosition(c, reserved)) == c
  {
    var rec := EncodeCellPosition(c, reserved);
    assert rec[0..2] == ToBE(c.vobIdNr, 2);
    BEOfToBE(c.vobIdNr, 2);
  }

  // ---- cell address (12 bytes: 2,1,1,4,4) ----

  function DecodeCellAddress(rec: seq<byte>): CellAddress
    requires |rec| == 12
  {
    CellAddress(BE(rec[0..2]), rec[2] as nat, BE(rec[4..8]), BE(rec[8..12]))
  }

  predicate CellAddressFits(c: CellAddress)
  {
    c.vobId < Pow256(2) && c.cellId < 256 && c.startSector < Pow256(4) && c.lastSector < Pow256(4)
  }

  function EncodeCellAddress(c: CellAddress, reserved: byte): (rec: seq<byte>)
    requires CellAddressFits(c)
    ensures |rec| == 12
  {
    ToBE(c.vobId, 2) + [ByteOf(c.cellId), reserved] + ToBE(c.startSector, 4) + ToBE(c.lastSector, 4)
  }

  lemma CellAddressRoundTrip(c: CellAddress, reserved: byte)
    requires CellAddressFits(c)
    ensures DecodeCellAddress(EncodeCellAddress(c, reserved)) == c
  {
    var rec := EncodeCellAddress(c, reserved);
    assert rec[0..2] == ToBE(c.vobId, 2);
    assert rec[4..8] == ToBE(c.startSector, 4);
    assert rec[8..12] == ToBE(c.lastSector, 4);
    BEOfToBE(c.vobId, 2);
    BEOfToBE(c.startSector, 4);
    BEOfToBE(c.lastSector, 4);
  }

  // ---- cell playback (24 bytes: eight single bytes, then four 4-byte words) ----

  /** The sector words follow the eight bytes in the order first sector,
      first interleaved-unit end, last playback-unit start, last sector. */
  function DecodeCellPlayback(rec: seq<byte>): (r: Result<CellPlayback, ParseError>)
    requires |rec| == 24
    ensures r.Success? <==> KnownFrameRate(rec[7] as int / 64)
  {
    var b0 := rec[0];
    var time :- GetTimespan(rec[4], rec[5], rec[6], rec[7]);
    Success(CellPlayback(
      Bit(b0, 2), Bit(b0, 3), Bit(b0, 0),
      BlockMode(b0), BlockType(b0),
      time,
      BE(rec[8..12]), BE(rec[20..24]), BE(rec[12..16]), BE(rec[16..20])))
  }

  predicate CellPlaybackFits(c: CellPlayback)
  {
    c.blockMode < 4 && c.blockType < 4
    && c.playbackTime.hour < 256 && c.playbackTime.minute < 256 && c.playbackTime.second < 256
    && c.playbackTime.frameU < 256 && KnownFrameRate(c.playbackTime.frameU / 64)
    && c.firstSector < Pow256(4) && c.lastSector < Pow256(4)
    && c.firstIlvuEndSector < Pow256(4) && c.lastVobuStartSector < Pow256(4)
  }

  /** The record for `c`; bytes 1 to 3 (still time, command number) are left zero. */
  function EncodeCellPlayback(c: CellPlayback): (rec: seq<byte>)
    requires CellPlaybackFits(c)
    ensures |rec| == 24
  {
    var t := c.playbackTime;
    [PlaybackFlagsByte(c.blockMode, c.blockType, c.seamlessPlay, c.interleaved, c.seamlessAngle), 0, 0, 0,
     ByteOf(t.hour), ByteOf(t.minute), ByteOf(t.second), ByteOf(t.frameU)]
      + ToBE(c.firstSector, 4) + ToBE(c.firstIlvuEndSector, 4)
      + ToBE(c.lastVobuStartSector, 4) + ToBE(c.lastSector, 4)
  }

  lemma CellPlaybackRoundTrip(c: CellPlayback)
    requires CellPlaybackFits(c)
    ensures DecodeCellPlayback(EncodeCellPlayback(c)) == Success(c)
  {
    var rec := EncodeCellPlayback(c);
    PlaybackFlagsRoundTrip(c.blockMode, c.blockType, c.seamlessPlay, c.interleaved, c.seamlessAngle);
    assert rec[8..12] == ToBE(c.firstSector, 4);
    assert rec[12..16] == ToBE(c.firstIlvuEndSector, 4);
    assert rec[16..20] == ToBE(c.lastVobuStartSector, 4);
    assert rec[20..24] == ToBE(c.lastSector, 4);
    BEOfToBE(c.firstSector, 4);
    BEOfToBE(c.firstIlvuEndSector, 4);
    BEOfToBE(c.lastVobuStartSector, 4);
    BEOfToBE(c.lastSector, 4);
  }

  // ---- audio attributes (8 bytes, read with a plain `read`) ----

  /** Bits 3-2 of byte 0: whether bytes 2 and 3 hold a language code. */
  function LangType(b0: byte): (t: nat)
    ensures t < 4 && t == (b0 as int / 4) % 4
  {
    var s := b0 >> 2;
    assert s as int == b0 as int / 4;
    (s & 3) as nat
  }

  /** Bits 7-5 of byte 0. */
  function AudioFormat(b0: byte): (f: nat)
    ensures f < 8 && f == b0 as int / 32
  {
    var s := b0 >> 5;
    assert s as int == b0 as int / 32;
    s as nat
  }

  /** One audio attribute record; a read cut short by the end of the file
      fails on the first byte it indexes that is missing. */
  function DecodeAudioAttr(buf: seq<byte>): (r: Result<AudioAttr, ParseError>)
    ensures r.Failure? <==> |buf| == 0 || (LangType(buf[0]) != 0 && |buf| < 4)
    ensures r.Failure? ==> r.error == ShortRecord
    ensures r.Success? ==> r.value.audioFormat == buf[0] as int / 32
    ensures r.Success? ==> |r.value.language| == 2
    ensures r.Success? && LangType(buf[0]) == 0 ==> r.value.language == "xx"
    ensures r.Success? && LangType(buf[0]) != 0 ==> r.value.language == [buf[2] as int as char, buf[3] as int as char]
  {
    if |buf| == 0 then Failure(ShortRecord)
    else
      var langType := LangType(buf[0]);
      var audioFormat := AudioFormat(buf[0]);
      if langType != 0 then
        if |buf| < 4 then Failure(ShortRecord)
        else Success(AudioAttr(audioFormat, [buf[2] as int as char, buf[3] as int as char]))
      else Success(AudioAttr(audioFormat, "xx"))
  }

  predicate AudioAttrFits(a: AudioAttr)
  {
    a.audioFormat < 8 && |a.language| == 2 && a.language[0] as int < 256 && a.language[1] as int < 256
  }

  /** The record for `a` with a language code present (lang_type 1); the
      remaining bits and bytes are left zero. */
  function EncodeAudioAttr(a: AudioAttr): (buf: seq<byte>)
    requires AudioAttrFits(a)
    ensures |buf| == 8
  {
    [(ByteOf(a.audioFormat) << 5) | 0x04, 0, ByteOf(a.language[0] as int), ByteOf(a.language[1] as int), 0, 0, 0, 0]
  }

  lemma AudioAttrRoundTrip(a: AudioAttr)
    requires AudioAttrFits(a)
    ensures DecodeAudioAttr(EncodeAudioAttr(a)) == Success(a)
  {
    var f := ByteOf(a.audioFormat);
    assert f < 8;
    var buf := EncodeAudioAttr(a);
    assert LangType(buf[0]) == 1;
    assert AudioFormat(buf[0]) == a.audioFormat;
    assert [buf[2] as int as char, buf[3] as int as char] == a.language;
  }

  // ---- video attributes ----

  function DecodeVideoAttr(vb0: byte, vb1: byte): (v: VideoAttr)
    ensures v.mpegVersion == vb0 as int / 64
    ensures v.videoFormat == (vb0 as int / 16) % 4
    ensures v.pictureSize == (vb1 as int / 16) % 4
  {
    // the same bit positions as the block mode and block type of a cell
    VideoAttr(BlockMode(vb0), BlockType(vb0), BlockType(vb1))
  }
}
