/** The IFO parser: VIDEO_TS.IFO (`IFO0`, the title table) and VTS_xx_0.IFO
    (`IFOX`, the per-title-set tables). Each table is given twice: as a
    function of the file bytes that reads at absolute offsets, and as a method
    that advances the file cursor the way the reader does; every method is
    proved to produce exactly what its function describes. */
module Ifo {
  import opened Wrappers
  import opened Bytes
  import opened Sector
  import opened IfoRecords
  import opened PyOps

  /** What one navigation file decodes to. VIDEO_TS.IFO fills only `ttSrpt`
      and has no `vtsiMat`; a title-set file leaves `ttSrpt` empty. */
  datatype Ifo = Ifo(
    ttSrpt: seq<TitleEntry>,
    vtsiMat: Option<VtsiMat>,
    vtsPgcit: seq<Pgc>,
    vobuAdmap: seq<nat>,
    cAdt: seq<CellAddress>,
    pttSrpt: seq<seq<PartOfTitle>>)

  /** Table pointers at fixed offsets of the file. */
  const TT_SRPT_PTR: nat := 0x00C4
  const VTS_PTT_SRPT_PTR: nat := 0x00C8
  const VTS_PGCIT_PTR: nat := 0x00CC
  const VTS_C_ADT_PTR: nat := 0x00E0
  const VTS_VOBU_ADMAP_PTR: nat := 0x00E4
  const PGC_HEADER_SIZE: nat := 236

  /** The 8-byte table header read as fields of 2, 2 and 4 bytes: the first
      and the last field (the count and the end address). */
  function TableHeader(data: seq<byte>, base: nat): (r: Result<(nat, nat), ParseError>)
    ensures r.Success? <==> base + 8 <= |data|
    ensures r.Failure? ==> r.error == Truncated
  {
    if base + 8 <= |data| then Success((BE(data[base..base + 2]), BE(data[base + 4..base + 8])))
    else Failure(Truncated)
  }

  /** The 8-byte table header at the reader's position: the entry count
      (bytes 0-1) and the offset of the table's last byte (bytes 4-7). */
  method ReadTableHeader(rd: SectorReader) returns (r: Result<(nat, nat), ParseError>)
    modifies rd
    ensures r == TableHeader(rd.ifo, old(rd.pos))
    ensures r.Success? ==> rd.pos == old(rd.pos) + 8
  {
    ghost var base := rd.pos;
    var hdr :- rd.UnpackBytes(8);
    assert hdr[0..2] == rd.ifo[base..base + 2];
    assert hdr[4..8] == rd.ifo[base + 4..base + 8];
    r := Success((BE(hdr[0..2]), BE(hdr[4..8])));
  }

  /** The records `k` to `n - 1` after the `acc` already read, record `j`
      being `read(j)`; the first that fails ends the loop with its error. */
  function Collect<T>(read: nat -> Result<T, ParseError>, k: nat, n: nat, acc: seq<T>): Result<seq<T>, ParseError>
    requires k <= n
    decreases n - k
  {
    if k >= n then Success(acc)
    else
      var x :- read(k);
      Collect(read, k + 1, n, acc + [x])
  }

  /** The loop succeeds exactly when every record reads, and then yields
      `acc` followed by one value per record, in order. */
  lemma {:induction false} CollectRecords<T>(read: nat -> Result<T, ParseError>, k: nat, n: nat, acc: seq<T>)
    requires k <= n
    ensures var r := Collect(read, k, n, acc);
      && (r.Success? <==> forall j :: k <= j < n ==> read(j).Success?)
      && (r.Success? ==> |r.value| == |acc| + n - k && r.value[..|acc|] == acc)
      && (r.Success? ==> forall j :: k <= j < n ==> r.value[|acc| + j - k] == read(j).value)
    decreases n - k
  {
    if k < n {
      var d := read(k);
      if d.Success? {
        CollectRecords(read, k + 1, n, acc + [d.value]);
        var r := Collect(read, k, n, acc);
        if r.Success? {
          assert r.value[..|acc| + 1] == acc + [d.value];
          assert r.value[..|acc|] == (acc + [d.value])[..|acc|];
        }
      }
    }
  }

  /** A property every record that reads has, the collected values have. */
  lemma {:induction false} CollectKeeps<T>(read: nat -> Result<T, ParseError>, k: nat, n: nat, acc: seq<T>, p: T -> bool)
    requires k <= n
    requires forall j: nat :: read(j).Success? ==> p(read(j).value)
    requires forall x :: x in acc ==> p(x)
    ensures var r := Collect(read, k, n, acc);
      r.Success? ==> forall x :: x in r.value ==> p(x)
    decreases n - k
  {
    if k < n && read(k).Success? {
      CollectKeeps(read, k + 1, n, acc + [read(k).value], p);
    }
  }

  // ================= VIDEO_TS.IFO =================

  function TtSrptSpec(data: seq<byte>): (r: Result<seq<TitleEntry>, ParseError>)
  {
    var numVts :- FieldAt(data, 0x3E, 2);
    var base :- SectorPtr(data, TT_SRPT_PTR);
    var hdr :- TableHeader(data, base);
    var recs :- ChunksAt(data, base + 8, hdr.0, 12);
    Success(seq(|recs|, i requires 0 <= i < |recs| => DecodeTitleEntry(recs[i])))
  }

  function Ifo0Spec(data: seq<byte>): (r: Result<Ifo, ParseError>)
  {
    var tt :- TtSrptSpec(data);
    Success(Ifo(tt, None, [], [], [], []))
  }

  /** `IFO0._load`. */
  method LoadIfo0(rd: SectorReader) returns (r: Result<Ifo, ParseError>)
    modifies rd
    ensures r == Ifo0Spec(rd.ifo)
  {
    rd.Seek(0x3E);
    var numVts :- rd.UnpackByte(2);
    var base :- rd.GotoSectorPtr(TT_SRPT_PTR);
    var hdr :- rd.UnpackBytes(8);
    assert hdr[0..2] == rd.ifo[base..base + 2];
    var num := BE(hdr[0..2]);
    var recs :- rd.UnpackChunks(num, 12);
    var tt := seq(|recs|, i requires 0 <= i < |recs| => DecodeTitleEntry(recs[i]));
    r := Success(Ifo(tt, None, [], [], [], []));
  }

  // ================= vtsi_mat =================

  /** Audio attribute record `j`: the 8 bytes at `at + 8 * j`. */
  function AudioAttrAt(data: seq<byte>, at: nat): nat -> Result<AudioAttr, ParseError>
  {
    (j: nat) => DecodeAudioAttr(ReadAt(data, at + 8 * j, 8))
  }

  function VtsiMatSpec(data: seq<byte>): (r: Result<VtsiMat, ParseError>)
  {
    if 0x0202 > |data| then Failure(Truncated)
    else
      var video := DecodeVideoAttr(data[0x0200], data[0x0201]);
      var numAudio :- FieldAt(data, 0x0202, 2);
      var audio :- Collect(AudioAttrAt(data, 0x0204), 0, numAudio, []);
      Success(VtsiMat(video, audio))
  }

  method ReadVtsiMat(rd: SectorReader) returns (r: Result<VtsiMat, ParseError>)
    modifies rd
    ensures r == VtsiMatSpec(rd.ifo)
  {
    rd.Seek(0x0200);
    var vb :- rd.UnpackBytes(2);
    var video := DecodeVideoAttr(vb[0], vb[1]);
    rd.Seek(0x0202);
    var numAudio :- rd.UnpackByte(2);
    var audio :- ReadAudioAttrs(rd, numAudio);
    r := Success(VtsiMat(video, audio));
  }

  /** Audio attribute record `k`, the cursor standing where the records
      before it left it. */
  method ReadAudioAttr(rd: SectorReader, k: nat) returns (a: Result<AudioAttr, ParseError>)
    requires 0x0204 <= |rd.ifo|
    requires rd.pos == if 0x0204 + 8 * k <= |rd.ifo| then 0x0204 + 8 * k else |rd.ifo|
    modifies rd
    ensures a == AudioAttrAt(rd.ifo, 0x0204)(k)
    ensures rd.pos == if 0x0204 + 8 * (k + 1) <= |rd.ifo| then 0x0204 + 8 * (k + 1) else |rd.ifo|
  {
    var buf := rd.Read(8);
    assert buf == ReadAt(rd.ifo, 0x0204 + 8 * k, 8);
    a := DecodeAudioAttr(buf);
  }

  /** The `numAudio` audio attribute records from byte 0x0204 on, each read
      with a plain `read(8)`. */
  method ReadAudioAttrs(rd: SectorReader, numAudio: nat) returns (r: Result<seq<AudioAttr>, ParseError>)
    requires rd.pos == 0x0204 <= |rd.ifo|
    modifies rd
    ensures r == Collect(AudioAttrAt(rd.ifo, 0x0204), 0, numAudio, [])
  {
    ghost var data := rd.ifo;
    ghost var goal := Collect(AudioAttrAt(data, 0x0204), 0, numAudio, []);
    var audio: seq<AudioAttr> := [];
    var k := 0;
    while k < numAudio
      invariant 0 <= k <= numAudio
      invariant rd.pos == if 0x0204 + 8 * k <= |data| then 0x0204 + 8 * k else |data|
      invariant goal == Collect(AudioAttrAt(data, 0x0204), k, numAudio, audio)
    {
      var a := ReadAudioAttr(rd, k);
      if a.Failure? {
        return Failure(a.error);
      }
      audio := audio + [a.value];
      k := k + 1;
    }
    r := Success(audio);
  }

  // ================= program chains =================

  datatype PgcHeader = PgcHeader(
    numPrograms: nat, numCells: nat, audioControl: seq<AudioControl>,
    nextPgcn: nat, prevPgcn: nat, groupPgcn: nat,
    offsetProgram: nat, offsetPlayback: nat, offsetPosition: nat)

  /** The 236-byte program chain header: program and cell counts at bytes 2
      and 3, eight audio controls of two bytes from byte 12 (the first byte of
      each is decoded), the next/previous/group chain numbers from byte 156,
      and the program map, cell playback and cell position offsets at bytes
      230, 232 and 234. */
  function DecodePgcHeader(h: seq<byte>): (p: PgcHeader)
    requires |h| == PGC_HEADER_SIZE
    ensures |p.audioControl| == 8
  {
    PgcHeader(
      h[2] as nat, h[3] as nat,
      seq(8, i requires 0 <= i < 8 => DecodeAudioControl(h[12 + 2 * i])),
      BE(h[156..158]), BE(h[158..160]), BE(h[160..162]),
      BE(h[230..232]), BE(h[232..234]), BE(h[234..236]))
  }

  /** The playback records in order; the first unknown frame-rate code fails. */
  function DecodePlaybacks(recs: seq<seq<byte>>): (r: Result<seq<CellPlayback>, ParseError>)
    requires forall i :: 0 <= i < |recs| ==> |recs[i]| == 24
    ensures r.Success? <==> forall i :: 0 <= i < |recs| ==> DecodeCellPlayback(recs[i]).Success?
    ensures r.Success? ==> |r.value| == |recs|
    ensures r.Success? ==> forall i :: 0 <= i < |recs| ==> Success(r.value[i]) == DecodeCellPlayback(recs[i])
  {
    if |recs| == 0 then Success([])
    else
      var c :- DecodeCellPlayback(recs[0]);
      var rest :- DecodePlaybacks(recs[1..]);
      Success([c] + rest)
  }

  /** The invariants every decoded program chain keeps. */
  ghost predicate WellFormedPgc(p: Pgc)
  {
    |p.cellPosition| == p.nrOfCells && |p.cellPlayback| == p.nrOfCells
    && |p.programMap| == p.nrOfPrograms && |p.audioControl| == 8
    && (forall i :: 0 <= i < |p.cellPlayback| ==> p.cellPlayback[i].blockMode < 4)
    && (forall i :: 0 <= i < |p.programMap| ==> p.programMap[i] < 256)
  }

  function MakePgc(h: PgcHeader, pm: seq<seq<byte>>, pos: seq<seq<byte>>, playback: seq<CellPlayback>): Pgc
    requires forall i :: 0 <= i < |pm| ==> |pm[i]| == 1
    requires forall i :: 0 <= i < |pos| ==> |pos[i]| == 4
  {
    Pgc(h.numCells, h.numPrograms, h.nextPgcn, h.prevPgcn, h.groupPgcn,
        seq(|pm|, i requires 0 <= i < |pm| => pm[i][0] as nat),
        seq(|pos|, i requires 0 <= i < |pos| => DecodeCellPosition(pos[i])),
        playback,
        h.audioControl)
  }

  /** Program map, cell positions and cell playback records of a chain whose
      header is `h`, each at its offset from the chain's start `base`. */
  function PgcBody(data: seq<byte>, base: nat, h: PgcHeader): (r: Result<Pgc, ParseError>)
    requires |h.audioControl| == 8
    ensures r.Success? ==> WellFormedPgc(r.value)
  {
    var pm :- ChunksAt(data, base + h.offsetProgram, h.numPrograms, 1);
    var pos :- ChunksAt(data, base + h.offsetPosition, h.numCells, 4);
    var pb :- ChunksAt(data, base + h.offsetPlayback, h.numCells, 24);
    var playback :- DecodePlaybacks(pb);
    Success(MakePgc(h, pm, pos, playback))
  }

  function PgcAt(data: seq<byte>, base: nat): (r: Result<Pgc, ParseError>)
    ensures r.Success? ==> WellFormedPgc(r.value)
  {
    if base + PGC_HEADER_SIZE > |data| then Failure(Truncated)
    else PgcBody(data, base, DecodePgcHeader(data[base..base + PGC_HEADER_SIZE]))
  }

  method ReadPgcBody(rd: SectorReader, base: nat, h: PgcHeader) returns (r: Result<Pgc, ParseError>)
    requires |h.audioControl| == 8
    modifies rd
    ensures r == PgcBody(rd.ifo, base, h)
  {
    var pm :- rd.ReadChunks(base + h.offsetProgram, h.numPrograms, 1);
    var pos :- rd.ReadChunks(base + h.offsetPosition, h.numCells, 4);
    var pb :- rd.ReadChunks(base + h.offsetPlayback, h.numCells, 24);
    var playback :- DecodePlaybacks(pb);
    r := Success(MakePgc(h, pm, pos, playback));
  }

  /** One program chain of `vts_pgci`, read from `base`. The header is read
      as one 236-byte run; the reader takes it field by field, which fails
      exactly when this does. */
  method VtsPgc(rd: SectorReader, base: nat) returns (r: Result<Pgc, ParseError>)
    modifies rd
    ensures r == PgcAt(rd.ifo, base)
  {
    rd.Seek(base);
    var hb :- rd.UnpackBytes(PGC_HEADER_SIZE);
    var h := DecodePgcHeader(hb);
    r := ReadPgcBody(rd, base, h);
  }

  /** Chain entry `i` of the table at `posn`, as a function of `i`. */
  function PgcEntryAt(data: seq<byte>, posn: nat): nat -> Result<Pgc, ParseError>
  {
    (i: nat) => PgcEntry(data, posn, i)
  }

  /** Every chain of a successful table walk is well formed. */
  lemma PgcsWellFormed(data: seq<byte>, posn: nat, n: nat)
    ensures var r := Collect(PgcEntryAt(data, posn), 0, n, []);
      r.Success? ==> forall k :: 0 <= k < |r.value| ==> WellFormedPgc(r.value[k])
  {
    var read := PgcEntryAt(data, posn);
    assert forall j: nat :: read(j).Success? ==> WellFormedPgc(read(j).value);
    CollectKeeps(read, 0, n, [], WellFormedPgc);
  }

  /** Chain `i`: its search pointer is the 8 bytes (category, offset from
      `posn`) at `posn + 8 + 8 * i`. */
  function PgcEntry(data: seq<byte>, posn: nat, i: nat): (r: Result<Pgc, ParseError>)
    ensures r.Success? ==> WellFormedPgc(r.value)
  {
    var offset :- PgcPointer(data, posn, i);
    PgcAt(data, posn + offset)
  }

  /** The offset field of search pointer `i`; the category field before it
      is read and dropped. */
  function PgcPointer(data: seq<byte>, posn: nat, i: nat): (r: Result<nat, ParseError>)
    ensures r.Success? <==> posn + 8 + 8 * i + 8 <= |data|
    ensures r.Success? ==> r.value == BE(data[posn + 8 + 8 * i + 4..posn + 8 + 8 * (i + 1)])
  {
    var cat :- FieldAt(data, posn + 8 + 8 * i, 4);
    FieldAt(data, posn + 8 + 8 * i + 4, 4)
  }

  /** Reads search pointer `i`, leaving the cursor just past it. */
  method ReadPgcPointer(rd: SectorReader, posn: nat, i: nat) returns (r: Result<nat, ParseError>)
    requires rd.pos == posn + 8 + 8 * i
    modifies rd
    ensures r == PgcPointer(rd.ifo, posn, i)
    ensures r.Success? ==> rd.pos == posn + 8 + 8 * (i + 1)
  {
    var cat :- rd.UnpackByte(4);
    r := rd.UnpackByte(4);
  }

  /** Reads search pointer `i` and its chain, and returns to the pointer table. */
  method ReadPgcEntry(rd: SectorReader, posn: nat, i: nat) returns (r: Result<Pgc, ParseError>)
    requires rd.pos == posn + 8 + 8 * i
    modifies rd
    ensures r == PgcEntry(rd.ifo, posn, i)
    ensures r.Success? ==> rd.pos == posn + 8 + 8 * (i + 1)
  {
    var offset :- ReadPgcPointer(rd, posn, i);
    var bk := rd.Tell();
    r := VtsPgc(rd, posn + offset);
    rd.Seek(bk);
  }

  function PgcitSpec(data: seq<byte>): (r: Result<seq<Pgc>, ParseError>)
    ensures r.Success? ==> forall k :: 0 <= k < |r.value| ==> WellFormedPgc(r.value[k])
  {
    var posn :- SectorPtr(data, VTS_PGCIT_PTR);
    var hdr :- TableHeader(data, posn);
    PgcsWellFormed(data, posn, hdr.0);
    Collect(PgcEntryAt(data, posn), 0, hdr.0, [])
  }

  /** `IFOX.vts_pgci`. */
  method VtsPgci(rd: SectorReader) returns (r: Result<seq<Pgc>, ParseError>)
    modifies rd
    ensures r == PgcitSpec(rd.ifo)
  {
    var posn :- rd.GotoSectorPtr(VTS_PGCIT_PTR);
    var hdr :- rd.UnpackBytes(8);
    assert hdr[0..2] == rd.ifo[posn..posn + 2];
    r := ReadPgcs(rd, posn, BE(hdr[0..2]));
  }

  /** The search-pointer loop of `vts_pgci`: `n` chains, the cursor standing on
      the first search pointer. */
  method ReadPgcs(rd: SectorReader, posn: nat, n: nat) returns (r: Result<seq<Pgc>, ParseError>)
    requires rd.pos == posn + 8
    modifies rd
    ensures r == Collect(PgcEntryAt(rd.ifo, posn), 0, n, [])
  {
    ghost var goal := Collect(PgcEntryAt(rd.ifo, posn), 0, n, []);
    var pgcs: seq<Pgc> := [];
    var i := 0;
    while i < n
      invariant 0 <= i <= n
      invariant rd.pos == posn + 8 + 8 * i
      invariant goal == Collect(PgcEntryAt(rd.ifo, posn), i, n, pgcs)
    {
      var e := ReadPgcEntry(rd, posn, i);
      if e.Failure? {
        return Failure(e.error);
      }
      pgcs := pgcs + [e.value];
      i := i + 1;
    }
    r := Success(pgcs);
  }

  // ================= vobu_admap =================

  function VobuAdmapSpec(data: seq<byte>): (r: Result<seq<nat>, ParseError>)
  {
    var base :- SectorPtr(data, VTS_VOBU_ADMAP_PTR);
    var end :- FieldAt(data, base, 4);
    var words :- ChunksAt(data, base + 4, RangeLen(FloorDiv(end + 1 - 4, 4)), 4);
    Success(seq(|words|, i requires 0 <= i < |words| => BE(words[i])))
  }

  /** `IFOX.vobu_admap`. */
  method VobuAdmap(rd: SectorReader) returns (r: Result<seq<nat>, ParseError>)
    modifies rd
    ensures r == VobuAdmapSpec(rd.ifo)
  {
    var base :- rd.GotoSectorPtr(VTS_VOBU_ADMAP_PTR);
    var end :- rd.UnpackByte(4);
    var cnt := RangeLen(FloorDiv(end as int + 1 - 4, 4));
    var words :- rd.UnpackChunks(cnt, 4);
    r := Success(seq(|words|, i requires 0 <= i < |words| => BE(words[i])));
  }

  // ================= vts_c_adt =================

  /** The number of 12-byte cell address entries the end address allows. */
  function CAdtCount(end: nat): nat
  {
    RangeLen(FloorDiv(end + 1 - 6, 12))
  }

  function CAdtSpec(data: seq<byte>): (r: Result<seq<CellAddress>, ParseError>)
  {
    var base :- SectorPtr(data, VTS_C_ADT_PTR);
    var hdr :- TableHeader(data, base);
    var recs :- ChunksAt(data, base + 8, CAdtCount(hdr.1), 12);
    Success(seq(|recs|, i requires 0 <= i < |recs| => DecodeCellAddress(recs[i])))
  }

  /** `IFOX.vts_c_adt`. */
  method VtsCAdt(rd: SectorReader) returns (r: Result<seq<CellAddress>, ParseError>)
    modifies rd
    ensures r == CAdtSpec(rd.ifo)
  {
    var base :- rd.GotoSectorPtr(VTS_C_ADT_PTR);
    var hdr :- ReadTableHeader(rd);
    var recs :- rd.UnpackChunks(CAdtCount(hdr.1), 12);
    r := Success(seq(|recs|, i requires 0 <= i < |recs| => DecodeCellAddress(recs[i])));
  }

  // ================= vts_ptt_srpt =================

  /** Splits the chapter pointers of all titles at the title offsets: title
      `a` gets the pointers from `offs[a]` up to `offs[a + 1]`. */
  function PttTitles(pairs: seq<PartOfTitle>, offs: seq<int>): (titles: seq<seq<PartOfTitle>>)
    requires |offs| >= 1
    ensures |titles| == |offs| - 1
  {
    seq(|offs| - 1, a requires 0 <= a < |offs| - 1 => PySlice(pairs, offs[a], offs[a + 1]))
  }

  /** The chapter pointers: program chain number, then program number. */
  function PttPairs(pp: seq<seq<byte>>): (pairs: seq<PartOfTitle>)
    requires forall i :: 0 <= i < |pp| ==> |pp[i]| == 4
    ensures |pairs| == |pp|
  {
    seq(|pp|, i requires 0 <= i < |pp| => PartOfTitle(BE(pp[i][0..2]), BE(pp[i][2..4])))
  }

  /** The title offsets, from bytes past the table start to pointer
      indices: less the header and the offset table, divided by 4. */
  function PttOffsets(raw: seq<seq<byte>>, correction: int, num: nat): (offs: seq<int>)
    requires |raw| == num
    ensures |offs| == num
  {
    seq(num, a requires 0 <= a < num => FloorDiv(BE(raw[a]) - correction, 4))
  }

  function PttSrptSpec(data: seq<byte>): (r: Result<seq<seq<PartOfTitle>>, ParseError>)
  {
    var base :- SectorPtr(data, VTS_PTT_SRPT_PTR);
    var hdr :- TableHeader(data, base);
    var num := hdr.0;
    var end := hdr.1;
    var raw :- ChunksAt(data, base + 8, num, 4);
    var correction := num * 4 + 8;
    var totalPtts := FloorDiv(end - correction + 4 + 1 - 4, 4);
    var pp :- ChunksAt(data, base + 8 + 4 * num, RangeLen(totalPtts), 4);
    var pairs := PttPairs(pp);
    Success(PttTitles(pairs, PttOffsets(raw, correction, num) + [|pairs|]))
  }

  /** `IFOX.vts_ptt_srpt`. */
  method VtsPttSrpt(rd: SectorReader) returns (r: Result<seq<seq<PartOfTitle>>, ParseError>)
    modifies rd
    ensures r == PttSrptSpec(rd.ifo)
  {
    var base :- rd.GotoSectorPtr(VTS_PTT_SRPT_PTR);
    var hdr :- ReadTableHeader(rd);
    var num := hdr.0;
    var end: int := hdr.1;
    var correction := num * 4 + 8;
    var raw :- rd.UnpackChunks(num, 4);
    var totalPtts := FloorDiv(end - correction + 4 + 1 - 4, 4);
    var pp :- rd.UnpackChunks(RangeLen(totalPtts), 4);
    var pairs := PttPairs(pp);
    r := Success(PttTitles(pairs, PttOffsets(raw, correction, num) + [|pairs|]));
  }

  // ================= whole files =================

  function IfoXSpec(data: seq<byte>): (r: Result<Ifo, ParseError>)
    ensures r.Success? ==> r.value.ttSrpt == [] && r.value.vtsiMat.Some?
    ensures r.Success? ==> forall k :: 0 <= k < |r.value.vtsPgcit| ==> WellFormedPgc(r.value.vtsPgcit[k])
  {
    var mat :- VtsiMatSpec(data);
    var pgcs :- PgcitSpec(data);
    var admap :- VobuAdmapSpec(data);
    var cadt :- CAdtSpec(data);
    var ptt :- PttSrptSpec(data);
    Success(Ifo([], Some(mat), pgcs, admap, cadt, ptt))
  }

  /** `IFOX._load`: the tables in the order the reader visits them. */
  method LoadIfoX(rd: SectorReader) returns (r: Result<Ifo, ParseError>)
    modifies rd
    ensures r == IfoXSpec(rd.ifo)
  {
    var mat :- ReadVtsiMat(rd);
    var pgcs :- VtsPgci(rd);
    var admap :- VobuAdmap(rd);
    var cadt :- VtsCAdt(rd);
    var ptt :- VtsPttSrpt(rd);
    r := Success(Ifo([], Some(mat), pgcs, admap, cadt, ptt));
  }
}
