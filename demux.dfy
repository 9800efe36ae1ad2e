/** `Title.dump_ac3` without the dvdsrc plugin: a demultiplexer for the
    MPEG-2 Program Stream (ISO/IEC 13818-1) of a title's VOB files.

    The VOB files are read one 2048-byte sector at a time; a sector whose
    running index lies in one of the title's cell sector ranges is appended
    to a byte buffer. After every sector, whole packets are taken off the
    front of the buffer: a pack header (start code 0xBA, section 2.5.3.3)
    is a fixed 14 bytes, a PES packet (section 2.4.3.6) is 6 bytes plus its
    `PES_packet_length`. Private-stream-1 packets (0xBD) whose DVD audio
    sub-stream id is `0x80 + audio_i` contribute their payload after the
    4-byte sub-stream header to the output. */
module Demux {
  import opened Wrappers
  import opened PyOps
  import opened Sector
  import opened IfoRecords
  import opened Sectors
  import Resolve

  /** A byte of a VOB file, as the integer Python reads from a
      `bytearray`. */
  newtype Octet = x: int | 0 <= x < 256

  datatype DemuxError =
    | NotAc3            // the chosen track is not AC-3: `CustomValueError`
    | DemuxIndexError   // a Python `IndexError`
    | DemuxAssertion    // a failed `assert`

  // ================= one parse step =================

  /** The outcome of one turn of the packet loop: wait for more bytes,
      fail, or take `n` bytes off the buffer and write `emitted`. */
  datatype Step = NeedMore | Bad(error: DemuxError) | Consumed(n: nat, emitted: seq<Octet>)

  /** The stream ids the loop accepts after the `00 00 01` prefix besides a
      pack header: system header, padding, video 0, private stream 2 and
      private stream 1. */
  predicate PesStart(b: Octet)
  {
    b == 0xBB || b == 0xBE || b == 0xE0 || b == 0xBF || b == 0xBD
  }

  function PesLength(buf: seq<Octet>): nat
    requires |buf| >= 6
  {
    buf[4] as int * 256 + buf[5] as int
  }

  /** What a private-stream-1 packet body writes: skip the 3 fixed header
      bytes and the header data, read the sub-stream id, and for audio
      stream `audio_i` (ids 0x80 to 0x87) keep what follows the 4-byte
      sub-stream header. */
  function SubstreamPayload(pes: seq<Octet>, audioI: int): Result<seq<Octet>, DemuxError>
  {
    if |pes| < 3 then Failure(DemuxIndexError)
    else
      var inner := PySlice(pes, 3 + pes[2] as int, |pes|);
      if |inner| == 0 then Failure(DemuxIndexError)
      else if 0x80 <= inner[0] <= 0x87 && inner[0] as int - 0x80 == audioI then Success(PySlice(inner, 4, |inner|))
      else Success([])
  }

  /** One turn of the packet loop on the buffer `buf`. */
  function ParseStep(buf: seq<Octet>, audioI: int): (s: Step)
    ensures s.Consumed? ==> 0 < s.n <= |buf|
  {
    if |buf| < 4 then NeedMore
    else if buf[0] != 0 || buf[1] != 0 || buf[2] != 1 then Bad(DemuxAssertion)
    else
      if buf[3] == 0xBA then
        if |buf| < 14 then NeedMore else Consumed(14, [])
      else if !PesStart(buf[3]) then Bad(DemuxAssertion)
      else if |buf| < 6 then NeedMore
      else if |buf| < 6 + PesLength(buf) then NeedMore
      else if buf[3] != 0xBD then Consumed(6 + PesLength(buf), [])
      else match SubstreamPayload(buf[6..6 + PesLength(buf)], audioI)
        case Failure(e) => Bad(e)
        case Success(out) => Consumed(6 + PesLength(buf), out)
  }

  /** A step waits for more bytes while the packet at the front is
      incomplete, fails on a bad prefix or stream id, and otherwise takes
      exactly the packet: 14 bytes for a pack header (its stuffing length is
      not read), 6 plus `PES_packet_length` bytes for a PES packet. Only a
      private-stream-1 packet writes anything. */
  lemma ParseStepShape(buf: seq<Octet>, audioI: int)
    ensures var s := ParseStep(buf, audioI);
      && (|buf| < 4 ==> s == NeedMore)
      && (|buf| >= 4 && (buf[0] != 0 || buf[1] != 0 || buf[2] != 1) ==> s == Bad(DemuxAssertion))
      && (|buf| >= 4 && buf[0] == 0 && buf[1] == 0 && buf[2] == 1 && buf[3] != 0xBA && !PesStart(buf[3]) ==> s == Bad(DemuxAssertion))
      && (s.Consumed? ==> buf[0] == 0 && buf[1] == 0 && buf[2] == 1)
      && (s.Consumed? && buf[3] == 0xBA ==> s.n == 14)
      && (s.Consumed? && buf[3] != 0xBA ==> |buf| >= 6 && PesStart(buf[3]) && s.n == 6 + PesLength(buf))
      && (s == NeedMore && |buf| >= 14 ==> buf[3] != 0xBA)
      && (s == NeedMore && |buf| >= 6 && buf[3] != 0xBA ==> |buf| < 6 + PesLength(buf))
      && (s.Consumed? && s.emitted != [] ==> buf[3] == 0xBD)
  {
  }

  lemma SliceOfAppend(a: seq<Octet>, more: seq<Octet>, i: nat, j: nat)
    requires i <= j <= |a|
    ensures (a + more)[i..j] == a[i..j]
  {
  }

  /** A step that is decided on `buf` is decided the same way whatever
      bytes follow: a step reads only the packet it consumes. */
  lemma ParseStepExtend(buf: seq<Octet>, more: seq<Octet>, audioI: int)
    requires ParseStep(buf, audioI) != NeedMore
    ensures ParseStep(buf + more, audioI) == ParseStep(buf, audioI)
  {
    var b := buf + more;
    assert b[..3] == buf[..3];
    assert b[3] == buf[3];
    if |buf| >= 6 {
      assert b[4] == buf[4] && b[5] == buf[5];
      if |buf| >= 6 + PesLength(buf) {
        SliceOfAppend(buf, more, 6, 6 + PesLength(buf));
      }
    }
  }

  // ================= the packet loop =================

  /** Prefix `acc` to the output of a drain result. */
  function AddOut(acc: seq<Octet>, r: Result<(seq<Octet>, seq<Octet>), DemuxError>): Result<(seq<Octet>, seq<Octet>), DemuxError>
  {
    if r.Success? then Success((r.value.0, acc + r.value.1)) else Failure(r.error)
  }

  lemma AddOutNil(r: Result<(seq<Octet>, seq<Octet>), DemuxError>)
    ensures AddOut([], r) == r
  {
    if r.Success? {
      assert [] + r.value.1 == r.value.1;
    }
  }

  lemma AddOutTwice(a: seq<Octet>, b: seq<Octet>, r: Result<(seq<Octet>, seq<Octet>), DemuxError>)
    ensures AddOut(a, AddOut(b, r)) == AddOut(a + b, r)
  {
    if r.Success? {
      assert a + (b + r.value.1) == (a + b) + r.value.1;
    }
  }

  /** The inner `while True` loop: take whole packets off the buffer until
      the next one is incomplete; the bytes left and the bytes written. */
  function Drain(buf: seq<Octet>, audioI: int): Result<(seq<Octet>, seq<Octet>), DemuxError>
    decreases |buf|
  {
    match ParseStep(buf, audioI)
    case NeedMore => Success((buf, []))
    case Bad(e) => Failure(e)
    case Consumed(n, emitted) => AddOut(emitted, Drain(buf[n..], audioI))
  }

  /** The body of a private-stream-1 packet: the audio it writes. */
  method ReadSubstream(pes: seq<Octet>, audioI: int) returns (r: Result<seq<Octet>, DemuxError>)
    ensures r == SubstreamPayload(pes, audioI)
  {
    if |pes| < 3 {
      return Failure(DemuxIndexError);
    }
    var hdrDataLen := pes[2] as int;
    var inner := PySlice(pes, 3 + hdrDataLen, |pes|);
    if |inner| == 0 {
      return Failure(DemuxIndexError);
    }
    var innerId := inner[0];
    r := Success([]);
    if 0x80 <= innerId <= 0x87 {
      var idx := innerId as int - 0x80;
      if idx == audioI {
        r := Success(PySlice(inner, 4, |inner|));
      }
    }
  }

  /** The packet loop of `dump_ac3` on the buffer. */
  method DrainBuffer(buffer: seq<Octet>, audioI: int) returns (r: Result<(seq<Octet>, seq<Octet>), DemuxError>)
    ensures r == Drain(buffer, audioI)
  {
    var buf := buffer;
    var out: seq<Octet> := [];
    AddOutNil(Drain(buffer, audioI));
    while true
      invariant Drain(buffer, audioI) == AddOut(out, Drain(buf, audioI))
      decreases |buf|
    {
      if |buf| < 4 {
        assert ParseStep(buf, audioI) == NeedMore;
        break;
      }
      if buf[0] != 0 || buf[1] != 0 || buf[2] != 1 {
        return Failure(DemuxAssertion);
      }
      var st := buf[3];
      if st == 0xBA {
        if |buf| < 14 {
          assert ParseStep(buf, audioI) == NeedMore;
          break;
        }
        assert ParseStep(buf, audioI) == Consumed(14, []);
        AddOutTwice(out, [], Drain(buf[14..], audioI));
        assert out + [] == out;
        buf := buf[14..];
      } else {
        if !PesStart(st) {
          return Failure(DemuxAssertion);
        }
        if |buf| < 6 {
          assert ParseStep(buf, audioI) == NeedMore;
          break;
        }
        var leny := (buf[4] as int) * 256 + buf[5] as int;
        if |buf| < 6 + leny {
          assert ParseStep(buf, audioI) == NeedMore;
          break;
        }
        var emitted: seq<Octet> := [];
        if st == 0xBD {
          var payload := ReadSubstream(buf[6..6 + leny], audioI);
          if payload.Failure? {
            return Failure(payload.error);
          }
          emitted := payload.value;
        }
        assert ParseStep(buf, audioI) == Consumed(6 + leny, emitted);
        AddOutTwice(out, emitted, Drain(buf[6 + leny..], audioI));
        out := out + emitted;
        buf := buf[6 + leny..];
      }
    }
    assert out + [] == out;
    r := Success((buf, out));
  }

  // ================= packets, the writer's view =================

  /** A packet of the stream: a pack header with the 10 bytes after its
      start code, or a PES packet with its stream id and body. */
  datatype Packet = PackHeader(fields: seq<Octet>) | Pes(streamId: Octet, body: seq<Octet>)

  predicate WellFormed(p: Packet)
  {
    match p
    case PackHeader(fields) => |fields| == 10
    case Pes(id, body) =>
      && PesStart(id) && |body| < 0x1_0000
      && (id == 0xBD ==> |body| >= 3 && 3 + body[2] as int < |body|)
  }

  /** The bytes of a packet in the stream. */
  function Serialize(p: Packet): seq<Octet>
    requires WellFormed(p)
  {
    match p
    case PackHeader(fields) => [0, 0, 1, 0xBA] + fields
    case Pes(id, body) => [0, 0, 1, id] + [(|body| / 256) as Octet, (|body| % 256) as Octet] + body
  }

  function SerializeAll(ps: seq<Packet>): seq<Octet>
    requires forall j :: 0 <= j < |ps| ==> WellFormed(ps[j])
  {
    if |ps| == 0 then [] else Serialize(ps[0]) + SerializeAll(ps[1..])
  }

  /** What a packet contributes to the AC-3 file: for a private-stream-1
      packet of audio stream `audio_i` (0 to 7), the body after its PES
      header and the 4-byte sub-stream header; nothing otherwise. */
  function Audio(p: Packet, audioI: int): seq<Octet>
    requires WellFormed(p)
  {
    if p.Pes? && p.streamId == 0xBD then
      var at := 3 + p.body[2] as int;
      if 0 <= audioI <= 7 && p.body[at] as int == 0x80 + audioI then
        (if at + 4 <= |p.body| then p.body[at + 4..] else [])
      else []
    else []
  }

  function AudioAll(ps: seq<Packet>, audioI: int): seq<Octet>
    requires forall j :: 0 <= j < |ps| ==> WellFormed(ps[j])
  {
    if |ps| == 0 then [] else Audio(ps[0], audioI) + AudioAll(ps[1..], audioI)
  }

  /** The header of a serialized PES packet gives back its stream id and
      length, and the body follows it. */
  lemma PesFields(id: Octet, body: seq<Octet>, tail: seq<Octet>)
    requires WellFormed(Pes(id, body))
    ensures var buf := Serialize(Pes(id, body)) + tail;
      && |buf| >= 6 + |body|
      && buf[0] == 0 && buf[1] == 0 && buf[2] == 1 && buf[3] == id
      && PesLength(buf) == |body|
      && buf[6..6 + |body|] == body
  {
    var buf := Serialize(Pes(id, body)) + tail;
    assert buf[4] == (|body| / 256) as Octet && buf[5] == (|body| % 256) as Octet;
    assert buf[6..6 + |body|] == body;
  }

  /** A private-stream-1 body writes what `Audio` says. */
  lemma SubstreamAudio(body: seq<Octet>, audioI: int)
    requires WellFormed(Pes(0xBD, body))
    ensures SubstreamPayload(body, audioI) == Success(Audio(Pes(0xBD, body), audioI))
  {
    var at := 3 + body[2] as int;
    var inner := PySlice(body, at, |body|);
    assert inner == body[at..];
    assert inner[0] == body[at];
    if at + 4 <= |body| {
      assert PySlice(inner, 4, |inner|) == body[at + 4..];
    } else {
      assert PySlice(inner, 4, |inner|) == [];
    }
  }

  /** A well-formed packet at the front of the buffer is consumed whole and
      writes exactly its audio. */
  lemma ParseSerialized(p: Packet, tail: seq<Octet>, audioI: int)
    requires WellFormed(p)
    ensures ParseStep(Serialize(p) + tail, audioI) == Consumed(|Serialize(p)|, Audio(p, audioI))
  {
    match p
    case PackHeader(fields) =>
      var buf := Serialize(p) + tail;
      assert buf[0] == 0 && buf[1] == 0 && buf[2] == 1 && buf[3] == 0xBA;
    case Pes(id, body) =>
      PesFields(id, body, tail);
      if id == 0xBD {
        SubstreamAudio(body, audioI);
      }
  }

  /** The loop consumes a serialized packet whole and writes its audio. */
  lemma DrainPacket(p: Packet, rest: seq<Octet>, audioI: int)
    requires WellFormed(p)
    ensures Drain(Serialize(p) + rest, audioI) == AddOut(Audio(p, audioI), Drain(rest, audioI))
  {
    ParseSerialized(p, rest, audioI);
    assert (Serialize(p) + rest)[|Serialize(p)|..] == rest;
  }

  /** The packet loop reads back a stream of well-formed packets followed
      by an incomplete rest: it leaves the rest in the buffer and writes
      the audio of the packets, in order. */
  lemma {:induction false} DrainSerialized(ps: seq<Packet>, tail: seq<Octet>, audioI: int)
    requires forall j :: 0 <= j < |ps| ==> WellFormed(ps[j])
    requires ParseStep(tail, audioI) == NeedMore
    ensures Drain(SerializeAll(ps) + tail, audioI) == Success((tail, AudioAll(ps, audioI)))
  {
    if |ps| > 0 {
      var rest := SerializeAll(ps[1..]) + tail;
      assert SerializeAll(ps) + tail == Serialize(ps[0]) + rest;
      DrainPacket(ps[0], rest, audioI);
      DrainSerialized(ps[1..], tail, audioI);
      assert AudioAll(ps, audioI) == Audio(ps[0], audioI) + AudioAll(ps[1..], audioI);
    } else {
      assert SerializeAll(ps) + tail == tail;
    }
  }

  /** The packet loop stops only in front of an incomplete packet. */
  lemma {:induction false} DrainStops(buf: seq<Octet>, audioI: int)
    requires Drain(buf, audioI).Success?
    ensures ParseStep(Drain(buf, audioI).value.0, audioI) == NeedMore
    decreases |buf|
  {
    match ParseStep(buf, audioI)
    case NeedMore =>
    case Bad(_) =>
    case Consumed(n, _) =>
      DrainStops(buf[n..], audioI);
  }

  /** Draining a longer buffer finishes the packets of the shorter one
      first: the whole packets of `buf` go out as before, and the loop goes
      on from the rest with the extra bytes behind it. */
  lemma {:induction false} DrainAppend(buf: seq<Octet>, more: seq<Octet>, audioI: int)
    ensures Drain(buf, audioI).Failure? ==> Drain(buf + more, audioI) == Drain(buf, audioI)
    ensures Drain(buf, audioI).Success? ==>
      Drain(buf + more, audioI) == AddOut(Drain(buf, audioI).value.1, Drain(Drain(buf, audioI).value.0 + more, audioI))
    decreases |buf|
  {
    match ParseStep(buf, audioI)
    case NeedMore =>
      AddOutNil(Drain(buf + more, audioI));
    case Bad(e) =>
      ParseStepExtend(buf, more, audioI);
    case Consumed(n, emitted) =>
      assert Drain(buf + more, audioI) == AddOut(emitted, Drain(buf[n..] + more, audioI)) by {
        ParseStepExtend(buf, more, audioI);
        assert (buf + more)[n..] == buf[n..] + more;
      }
      DrainAppend(buf[n..], more, audioI);
      var inner := Drain(buf[n..], audioI);
      if inner.Success? {
        AddOutTwice(emitted, inner.value.1, Drain(inner.value.0 + more, audioI));
      }
  }

  // ================= sectors and files =================

  /** A read of up to one sector from a VOB file: a whole sector, or a short
      non-empty read at the end of a file whose size is not a whole number
      of sectors. */
  datatype Read = Whole(data: seq<Octet>) | Partial

  /** The reads from file `i` at byte `pos` on, through the last file. An
      empty read moves on to the next file. */
  function ReadsFrom(files: seq<seq<Octet>>, i: nat, pos: nat): seq<Read>
    requires i < |files| ==> pos <= |files[i]|
    decreases |files| - i, if i < |files| then |files[i]| - pos else 0
  {
    if i >= |files| then []
    else if pos + SectorSize <= |files[i]| then [Whole(files[i][pos..pos + SectorSize])] + ReadsFrom(files, i, pos + SectorSize)
    else if pos == |files[i]| then ReadsFrom(files, i + 1, 0)
    else [Partial]
  }

  /** One read of a sector from file `i`: a whole sector moves on within
      the file, an empty read to the next file, anything else is short. */
  lemma ReadsFromStep(files: seq<seq<Octet>>, i: nat, pos: nat)
    requires i < |files| && pos <= |files[i]|
    ensures var result := ReadAt(files[i], pos, SectorSize);
      && (|result| == SectorSize ==> ReadsFrom(files, i, pos) == [Whole(result)] + ReadsFrom(files, i, pos + SectorSize))
      && (|result| == 0 ==> ReadsFrom(files, i, pos) == ReadsFrom(files, i + 1, 0))
      && (0 < |result| < SectorSize ==> ReadsFrom(files, i, pos) == [Partial])
  {
  }

  /** Some read comes up short exactly when some file from `i` on is not a
      whole number of sectors. */
  lemma {:induction false} ReadsPartial(files: seq<seq<Octet>>, i: nat, pos: nat)
    requires i < |files| ==> pos <= |files[i]| && pos % SectorSize == 0
    ensures Partial in ReadsFrom(files, i, pos) <==> exists k :: i <= k < |files| && |files[k]| % SectorSize != 0
    decreases |files| - i, if i < |files| then |files[i]| - pos else 0
  {
    if i < |files| {
      var f := files[i];
      if pos + SectorSize <= |f| {
        ReadsPartial(files, i, pos + SectorSize);
      } else if pos == |f| {
        ReadsPartial(files, i + 1, 0);
        assert |f| % SectorSize == 0;
      } else {
        var q := pos / SectorSize;
        assert pos == q * SectorSize;
        assert |f| == q * SectorSize + (|f| - pos);
        assert |f| % SectorSize == |f| - pos;
      }
    }
  }

  /** `sector >= r[0] and sector <= r[1]` for some range `r`. */
  predicate InRanges(ranges: seq<(nat, nat)>, sector: int)
  {
    exists j :: 0 <= j < |ranges| && ranges[j].0 <= sector <= ranges[j].1
  }

  /** The range loop of `dump_ac3`: is the sector one of the title's? */
  method SectorSelected(ranges: seq<(nat, nat)>, sector: int) returns (sectorIn: bool)
    ensures sectorIn <==> InRanges(ranges, sector)
  {
    sectorIn := false;
    var j := 0;
    while j < |ranges|
      invariant 0 <= j <= |ranges|
      invariant forall k :: 0 <= k < j ==> !(ranges[k].0 <= sector <= ranges[k].1)
    {
      if sector >= ranges[j].0 && sector <= ranges[j].1 {
        sectorIn := true;
        break;
      }
      j := j + 1;
    }
  }

  /** The sector ranges of the taken cells, cell after cell. */
  function AllRanges(cAdt: seq<CellAddress>, take: seq<Resolve.CellKey>): seq<(nat, nat)>
  {
    if |take| == 0 then [] else AllRanges(cAdt, take[..|take| - 1]) + SectorRanges(cAdt, take[|take| - 1])
  }

  lemma InRangesConcat(a: seq<(nat, nat)>, b: seq<(nat, nat)>, sector: int)
    ensures InRanges(a + b, sector) <==> InRanges(a, sector) || InRanges(b, sector)
  {
    var ab := a + b;
    if InRanges(ab, sector) {
      var j :| 0 <= j < |ab| && ab[j].0 <= sector <= ab[j].1;
      if j >= |a| {
        assert b[j - |a|] == ab[j];
      } else {
        assert a[j] == ab[j];
      }
    }
    if InRanges(a, sector) {
      var j :| 0 <= j < |a| && a[j].0 <= sector <= a[j].1;
      assert ab[j] == a[j];
    }
    if InRanges(b, sector) {
      var j :| 0 <= j < |b| && b[j].0 <= sector <= b[j].1;
      assert ab[|a| + j] == b[j];
    }
  }

  lemma InRangesOfCell(cAdt: seq<CellAddress>, pair: Resolve.CellKey, sector: int)
    ensures InRanges(SectorRanges(cAdt, pair), sector) <==> Covers(cAdt, pair, sector)
  {
    var b := SectorRanges(cAdt, pair);
    if InRanges(b, sector) {
      var j :| 0 <= j < |b| && b[j].0 <= sector <= b[j].1;
      SectorRangesExactly(cAdt, pair, b[j]);
    }
    if Covers(cAdt, pair, sector) {
      var e :| e in cAdt && Matches(e, pair) && e.startSector <= sector <= e.lastSector;
      SectorRangesExactly(cAdt, pair, (e.startSector, e.lastSector));
      var j :| 0 <= j < |b| && b[j] == (e.startSector, e.lastSector);
    }
  }

  /** A sector is selected exactly when some cell-address entry of a taken
      cell holds it. */
  lemma {:induction false} AllRangesExactly(cAdt: seq<CellAddress>, take: seq<Resolve.CellKey>, sector: int)
    ensures InRanges(AllRanges(cAdt, take), sector) <==> exists p :: p in take && Covers(cAdt, p, sector)
  {
    if |take| > 0 {
      var init := take[..|take| - 1];
      var last := take[|take| - 1];
      AllRangesExactly(cAdt, init, sector);
      InRangesConcat(AllRanges(cAdt, init), SectorRanges(cAdt, last), sector);
      InRangesOfCell(cAdt, last, sector);
      assert forall p :: p in take <==> p in init || p == last by {
        assert take == init + [last];
      }
    }
  }

  /** The demultiplexer reads exactly the sectors `get_sectors_from_vobids`
      lists for the same cells. */
  lemma AllRangesSelect(cAdt: seq<CellAddress>, take: seq<Resolve.CellKey>, sector: int)
    ensures InRanges(AllRanges(cAdt, take), sector) <==> sector in SectorsOf(cAdt, take)
  {
    AllRangesExactly(cAdt, take, sector);
    SectorsExactly(cAdt, take, sector);
  }

  // ================= dump_ac3 =================

  /** The sector loop from the reads on: buffer a selected sector, run the
      packet loop, stop at a short read. The buffer left at the end is
      dropped. */
  function Feed(input: seq<Read>, ranges: seq<(nat, nat)>, audioI: int, sector: nat, buffer: seq<Octet>, out: seq<Octet>): Result<seq<Octet>, DemuxError>
    decreases |input|
  {
    if |input| == 0 then Success(out)
    else match input[0]
      case Partial => Failure(DemuxAssertion)
      case Whole(data) =>
        var buffer' := if InRanges(ranges, sector) then buffer + data else buffer;
        var drained :- Drain(buffer', audioI);
        Feed(input[1..], ranges, audioI, sector + 1, drained.0, out + drained.1)
  }

  predicate IsAc3(name: string)
  {
    |name| >= 3 && name[..3] == "ac3"
  }

  /** `dump_ac3(a, audio_i)` without dvdsrc: the bytes written to `a`. */
  function DumpAc3Spec(files: seq<seq<Octet>>, cAdt: seq<CellAddress>, take: seq<Resolve.CellKey>,
                       audios: seq<string>, audioI: int): Result<seq<Octet>, DemuxError>
  {
    var name :- PyAt(audios, audioI).ToResult(DemuxIndexError);
    if !IsAc3(name) then Failure(NotAc3)
    else Feed(ReadsFrom(files, 0, 0), AllRanges(cAdt, take), audioI, 0, [], [])
  }

  /** The sector ranges of the cells of the title, in order. */
  method CollectRanges(cAdt: seq<CellAddress>, take: seq<Resolve.CellKey>) returns (ranges: seq<(nat, nat)>)
    ensures ranges == AllRanges(cAdt, take)
  {
    ranges := [];
    var c := 0;
    while c < |take|
      invariant 0 <= c <= |take|
      invariant ranges == AllRanges(cAdt, take[..c])
    {
      assert take[..c + 1][..c] == take[..c];
      ranges := ranges + SectorRanges(cAdt, take[c]);
      c := c + 1;
    }
    assert take[..c] == take;
  }

  /** `Title.dump_ac3` (pure-Python branch): `files` are the contents of the
      title set's VOB files, `cAdt` its cell-address table, `take` the
      title's cells and `audios` its audio descriptions. */
  method DumpAc3(files: seq<seq<Octet>>, cAdt: seq<CellAddress>, take: seq<Resolve.CellKey>,
                 audios: seq<string>, audioI: int) returns (r: Result<seq<Octet>, DemuxError>)
    ensures r == DumpAc3Spec(files, cAdt, take, audios, audioI)
  {
    var name := PyAt(audios, audioI);
    if name.None? {
      return Failure(DemuxIndexError);
    }
    if !IsAc3(name.value) {
      return Failure(NotAc3);
    }
    var ranges := CollectRanges(cAdt, take);
    ghost var goal := Feed(ReadsFrom(files, 0, 0), ranges, audioI, 0, [], []);
    var sector: nat := 0;
    var fileI: nat := 0;
    var pos: nat := 0;
    var buffer: seq<Octet> := [];
    var out: seq<Octet> := [];
    while fileI < |files|
      invariant fileI < |files| ==> pos <= |files[fileI]|
      invariant goal == Feed(ReadsFrom(files, fileI, pos), ranges, audioI, sector, buffer, out)
      decreases |files| - fileI, if fileI < |files| then |files[fileI]| - pos else 0
    {
      var result := ReadAt(files[fileI], pos, SectorSize);
      ReadsFromStep(files, fileI, pos);
      if |result| != SectorSize {
        if |result| != 0 {
          return Failure(DemuxAssertion);
        }
        fileI := fileI + 1;
        pos := 0;
        continue;
      }
      pos := pos + SectorSize;
      var sectorIn := SectorSelected(ranges, sector);
      if sectorIn {
        buffer := buffer + result;
      }
      sector := sector + 1;
      var drained := DrainBuffer(buffer, audioI);
      if drained.Failure? {
        return Failure(drained.error);
      }
      buffer := drained.value.0;
      out := out + drained.value.1;
    }
    r := Success(out);
  }

  // ================= the stream as a whole =================

  /** The bytes of the selected sectors, in order. */
  function Selected(input: seq<Read>, ranges: seq<(nat, nat)>, sector: nat): seq<Octet>
    decreases |input|
  {
    if |input| == 0 then []
    else
      var here := if input[0].Whole? && InRanges(ranges, sector) then input[0].data else [];
      here + Selected(input[1..], ranges, sector + 1)
  }

  function Written(r: Result<(seq<Octet>, seq<Octet>), DemuxError>): Result<seq<Octet>, DemuxError>
  {
    if r.Success? then Success(r.value.1) else Failure(r.error)
  }

  /** Running the packet loop after every sector gives what one run of it
      over all the selected bytes gives: the demultiplexer does not depend
      on where the sector boundaries fall. */
  lemma {:induction false} FeedIsDrain(input: seq<Read>, ranges: seq<(nat, nat)>, audioI: int, sector: nat, buffer: seq<Octet>, out: seq<Octet>)
    requires Partial !in input
    requires ParseStep(buffer, audioI) == NeedMore
    ensures Feed(input, ranges, audioI, sector, buffer, out) == Written(AddOut(out, Drain(buffer + Selected(input, ranges, sector), audioI)))
    decreases |input|
  {
    if |input| == 0 {
      assert buffer + [] == buffer;
      assert out + [] == out;
    } else {
      assert input == [input[0]] + input[1..];
      var buffer' := if InRanges(ranges, sector) then buffer + input[0].data else buffer;
      var later := Selected(input[1..], ranges, sector + 1);
      assert buffer + Selected(input, ranges, sector) == buffer' + later;
      DrainAppend(buffer', later, audioI);
      var d := Drain(buffer', audioI);
      if d.Success? {
        DrainStops(buffer', audioI);
        FeedIsDrain(input[1..], ranges, audioI, sector + 1, d.value.0, out + d.value.1);
        AddOutTwice(out, d.value.1, Drain(d.value.0 + later, audioI));
        assert Feed(input, ranges, audioI, sector, buffer, out) == Feed(input[1..], ranges, audioI, sector + 1, d.value.0, out + d.value.1);
      } else {
        assert Feed(input, ranges, audioI, sector, buffer, out) == Failure(d.error);
      }
    }
  }

  /** When every VOB file is a whole number of sectors and the track is
      AC-3, `dump_ac3` writes what the packet loop writes over the bytes
      of the selected sectors; if those bytes are well-formed packets
      followed by an incomplete rest, it writes exactly the audio payloads
      of stream `audio_i`, in stream order. */
  lemma DumpAc3Stream(files: seq<seq<Octet>>, cAdt: seq<CellAddress>, take: seq<Resolve.CellKey>,
                      audios: seq<string>, audioI: int, ps: seq<Packet>, tail: seq<Octet>)
    requires PyAt(audios, audioI).Some? && IsAc3(PyAt(audios, audioI).value)
    requires forall k :: 0 <= k < |files| ==> |files[k]| % SectorSize == 0
    requires forall j :: 0 <= j < |ps| ==> WellFormed(ps[j])
    requires ParseStep(tail, audioI) == NeedMore
    requires Selected(ReadsFrom(files, 0, 0), AllRanges(cAdt, take), 0) == SerializeAll(ps) + tail
    ensures DumpAc3Spec(files, cAdt, take, audios, audioI) == Success(AudioAll(ps, audioI))
  {
    ReadsPartial(files, 0, 0);
    var input := ReadsFrom(files, 0, 0);
    var ranges := AllRanges(cAdt, take);
    assert ParseStep([], audioI) == NeedMore;
    FeedIsDrain(input, ranges, audioI, 0, [], []);
    assert [] + Selected(input, ranges, 0) == SerializeAll(ps) + tail;
    DrainSerialized(ps, tail, audioI);
    assert [] + AudioAll(ps, audioI) == AudioAll(ps, audioI);
    assert Feed(input, ranges, audioI, 0, [], []) == Success(AudioAll(ps, audioI));
  }

  /** A VOB file that is not a whole number of sectors makes `dump_ac3`
      fail, with an `AssertionError` unless the packet loop failed first. */
  lemma DumpAc3ShortFile(files: seq<seq<Octet>>, cAdt: seq<CellAddress>, take: seq<Resolve.CellKey>,
                         audios: seq<string>, audioI: int)
    requires PyAt(audios, audioI).Some? && IsAc3(PyAt(audios, audioI).value)
    requires exists k :: 0 <= k < |files| && |files[k]| % SectorSize != 0
    ensures DumpAc3Spec(files, cAdt, take, audios, audioI).Failure?
  {
    ReadsPartial(files, 0, 0);
    FeedFailsAtPartial(ReadsFrom(files, 0, 0), AllRanges(cAdt, take), audioI, 0, [], []);
  }

  lemma {:induction false} FeedFailsAtPartial(input: seq<Read>, ranges: seq<(nat, nat)>, audioI: int, sector: nat, buffer: seq<Octet>, out: seq<Octet>)
    requires Partial in input
    ensures Feed(input, ranges, audioI, sector, buffer, out).Failure?
    decreases |input|
  {
    if input[0].Whole? {
      assert Partial in input[1..] by {
        assert input == [input[0]] + input[1..];
      }
      var buffer' := if InRanges(ranges, sector) then buffer + input[0].data else buffer;
      var d := Drain(buffer', audioI);
      if d.Success? {
        FeedFailsAtPartial(input[1..], ranges, audioI, sector + 1, d.value.0, out + d.value.1);
      }
    }
  }
}
