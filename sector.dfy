/** The cursor over a navigation file that every IFO table reader advances:
    a file position, big-endian reads at that position, and the jump through a
    sector pointer (pointer value times 2048 bytes from the start of the file). */
module Sector {
  import opened Wrappers
  import opened Bytes

  const SectorSize: nat := 2048

  /** Why decoding a navigation file fails: a read past the end of the file
      (struct.error), an index into a record the file cut short (IndexError),
      or a playback-time frame-rate code that is neither PAL nor NTSC
      (ValueError). */
  datatype ParseError = Truncated | ShortRecord | BadFrameRate

  /** The `w`-byte big-endian field at byte `at`. */
  function FieldAt(data: seq<byte>, at: nat, w: nat): (r: Result<nat, ParseError>)
    ensures r.Success? <==> at + w <= |data|
    ensures r.Failure? ==> r.error == Truncated
    ensures r.Success? ==> r.value < Pow256(w) && ToBE(r.value, w) == data[at..at + w]
  {
    if at + w <= |data| then
      ToBEOfBE(data[at..at + w]);
      Success(BE(data[at..at + w]))
    else Failure(Truncated)
  }

  lemma MulPred(n: nat, size: nat)
    requires n > 0
    ensures (n - 1) * size + size == n * size
  {
  }

  /** Record `i` of `count` ends no later than the last one. */
  lemma {:induction false} ChunkFits(i: nat, count: nat, size: nat)
    requires i < count
    ensures i * size + size <= count * size
    decreases count - i
  {
    MulPred(i + 1, size);
    if i + 1 < count {
      ChunkFits(i + 1, count, size);
    }
  }

  /** `count` consecutive records of `size` bytes starting at byte `at`. */
  function Chunks(data: seq<byte>, at: nat, count: nat, size: nat): (r: seq<seq<byte>>)
    requires count == 0 || at + count * size <= |data|
    ensures |r| == count
    ensures forall i :: 0 <= i < count ==> |r[i]| == size
    decreases count
  {
    if count == 0 then []
    else
      MulPred(count, size);
      [data[at..at + size]] + Chunks(data, at + size, count - 1, size)
  }

  /** Record `i` is the `size` bytes at `at + i * size`. */
  lemma {:induction false} ChunkAt(data: seq<byte>, at: nat, count: nat, size: nat, i: nat)
    requires count == 0 || at + count * size <= |data|
    requires i < count
    ensures at + i * size + size <= |data|
    ensures Chunks(data, at, count, size)[i] == data[at + i * size..at + i * size + size]
    decreases count
  {
    MulPred(count, size);
    var rest := Chunks(data, at + size, count - 1, size);
    assert Chunks(data, at, count, size) == [data[at..at + size]] + rest;
    if i > 0 {
      ChunkAt(data, at + size, count - 1, size, i - 1);
      MulPred(i, size);
      assert at + size + (i - 1) * size == at + i * size;
    } else {
      assert i * size == 0;
    }
  }

  /** Reading one more record extends the list by that record. */
  lemma {:induction false} ChunksSnoc(data: seq<byte>, at: nat, k: nat, size: nat)
    requires at + k * size + size <= |data|
    ensures k == 0 || at + k * size <= |data|
    ensures at + (k + 1) * size <= |data|
    ensures Chunks(data, at, k + 1, size) == Chunks(data, at, k, size) + [data[at + k * size..at + k * size + size]]
    decreases k
  {
    MulPred(k + 1, size);
    if k > 0 {
      MulPred(k, size);
      ChunksSnoc(data, at + size, k - 1, size);
    }
  }

  /** The records, or Truncated when the file ends before the last one does. */
  function ChunksAt(data: seq<byte>, at: nat, count: nat, size: nat): (r: Result<seq<seq<byte>>, ParseError>)
    ensures r.Success? <==> count == 0 || at + count * size <= |data|
    ensures r.Failure? ==> r.error == Truncated
    ensures r.Success? ==> |r.value| == count
  {
    if count == 0 || at + count * size <= |data| then Success(Chunks(data, at, count, size))
    else Failure(Truncated)
  }

  /** The byte offset a 4-byte sector pointer stored at `at` leads to. */
  function SectorPtr(data: seq<byte>, at: nat): (r: Result<nat, ParseError>)
    ensures r.Success? <==> at + 4 <= |data|
    ensures r.Success? ==> r.value % SectorSize == 0
    ensures r.Success? ==> r.value == BE(data[at..at + 4]) * SectorSize
  {
    var p :- FieldAt(data, at, 4);
    Success(p * SectorSize)
  }

  /** What `read(n)` returns at position `pos`: up to `n` bytes, fewer at the
      end of the file. */
  function ReadAt<T>(data: seq<T>, pos: nat, n: nat): (buf: seq<T>)
    ensures |buf| <= n
    ensures pos + n <= |data| ==> buf == data[pos..pos + n]
    ensures pos >= |data| ==> buf == []
  {
    if pos >= |data| then []
    else if pos + n <= |data| then data[pos..pos + n]
    else data[pos..]
  }

  class SectorReader {
    const ifo: seq<byte>
    var pos: nat

    constructor (data: seq<byte>)
      ensures ifo == data && pos == 0
    {
      ifo := data;
      pos := 0;
    }

    method Seek(p: nat)
      modifies this
      ensures pos == p
    {
      pos := p;
    }

    method Tell() returns (p: nat)
      ensures p == pos
    {
      p := pos;
    }

    /** Reads exactly `n` bytes or fails with Truncated. */
    method UnpackBytes(n: nat) returns (r: Result<seq<byte>, ParseError>)
      modifies this
      requires n > 0
      ensures r.Success? <==> old(pos) + n <= |ifo|
      ensures r.Failure? ==> r.error == Truncated
      ensures r.Success? ==> r.value == ifo[old(pos)..old(pos) + n] && pos == old(pos) + n
    {
      if pos + n <= |ifo| {
        r := Success(ifo[pos..pos + n]);
        pos := pos + n;
      } else {
        r := Failure(Truncated);
      }
    }

    /** `_unpack_byte(w)`: one unsigned big-endian field of `w` bytes. */
    method UnpackByte(w: nat) returns (r: Result<nat, ParseError>)
      requires w > 0
      modifies this
      ensures r == FieldAt(ifo, old(pos), w)
      ensures r.Success? ==> pos == old(pos) + w
    {
      var bytes :- UnpackBytes(w);
      r := Success(BE(bytes));
    }

    /** Seeks to `at`, then reads `count` records of `size` bytes. */
    method ReadChunks(at: nat, count: nat, size: nat) returns (r: Result<seq<seq<byte>>, ParseError>)
      requires size > 0
      modifies this
      ensures r == ChunksAt(ifo, at, count, size)
    {
      Seek(at);
      r := UnpackChunks(count, size);
    }

    /** `_unpack_byte(..., repeat=count)` and the counted record loops:
        `count` records of `size` bytes, read one after the other. */
    method UnpackChunks(count: nat, size: nat) returns (r: Result<seq<seq<byte>>, ParseError>)
      requires size > 0
      modifies this
      ensures r == ChunksAt(ifo, old(pos), count, size)
      ensures r.Success? ==> pos == old(pos) + count * size
    {
      ghost var at := pos;
      var acc: seq<seq<byte>> := [];
      var k := 0;
      while k < count
        invariant 0 <= k <= count
        invariant pos == at + k * size
        invariant k == 0 || at + k * size <= |ifo|
        invariant acc == Chunks(ifo, at, k, size)
      {
        var rec := UnpackBytes(size);
        if rec.Failure? {
          ChunkFits(k, count, size);
          return Failure(Truncated);
        }
        ChunksSnoc(ifo, at, k, size);
        acc := acc + [rec.value];
        k := k + 1;
      }
      r := Success(acc);
    }

    /** `_goto_sector_ptr(at)`: reads the pointer at `at` and moves to the
        sector it names. */
    method GotoSectorPtr(at: nat) returns (r: Result<nat, ParseError>)
      modifies this
      ensures r == SectorPtr(ifo, at)
      ensures r.Success? ==> pos == r.value
    {
      Seek(at);
      var p :- UnpackByte(4);
      r := Success(p * SectorSize);
      Seek(p * SectorSize);
    }

    /** `ifo.read(n)`, which returns fewer bytes at the end of the file. */
    method Read(n: nat) returns (buf: seq<byte>)
      modifies this
      ensures buf == ReadAt(ifo, old(pos), n)
      ensures pos == old(pos) + |buf|
    {
      buf := ReadAt(ifo, pos, n);
      pos := pos + |buf|;
    }
  }
}
