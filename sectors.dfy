/** Sector and frame-range bookkeeping of a title.

    Sector side: the cells a title takes, as (vob_id, cell_id) pairs, are
    looked up in the cell-address table `vts_c_adt`; every matching entry
    contributes its inclusive sector range, and the ranges are expanded to
    the list of sectors the demultiplexer reads.

    Frame side: the indexer's per-frame (vob_id, cell_id) array is grouped
    into maximal runs of equal keys, one list of inclusive [start, end]
    runs per key; `get_title` concatenates the runs of the cells it takes. */
module Sectors {
  import opened Wrappers
  import opened PyOps
  import opened IfoRecords
  import Resolve

  // ================= sectors of the taken cells =================

  /** `range(lo, hi + 1)`: the inclusive range, empty when `hi < lo`. */
  function IntRange(lo: int, hi: int): (r: seq<int>)
    ensures |r| == RangeLen(hi + 1 - lo)
    ensures forall j :: 0 <= j < |r| ==> r[j] == lo + j
  {
    seq(RangeLen(hi + 1 - lo), j requires 0 <= j < RangeLen(hi + 1 - lo) => lo + j)
  }

  predicate Matches(e: CellAddress, pair: Resolve.CellKey)
  {
    e.vobId == pair.0 && e.cellId == pair.1
  }

  /** `get_sectorranges_for_vobcellpair`: the (start, last) sector pair of
      every cell-address entry of the cell, in table order. */
  function SectorRanges(cAdt: seq<CellAddress>, pair: Resolve.CellKey): seq<(nat, nat)>
  {
    if |cAdt| == 0 then []
    else (if Matches(cAdt[0], pair) then [(cAdt[0].startSector, cAdt[0].lastSector)] else [])
         + SectorRanges(cAdt[1..], pair)
  }

  /** The sectors of a list of inclusive ranges, range after range. */
  function RangeSectors(ranges: seq<(nat, nat)>): seq<int>
  {
    if |ranges| == 0 then []
    else RangeSectors(ranges[..|ranges| - 1]) + IntRange(ranges[|ranges| - 1].0, ranges[|ranges| - 1].1)
  }

  /** The sector list `get_sectors_from_vobids` builds for the first cells of
      the list. */
  function SectorsOf(cAdt: seq<CellAddress>, pairs: seq<Resolve.CellKey>): seq<int>
  {
    if |pairs| == 0 then []
    else SectorsOf(cAdt, pairs[..|pairs| - 1]) + RangeSectors(SectorRanges(cAdt, pairs[|pairs| - 1]))
  }

  /** A range belongs to the cell's list exactly when some entry of the
      table carries that cell and those sectors. */
  lemma {:induction false} SectorRangesExactly(cAdt: seq<CellAddress>, pair: Resolve.CellKey, rg: (nat, nat))
    ensures rg in SectorRanges(cAdt, pair) <==>
      exists e :: e in cAdt && Matches(e, pair) && rg == (e.startSector, e.lastSector)
  {
    if |cAdt| > 0 {
      SectorRangesExactly(cAdt[1..], pair, rg);
      assert forall e :: e in cAdt <==> e == cAdt[0] || e in cAdt[1..];
    }
  }

  /** A sector is in the expansion of a range list exactly when one of the
      ranges holds it. */
  lemma {:induction false} RangeSectorsExactly(ranges: seq<(nat, nat)>, x: int)
    ensures x in RangeSectors(ranges) <==> exists rg :: rg in ranges && rg.0 <= x <= rg.1
  {
    if |ranges| > 0 {
      var init := ranges[..|ranges| - 1];
      var last := ranges[|ranges| - 1];
      RangeSectorsExactly(init, x);
      assert forall rg :: rg in ranges <==> rg in init || rg == last by {
        assert ranges == init + [last];
      }
      if last.0 <= x <= last.1 {
        assert IntRange(last.0, last.1)[x - last.0] == x;
      }
    }
  }

  /** Some entry of the table carries the cell and holds sector `x`. */
  predicate Covers(cAdt: seq<CellAddress>, pair: Resolve.CellKey, x: int)
  {
    exists e :: e in cAdt && Matches(e, pair) && e.startSector <= x <= e.lastSector
  }

  /** A sector is among a cell's sectors exactly when one of the cell's
      table entries holds it. */
  lemma CellSectorsExactly(cAdt: seq<CellAddress>, pair: Resolve.CellKey, x: int)
    ensures x in RangeSectors(SectorRanges(cAdt, pair)) <==> Covers(cAdt, pair, x)
  {
    var ranges := SectorRanges(cAdt, pair);
    RangeSectorsExactly(ranges, x);
    if x in RangeSectors(ranges) {
      var rg :| rg in ranges && rg.0 <= x <= rg.1;
      SectorRangesExactly(cAdt, pair, rg);
    }
    if Covers(cAdt, pair, x) {
      var e :| e in cAdt && Matches(e, pair) && e.startSector <= x <= e.lastSector;
      SectorRangesExactly(cAdt, pair, (e.startSector, e.lastSector));
    }
  }

  /** The sectors read for a title are exactly the sectors inside the
      cell-address entries of its taken cells. */
  lemma {:induction false} SectorsExactly(cAdt: seq<CellAddress>, pairs: seq<Resolve.CellKey>, x: int)
    ensures x in SectorsOf(cAdt, pairs) <==> exists p :: p in pairs && Covers(cAdt, p, x)
  {
    if |pairs| > 0 {
      var n := |pairs| - 1;
      var init := pairs[..n];
      var last := pairs[n];
      assert SectorsOf(cAdt, pairs) == SectorsOf(cAdt, init) + RangeSectors(SectorRanges(cAdt, last));
      SectorsExactly(cAdt, init, x);
      CellSectorsExactly(cAdt, last, x);
      if x in SectorsOf(cAdt, init) {
        var p :| p in init && Covers(cAdt, p, x);
        var k :| 0 <= k < n && init[k] == p;
        assert pairs[k] == p;
      }
      if exists p :: p in pairs && Covers(cAdt, p, x) {
        var p :| p in pairs && Covers(cAdt, p, x);
        var k :| 0 <= k <= n && pairs[k] == p;
        if k < n {
          assert init[k] == p;
        }
      }
    }
  }

  /** `get_sectors_from_vobids`. */
  method SectorsFromVobids(cAdt: seq<CellAddress>, pairs: seq<Resolve.CellKey>) returns (sectors: seq<int>)
    ensures sectors == SectorsOf(cAdt, pairs)
  {
    sectors := [];
    var i := 0;
    while i < |pairs|
      invariant 0 <= i <= |pairs|
      invariant sectors == SectorsOf(cAdt, pairs[..i])
    {
      var ranges := SectorRanges(cAdt, pairs[i]);
      sectors := AddRanges(sectors, ranges);
      assert pairs[..i + 1][..i] == pairs[..i];
      i := i + 1;
    }
    assert pairs[..i] == pairs;
  }

  /** The inner loop of `get_sectors_from_vobids`: every sector of every
      range, each range in order and inclusive of its last sector. */
  method AddRanges(sectors: seq<int>, ranges: seq<(nat, nat)>) returns (sectors': seq<int>)
    ensures sectors' == sectors + RangeSectors(ranges)
  {
    sectors' := sectors;
    var j := 0;
    while j < |ranges|
      invariant 0 <= j <= |ranges|
      invariant sectors' == sectors + RangeSectors(ranges[..j])
    {
      assert ranges[..j + 1][..j] == ranges[..j];
      sectors' := sectors' + IntRange(ranges[j].0, ranges[j].1);
      j := j + 1;
    }
    assert ranges[..j] == ranges;
  }

  // ================= _d2v_vobid_frameset =================

  /** An inclusive run `[start, end]` of frame indices. */
  datatype Run = Run(start: int, end: int)

  predicate InRun(r: Run, x: int)
  {
    r.start <= x <= r.end
  }

  predicate Covered(runs: seq<Run>, x: int)
  {
    exists j :: 0 <= j < |runs| && InRun(runs[j], x)
  }

  /** `runs` are the maximal runs of `key` among the first `i` entries of
      `keys`: non-empty, inclusive, ascending with a gap between neighbours,
      and covering exactly the indices holding `key`. */
  predicate RunsOf(runs: seq<Run>, keys: seq<Resolve.CellKey>, key: Resolve.CellKey, i: nat)
    requires i <= |keys|
  {
    && |runs| > 0
    && (forall j :: 0 <= j < |runs| ==> 0 <= runs[j].start <= runs[j].end < i)
    && (forall j :: 0 <= j < |runs| - 1 ==> runs[j].end + 1 < runs[j + 1].start)
    && (forall x :: 0 <= x < i ==> (keys[x] == key <==> Covered(runs, x)))
  }

  /** Index `i` holding another key leaves a key's runs as they are. */
  lemma RunsOfOther(runs: seq<Run>, keys: seq<Resolve.CellKey>, key: Resolve.CellKey, i: nat)
    requires i < |keys| && keys[i] != key
    requires RunsOf(runs, keys, key, i)
    ensures RunsOf(runs, keys, key, i + 1)
  {
  }

  /** The first index holding a key opens the run `[i, i]`. */
  lemma RunsOfFirst(keys: seq<Resolve.CellKey>, i: nat)
    requires i < |keys| && keys[i] !in keys[..i]
    ensures RunsOf([Run(i, i)], keys, keys[i], i + 1)
  {
    forall x | 0 <= x < i + 1
      ensures keys[x] == keys[i] <==> Covered([Run(i, i)], x)
    {
      if x < i {
        assert keys[x] in keys[..i];
      } else {
        assert InRun([Run(i, i)][0], x);
      }
    }
  }

  /** An index right after the key's last run extends that run. */
  lemma RunsOfExtend(runs: seq<Run>, keys: seq<Resolve.CellKey>, i: nat)
    requires i < |keys| && RunsOf(runs, keys, keys[i], i)
    requires runs[|runs| - 1].end + 1 == i
    ensures var last := runs[|runs| - 1];
      RunsOf(runs[..|runs| - 1] + [Run(last.start, last.end + 1)], keys, keys[i], i + 1)
  {
    var last := runs[|runs| - 1];
    var runs' := runs[..|runs| - 1] + [Run(last.start, last.end + 1)];
    forall x | 0 <= x < i + 1
      ensures keys[x] == keys[i] <==> Covered(runs', x)
    {
      if x < i && Covered(runs, x) {
        var j :| 0 <= j < |runs| && InRun(runs[j], x);
        assert InRun(runs'[j], x);
      }
      if Covered(runs', x) {
        var j :| 0 <= j < |runs'| && InRun(runs'[j], x);
        if x < i {
          assert InRun(runs[j], x);
        }
      }
      if x == i {
        assert InRun(runs'[|runs'| - 1], x);
      }
    }
  }

  /** An index further on opens a new run `[i, i]` after the key's runs. */
  lemma RunsOfAppend(runs: seq<Run>, keys: seq<Resolve.CellKey>, i: nat)
    requires i < |keys| && RunsOf(runs, keys, keys[i], i)
    requires runs[|runs| - 1].end + 1 != i
    ensures RunsOf(runs + [Run(i, i)], keys, keys[i], i + 1)
  {
    var runs' := runs + [Run(i, i)];
    forall x | 0 <= x < i + 1
      ensures keys[x] == keys[i] <==> Covered(runs', x)
    {
      if x < i && Covered(runs, x) {
        var j :| 0 <= j < |runs| && InRun(runs[j], x);
        assert InRun(runs'[j], x);
      }
      if Covered(runs', x) {
        var j :| 0 <= j < |runs'| && InRun(runs'[j], x);
        if j < |runs| {
          assert InRun(runs[j], x);
        }
      }
      if x == i {
        assert InRun(runs'[|runs|], x);
      }
    }
  }

  /** One turn of the `_d2v_vobid_frameset` loop on the run list of the key
      at index `i`: a run ending just before `i` is extended, otherwise the
      run `[i, i]` is appended. A key seen for the first time comes with the
      placeholder run `[i, i - 1]`, which the extension turns into `[i, i]`. */
  method RecordIndex(runs: seq<Run>, ghost keys: seq<Resolve.CellKey>, i: nat) returns (runs': seq<Run>)
    requires i < |keys|
    requires (runs == [Run(i, i - 1)] && keys[i] !in keys[..i]) || RunsOf(runs, keys, keys[i], i)
    ensures RunsOf(runs', keys, keys[i], i + 1)
  {
    var latest := runs[|runs| - 1];
    if latest.end + 1 == i {
      runs' := runs[..|runs| - 1] + [Run(latest.start, latest.end + 1)];
    } else {
      runs' := runs + [Run(i, i)];
    }
    if runs == [Run(i, i - 1)] && keys[i] !in keys[..i] {
      assert runs' == [Run(i, i)];
      RunsOfFirst(keys, i);
    } else if latest.end + 1 == i {
      RunsOfExtend(runs, keys, i);
    } else {
      RunsOfAppend(runs, keys, i);
    }
  }

  /** `frameset` holds, for every key among the first `i` entries and no
      other, the maximal runs of that key. */
  ghost predicate FramesetOf(frameset: map<Resolve.CellKey, seq<Run>>, keys: seq<Resolve.CellKey>, i: nat)
    requires i <= |keys|
  {
    && (forall k :: k in frameset <==> k in keys[..i])
    && (forall k :: k in frameset ==> RunsOf(frameset[k], keys, k, i))
  }

  /** The key at `i` either has its runs so far in the frameset or has not
      been seen before. */
  lemma FramesetAt(frameset: map<Resolve.CellKey, seq<Run>>, keys: seq<Resolve.CellKey>, i: nat)
    requires i < |keys| && FramesetOf(frameset, keys, i)
    ensures keys[i] in frameset ==> RunsOf(frameset[keys[i]], keys, keys[i], i)
    ensures keys[i] !in frameset ==> keys[i] !in keys[..i]
  {
  }

  /** Storing the updated runs of the key at `i` gives the frameset of the
      first `i + 1` entries. */
  lemma FramesetStep(frameset: map<Resolve.CellKey, seq<Run>>, keys: seq<Resolve.CellKey>, i: nat, runs: seq<Run>)
    requires i < |keys| && FramesetOf(frameset, keys, i)
    requires RunsOf(runs, keys, keys[i], i + 1)
    ensures FramesetOf(frameset[keys[i] := runs], keys, i + 1)
  {
    var next := frameset[keys[i] := runs];
    assert keys[..i + 1] == keys[..i] + [keys[i]];
    forall k | k in next && k != keys[i]
      ensures RunsOf(next[k], keys, k, i + 1)
    {
      RunsOfOther(frameset[k], keys, k, i);
    }
  }

  /** One turn of the `_d2v_vobid_frameset` loop: a key seen for the first
      time gets the placeholder run list, then its runs take index `i`. */
  method StoreIndex(frameset: map<Resolve.CellKey, seq<Run>>, keys: seq<Resolve.CellKey>, i: nat)
    returns (frameset': map<Resolve.CellKey, seq<Run>>)
    requires i < |keys| && FramesetOf(frameset, keys, i)
    ensures FramesetOf(frameset', keys, i + 1)
  {
    var a := keys[i];
    FramesetAt(frameset, keys, i);
    frameset' := frameset;
    if a !in frameset' {
      frameset' := frameset'[a := [Run(i, i - 1)]];
    }
    var runs := RecordIndex(frameset'[a], keys, i);
    FramesetStep(frameset, keys, i, runs);
    assert frameset'[a := runs] == frameset[a := runs];
    frameset' := frameset'[a := runs];
  }

  /** `_d2v_vobid_frameset`: groups the per-frame keys into their maximal
      inclusive runs, one list per key seen. */
  method VobidFrameset(keys: seq<Resolve.CellKey>) returns (frameset: map<Resolve.CellKey, seq<Run>>)
    ensures forall k :: k in frameset <==> k in keys
    ensures forall k :: k in frameset ==> RunsOf(frameset[k], keys, k, |keys|)
  {
    frameset := map[];
    var i := 0;
    while i < |keys|
      invariant 0 <= i <= |keys|
      invariant FramesetOf(frameset, keys, i)
    {
      frameset := StoreIndex(frameset, keys, i);
      i := i + 1;
    }
    assert keys[..i] == keys;
  }

  // ================= frame ranges of a title =================

  datatype FrameRangeError =
    | OnlyZeroCellIds  // the index carries no cell ids: every frame is (0, 0)
    | MissingCell      // a taken cell has no frames: `KeyError`

  /** The runs of the first taken cells, in the order of the cells. */
  function TakenRuns(frameset: map<Resolve.CellKey, seq<Run>>, take: seq<Resolve.CellKey>): Result<seq<Run>, FrameRangeError>
  {
    if |take| == 0 then Success([])
    else
      var init :- TakenRuns(frameset, take[..|take| - 1]);
      var last := take[|take| - 1];
      if last !in frameset then Failure(MissingCell) else Success(init + frameset[last])
  }

  /** The frame ranges `get_title` cuts from the indexed video: the index
      must carry cell ids, and every taken cell must have frames. */
  function FrameRangesSpec(frameset: map<Resolve.CellKey, seq<Run>>, take: seq<Resolve.CellKey>): Result<seq<Run>, FrameRangeError>
  {
    if |frameset.Keys| == 1 && (0, 0) in frameset then Failure(OnlyZeroCellIds)
    else TakenRuns(frameset, take)
  }

  /** The frame-range loop of `get_title` (d2v branch). */
  method TitleFrameRanges(frameset: map<Resolve.CellKey, seq<Run>>, take: seq<Resolve.CellKey>) returns (r: Result<seq<Run>, FrameRangeError>)
    ensures r == FrameRangesSpec(frameset, take)
  {
    if |frameset.Keys| == 1 && (0, 0) in frameset {
      return Failure(OnlyZeroCellIds);
    }
    var frameranges: seq<Run> := [];
    var i := 0;
    while i < |take|
      invariant 0 <= i <= |take|
      invariant TakenRuns(frameset, take[..i]) == Success(frameranges)
    {
      assert take[..i + 1][..i] == take[..i];
      if take[i] !in frameset {
        assert TakenRuns(frameset, take[..i + 1]).Failure?;
        TakenRunsPrefixFails(frameset, take, i + 1);
        return Failure(MissingCell);
      }
      frameranges := frameranges + frameset[take[i]];
      i := i + 1;
    }
    assert take[..i] == take;
    r := Success(frameranges);
  }

  lemma {:induction false} TakenRunsPrefixFails(frameset: map<Resolve.CellKey, seq<Run>>, take: seq<Resolve.CellKey>, i: nat)
    requires i <= |take| && TakenRuns(frameset, take[..i]).Failure?
    ensures TakenRuns(frameset, take) == Failure(MissingCell)
    decreases |take| - i
  {
    if i < |take| {
      assert take[..i + 1][..i] == take[..i];
      TakenRunsPrefixFails(frameset, take, i + 1);
    } else {
      assert take[..i] == take;
      TakenRunsMissing(frameset, take);
    }
  }

  lemma {:induction false} TakenRunsMissing(frameset: map<Resolve.CellKey, seq<Run>>, take: seq<Resolve.CellKey>)
    requires TakenRuns(frameset, take).Failure?
    ensures TakenRuns(frameset, take) == Failure(MissingCell)
  {
    if |take| > 0 {
      if TakenRuns(frameset, take[..|take| - 1]).Failure? {
        TakenRunsMissing(frameset, take[..|take| - 1]);
      }
    }
  }

  /** Over a frameset built by `VobidFrameset`, the taken runs succeed
      exactly when every taken cell occurs among the frames, and they cover
      exactly the frames whose cell is taken. */
  lemma {:induction false} TakenRunsCover(frameset: map<Resolve.CellKey, seq<Run>>, keys: seq<Resolve.CellKey>, take: seq<Resolve.CellKey>)
    requires forall k :: k in frameset <==> k in keys
    requires forall k :: k in frameset ==> RunsOf(frameset[k], keys, k, |keys|)
    ensures TakenRuns(frameset, take).Success? <==> forall c :: c in take ==> c in keys
    ensures TakenRuns(frameset, take).Success? ==>
      forall x :: 0 <= x < |keys| ==> (keys[x] in take <==> Covered(TakenRuns(frameset, take).value, x))
  {
    if |take| > 0 {
      var init := take[..|take| - 1];
      var last := take[|take| - 1];
      TakenRunsCover(frameset, keys, init);
      assert forall c :: c in take <==> c in init || c == last by {
        assert take == init + [last];
      }
      if TakenRuns(frameset, take).Success? {
        var before := TakenRuns(frameset, init).value;
        var runs := before + frameset[last];
        forall x | 0 <= x < |keys|
          ensures keys[x] in take <==> Covered(runs, x)
        {
          CoveredConcat(before, frameset[last], x);
        }
      }
    }
  }

  lemma CoveredConcat(a: seq<Run>, b: seq<Run>, x: int)
    ensures Covered(a + b, x) <==> Covered(a, x) || Covered(b, x)
  {
    if Covered(a + b, x) {
      var j :| 0 <= j < |a + b| && InRun((a + b)[j], x);
      if j >= |a| {
        assert InRun(b[j - |a|], x);
      }
    }
    if Covered(a, x) {
      var j :| 0 <= j < |a| && InRun(a[j], x);
      assert InRun((a + b)[j], x);
    }
    if Covered(b, x) {
      var j :| 0 <= j < |b| && InRun(b[j], x);
      assert InRun((a + b)[|a| + j], x);
    }
  }
}
