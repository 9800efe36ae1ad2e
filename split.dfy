/** The split engine: `SplitHelper` and `Title.split` / `Title.split_range`.
    A title is cut at chapter boundaries into pieces; each piece gets the
    frames between two chapter marks and its own chapter list, rebased to
    start at 0. Chapter numbers are 1-based, `split` point `s` starts a new
    piece at chapter `s` (the mark `chapters[s - 1]`). */
module Split {
  import opened Wrappers
  import opened PyOps
  import opened Resolve

  datatype SplitError = SplitAssertion | SplitIndexError

  /** One piece of a split title; the audio of the piece is not modelled. */
  datatype SplitTitle<F> = SplitTitle(video: seq<F>, chapters: seq<int>, index: nat)

  predicate StrictlyIncreasing(s: seq<int>)
  {
    forall a, b :: 0 <= a < b < |s| ==> s[a] < s[b]
  }

  /** What the split check accepts: strictly increasing points, the first
      above `floor`, none past the last chapter mark `count`. */
  predicate Accepts(splits: seq<int>, floor: int, count: nat)
  {
    && StrictlyIncreasing(splits)
    && (|splits| > 0 ==> splits[0] > floor)
    && forall a :: 0 <= a < |splits| ==> splits[a] <= count
  }

  // ================= _sanitize_splits =================

  /** The check loop of `_sanitize_splits`, with `lasta` starting at
      `floor`. */
  method CheckSplits(chapterCount: nat, splits: seq<int>, floor: int) returns (r: Result<nat, SplitError>)
    ensures r.Success? <==> Accepts(splits, floor, chapterCount)
    ensures r.Success? ==> r.value == |splits| + 1
    ensures r.Failure? ==> r.error == SplitAssertion
  {
    var lasta := floor;
    var i := 0;
    while i < |splits|
      invariant 0 <= i <= |splits|
      invariant Accepts(splits[..i], floor, chapterCount)
      invariant lasta == if i == 0 then floor else splits[i - 1]
    {
      var a := splits[i];
      if !(a > lasta) || !(a <= chapterCount) {
        return Failure(SplitAssertion);
      }
      lasta := a;
      i := i + 1;
    }
    assert splits[..i] == splits;
    r := Success(|splits| + 1);
  }

  /** `_sanitize_splits` as written: `lasta = -1`, so a split at 0 passes. */
  method SanitizeSplitsAsWritten(chapterCount: nat, splits: seq<int>) returns (r: Result<nat, SplitError>)
    ensures r.Success? <==> Accepts(splits, -1, chapterCount)
    ensures r.Success? ==> r.value == |splits| + 1
    ensures r.Failure? ==> r.error == SplitAssertion
  {
    r := CheckSplits(chapterCount, splits, -1);
  }

  /** `_sanitize_splits` as intended: every split lies in `[1, len(chapters)]`,
      which is what `split_chapters` needs to produce `len(splits) + 1`
      pieces (see `CountInAll`). */
  method SanitizeSplits(chapterCount: nat, splits: seq<int>) returns (r: Result<nat, SplitError>)
    ensures r.Success? <==> Accepts(splits, 0, chapterCount)
    ensures r.Success? ==> r.value == |splits| + 1
    ensures r.Failure? ==> r.error == SplitAssertion
  {
    r := CheckSplits(chapterCount, splits, 0);
  }

  // ================= split_chapters =================

  /** How many of the chapter positions `1..i` are split points: the number
      of pieces `split_chapters` has closed after `i` marks. */
  function CountIn(splits: seq<int>, i: nat): nat
  {
    if i == 0 then 0 else CountIn(splits, i - 1) + (if i in splits then 1 else 0)
  }

  /** The chapter index where piece `k` starts (and piece `k - 1` ends):
      0, then `s - 1` for each split `s`, then the last chapter index. */
  function Bound(splits: seq<int>, n: nat, k: nat): int
  {
    if k == 0 then 0 else if k <= |splits| then splits[k - 1] - 1 else n - 1
  }

  function Rebase(xs: seq<int>, base: int): (r: seq<int>)
    ensures |r| == |xs|
    ensures forall j :: 0 <= j < |xs| ==> r[j] == xs[j] - base
  {
    seq(|xs|, j requires 0 <= j < |xs| => xs[j] - base)
  }

  lemma BoundsOrdered(splits: seq<int>, n: nat)
    requires n > 0 && Accepts(splits, 0, n)
    ensures forall k :: 0 <= k <= |splits| + 1 ==> 0 <= Bound(splits, n, k) <= n - 1
    ensures forall k :: 0 <= k <= |splits| ==> Bound(splits, n, k) <= Bound(splits, n, k + 1)
  {
  }

  /** The chapter lists of the pieces for accepted splits: piece `k` holds
      the marks from its start bound to its end bound, both included, less
      the mark it starts at. */
  function ChapterPieces(chapters: seq<int>, splits: seq<int>): (r: seq<seq<int>>)
    requires |chapters| > 0 && Accepts(splits, 0, |chapters|)
    ensures |r| == |splits| + 1
  {
    seq(|splits| + 1, k requires 0 <= k < |splits| + 1 => ChapterPiece(chapters, splits, k))
  }

  function ChapterPiece(chapters: seq<int>, splits: seq<int>, k: nat): seq<int>
    requires |chapters| > 0 && Accepts(splits, 0, |chapters|) && k <= |splits|
  {
    var n := |chapters|;
    BoundsOrdered(splits, n);
    Rebase(chapters[Bound(splits, n, k)..Bound(splits, n, k + 1) + 1], chapters[Bound(splits, n, k)])
  }

  lemma RebaseSnoc(chapters: seq<int>, lo: nat, i: nat, base: int)
    requires lo <= i < |chapters|
    ensures Rebase(chapters[lo..i], base) + [chapters[i] - base] == Rebase(chapters[lo..i + 1], base)
  {
    var a := Rebase(chapters[lo..i], base) + [chapters[i] - base];
    var b := Rebase(chapters[lo..i + 1], base);
    assert |a| == |b|;
    forall j | 0 <= j < |a|
      ensures a[j] == b[j]
    {
      if j < i - lo {
        assert a[j] == chapters[lo + j] - base;
      }
    }
  }

  lemma PieceAt(chapters: seq<int>, splits: seq<int>, k: nat)
    requires |chapters| > 0 && Accepts(splits, 0, |chapters|) && k <= |splits|
    ensures 0 <= Bound(splits, |chapters|, k) <= Bound(splits, |chapters|, k + 1) < |chapters|
    ensures ChapterPieces(chapters, splits)[k] == ChapterPiece(chapters, splits, k) ==
      Rebase(chapters[Bound(splits, |chapters|, k)..Bound(splits, |chapters|, k + 1) + 1], chapters[Bound(splits, |chapters|, k)])
  {
    BoundsOrdered(splits, |chapters|);
  }

  /** For accepted splits, the splits counted after `i` marks are exactly
      the first `CountIn(splits, i)` ones. */
  lemma {:induction false} CountInSorted(splits: seq<int>, n: nat, i: nat)
    requires Accepts(splits, 0, n)
    ensures CountIn(splits, i) <= |splits|
    ensures forall j :: 0 <= j < CountIn(splits, i) ==> splits[j] <= i
    ensures forall j :: CountIn(splits, i) <= j < |splits| ==> splits[j] > i
  {
    if i > 0 {
      CountInSorted(splits, n, i - 1);
      var k := CountIn(splits, i - 1);
      if i in splits {
        var w :| 0 <= w < |splits| && splits[w] == i;
        assert k <= w;
        assert splits[k] <= splits[w];
        assert forall j :: k < j < |splits| ==> splits[k] < splits[j];
      }
    }
  }

  /** For accepted splits every split point is met among marks `1..n`. */
  lemma CountInAll(splits: seq<int>, n: nat)
    requires Accepts(splits, 0, n)
    ensures CountIn(splits, n) == |splits|
  {
    CountInSorted(splits, n, n);
    if |splits| > 0 {
      assert splits[|splits| - 1] <= n;
    }
  }

  /** The state of the `split_chapters` loop after `i` marks, for accepted
      splits: the pieces closed so far, the open piece and its base. */
  ghost predicate SplitState(chapters: seq<int>, splits: seq<int>, i: nat, out: seq<seq<int>>, chaps: seq<int>, rebase: int)
    requires |chapters| > 0 && Accepts(splits, 0, |chapters|) && i <= |chapters|
  {
    var n := |chapters|;
    && |out| == CountIn(splits, i) <= |splits|
    && 0 <= Bound(splits, n, |out|) <= i
    && rebase == chapters[Bound(splits, n, |out|)]
    && chaps == Rebase(chapters[Bound(splits, n, |out|)..i], rebase)
    && out == ChapterPieces(chapters, splits)[..|out|]
  }

  /** One turn of the `split_chapters` loop keeps `SplitState`: mark `i`
      joins the open piece, and when `i + 1` is a split point the piece is
      closed and a new one opens at 0. */
  lemma SplitStep(chapters: seq<int>, splits: seq<int>, i: nat, out: seq<seq<int>>, chaps: seq<int>, rebase: int)
    requires |chapters| > 0 && Accepts(splits, 0, |chapters|) && i < |chapters|
    requires SplitState(chapters, splits, i, out, chaps, rebase)
    ensures var chaps' := chaps + [chapters[i] - rebase];
      if i + 1 in splits then SplitState(chapters, splits, i + 1, out + [chaps'], [0], chapters[i])
      else SplitState(chapters, splits, i + 1, out, chaps', rebase)
  {
    var n := |chapters|;
    var lo := Bound(splits, n, |out|);
    RebaseSnoc(chapters, lo, i, rebase);
    CountInSorted(splits, n, i);
    CountInSorted(splits, n, i + 1);
    var chaps' := chaps + [chapters[i] - rebase];
    if i + 1 in splits {
      var k := |out|;
      assert splits[k] == i + 1;
      PieceAt(chapters, splits, k);
      assert Bound(splits, n, k + 1) == i;
      assert chaps' == ChapterPieces(chapters, splits)[k];
      assert out + [chaps'] == ChapterPieces(chapters, splits)[..k + 1];
      assert [0] == Rebase(chapters[i..i + 1], chapters[i]);
    }
  }

  /** The loop of `split_chapters`: every mark joins the open piece,
      rebased, and a split point after it closes the piece. */
  method SplitMarks(chapters: seq<int>, splits: seq<int>) returns (out: seq<seq<int>>, chaps: seq<int>, rebase: int)
    requires |chapters| > 0
    ensures |out| == CountIn(splits, |chapters|) && |chaps| >= 1
    ensures Accepts(splits, 0, |chapters|) ==> SplitState(chapters, splits, |chapters|, out, chaps, rebase)
  {
    var n := |chapters|;
    ghost var valid := Accepts(splits, 0, n);
    out := [];
    rebase := chapters[0];
    chaps := [];
    var i := 0;
    while i < n
      invariant 0 <= i <= n
      invariant |out| == CountIn(splits, i)
      invariant valid ==> SplitState(chapters, splits, i, out, chaps, rebase)
      invariant i > 0 ==> |chaps| >= 1
    {
      var a := chapters[i];
      if valid {
        SplitStep(chapters, splits, i, out, chaps, rebase);
      }
      chaps := chaps + [a - rebase];
      if i + 1 in splits {
        rebase := a;
        out := out + [chaps];
        chaps := [0];
      }
      i := i + 1;
    }
  }

  /** `split_chapters`. */
  method SplitChapters(chapters: seq<int>, splits: seq<int>) returns (r: Result<seq<seq<int>>, SplitError>)
    ensures |chapters| == 0 ==> r == Failure(SplitIndexError)
    ensures |chapters| > 0 ==> (r.Success? <==> CountIn(splits, |chapters|) == |splits|)
    ensures r.Failure? && |chapters| > 0 ==> r.error == SplitAssertion
    ensures |chapters| > 0 && Accepts(splits, 0, |chapters|) ==> r == Success(ChapterPieces(chapters, splits))
  {
    if |chapters| == 0 {
      return Failure(SplitIndexError);
    }
    var n := |chapters|;
    ghost var valid := Accepts(splits, 0, n);
    var out, chaps, rebase := SplitMarks(chapters, splits);
    if valid {
      CountInAll(splits, n);
    }
    if |chaps| >= 1 {
      out := out + [chaps];
    }
    if |out| != |splits| + 1 {
      return Failure(SplitAssertion);
    }
    if valid {
      var k := |splits|;
      PieceAt(chapters, splits, k);
      assert chaps == ChapterPieces(chapters, splits)[k];
      assert out == ChapterPieces(chapters, splits);
    }
    r := Success(out);
  }

  // ================= _cut_split / _cut_fz_v =================

  /** `_cut_fz_v(f, t)`: the frames from mark `chapters[f]` up to, not
      including, mark `chapters[t]` (Python indexing and slicing). */
  function CutFz<F>(node: seq<F>, chapters: seq<int>, f: int, t: int): Result<seq<F>, SplitError>
  {
    var a :- PyAt(chapters, f).ToResult(SplitIndexError);
    var b :- PyAt(chapters, t).ToResult(SplitIndexError);
    Success(PySlice(node, a, b))
  }

  /** The cut for piece `k`: from bound `k` to bound `k + 1`. */
  function CutAt<F>(node: seq<F>, chapters: seq<int>, splits: seq<int>, k: nat): Result<seq<F>, SplitError>
  {
    CutFz(node, chapters, Bound(splits, |chapters|, k), Bound(splits, |chapters|, k + 1))
  }

  /** `_cut_split` with `_cut_fz_v`: piece `k` runs from bound `k` to bound
      `k + 1`. */
  method CutSplit<F>(node: seq<F>, chapters: seq<int>, splits: seq<int>) returns (r: Result<seq<seq<F>>, SplitError>)
    ensures r.Success? <==> forall k :: 0 <= k <= |splits| ==> CutAt(node, chapters, splits, k).Success?
    ensures r.Failure? ==> r.error == SplitIndexError
    ensures r.Success? ==> |r.value| == |splits| + 1 && forall k :: 0 <= k <= |splits| ==>
      r.value[k] == CutAt(node, chapters, splits, k).value
  {
    var n := |chapters|;
    var out: seq<seq<F>> := [];
    var last := 0;
    var i := 0;
    while i < |splits|
      invariant 0 <= i <= |splits|
      invariant last == Bound(splits, n, i)
      invariant |out| == i
      invariant forall k :: 0 <= k < i ==> CutAt(node, chapters, splits, k).Success?
      invariant forall k :: 0 <= k < i ==> out[k] == CutAt(node, chapters, splits, k).value
    {
      var index := splits[i] - 1;
      var piece := CutFz(node, chapters, last, index);
      assert piece == CutAt(node, chapters, splits, i);
      if piece.Failure? {
        return Failure(SplitIndexError);
      }
      out := out + [piece.value];
      last := index;
      i := i + 1;
    }
    var piece := CutFz(node, chapters, last, n - 1);
    assert piece == CutAt(node, chapters, splits, i);
    if piece.Failure? {
      return Failure(SplitIndexError);
    }
    out := out + [piece.value];
    r := Success(out);
  }

  // ================= Title.split =================

  /** Piece `k` of `Title.split` for accepted splits. */
  function SplitPiece<F>(node: seq<F>, chapters: seq<int>, splits: seq<int>, k: nat): SplitTitle<F>
    requires |chapters| > 0 && Accepts(splits, 0, |chapters|) && k <= |splits|
  {
    var n := |chapters|;
    BoundsOrdered(splits, n);
    SplitTitle(PySlice(node, chapters[Bound(splits, n, k)], chapters[Bound(splits, n, k + 1)]),
               ChapterPiece(chapters, splits, k), k)
  }

  /** `Title.split(splits)`: the pieces in order, each with its frames and
      its rebased chapter list. The check as written turns away what falls
      outside `-1 < s <= len(chapters)`; a title without chapters then fails
      on its first cut; a split at 0 gets past the check and the cuts, and
      fails the assertion of `split_chapters`. */
  function SplitSpec<F>(node: seq<F>, chapters: seq<int>, splits: seq<int>): (r: Result<seq<SplitTitle<F>>, SplitError>)
    ensures r.Success? ==> |r.value| == |splits| + 1
    ensures r.Success? <==> |chapters| > 0 && Accepts(splits, 0, |chapters|)
    ensures r.Failure? && |chapters| == 0 && Accepts(splits, -1, 0) ==> r.error == SplitIndexError
    ensures r.Failure? && (|chapters| > 0 || !Accepts(splits, -1, 0)) ==> r.error == SplitAssertion
  {
    var n := |chapters|;
    if !Accepts(splits, -1, n) then Failure(SplitAssertion)
    else if n == 0 then Failure(SplitIndexError)
    else if !Accepts(splits, 0, n) then Failure(SplitAssertion)
    else Success(seq(|splits| + 1, k requires 0 <= k < |splits| + 1 => SplitPiece(node, chapters, splits, k)))
  }

  /** On a title with chapters, every cut the splits the check as written
      accepts ask for exists: the bounds run from -1 (a split at 0) to the
      last chapter index, and Python reads index -1 as the last mark. */
  lemma CutsAsWritten<F>(node: seq<F>, chapters: seq<int>, splits: seq<int>, k: nat)
    requires |chapters| > 0 && Accepts(splits, -1, |chapters|) && k <= |splits|
    ensures CutAt(node, chapters, splits, k).Success?
  {
    var n := |chapters|;
    assert -1 <= Bound(splits, n, k) < n;
    if k < |splits| {
      assert splits[0] <= splits[k];
    }
    assert -1 <= Bound(splits, n, k + 1) < n;
  }

  /** For accepted splits, cut `k` succeeds and is piece `k`'s video. */
  lemma CutPiece<F>(node: seq<F>, chapters: seq<int>, splits: seq<int>, k: nat)
    requires |chapters| > 0 && Accepts(splits, 0, |chapters|) && k <= |splits|
    ensures CutAt(node, chapters, splits, k).Success?
    ensures SplitPiece(node, chapters, splits, k)
      == SplitTitle(CutAt(node, chapters, splits, k).value, ChapterPieces(chapters, splits)[k], k)
  {
    PieceAt(chapters, splits, k);
  }

  /** `Title.split`: check the splits, cut the video, split the chapters and
      pair them up. A single piece is returned as a one-element sequence. */
  method SplitTitleAt<F>(node: seq<F>, chapters: seq<int>, splits: seq<int>) returns (r: Result<seq<SplitTitle<F>>, SplitError>)
    ensures r == SplitSpec(node, chapters, splits)
  {
    var outputCnt :- SanitizeSplitsAsWritten(|chapters|, splits);
    var n := |chapters|;
    if n == 0 {
      assert CutAt(node, chapters, splits, 0).Failure?;
    } else {
      forall k | 0 <= k <= |splits|
        ensures CutAt(node, chapters, splits, k).Success?
      {
        CutsAsWritten(node, chapters, splits, k);
      }
    }
    var video :- CutSplit(node, chapters, splits);
    if !Accepts(splits, 0, n) {
      ZeroSplitMissed(splits, n);
    }
    var chaps :- SplitChapters(chapters, splits);
    var reta: seq<SplitTitle<F>> := [];
    var i := 0;
    while i < outputCnt
      invariant 0 <= i <= outputCnt
      invariant |reta| == i
      invariant forall k :: 0 <= k < i ==> reta[k] == SplitPiece(node, chapters, splits, k)
    {
      CutPiece(node, chapters, splits, i);
      assert video[i] == CutAt(node, chapters, splits, i).value;
      reta := reta + [SplitTitle(video[i], chaps[i], i)];
      i := i + 1;
    }
    assert reta == SplitSpec(node, chapters, splits).value;
    r := Success(reta);
  }

  /** `Title.split_range(f, t)`: chapters `f` to `t`, both 1-based and
      inclusive, `t = -1` meaning up to the end, as one piece. */
  function SplitRangeSpec<F>(node: seq<F>, chapters: seq<int>, f: int, t: int): Result<SplitTitle<F>, SplitError>
  {
    var n := |chapters|;
    var t' := if t == -1 then n - 1 else t;
    if f == 1 && t' == n - 1 then
      var p :- SplitSpec(node, chapters, []);
      Success(p[0])
    else if f == 1 then
      var p :- SplitSpec(node, chapters, [t' + 1]);
      Success(p[0])
    else if t' == n - 1 then
      var p :- SplitSpec(node, chapters, [f]);
      Success(p[1])
    else
      var p :- SplitSpec(node, chapters, [f, t' + 1]);
      Success(p[1])
  }

  // ================= properties of the pieces =================

  function Concat<T>(xs: seq<seq<T>>): seq<T>
  {
    if |xs| == 0 then [] else Concat(xs[..|xs| - 1]) + xs[|xs| - 1]
  }

  /** With chapter marks ordered inside the node, piece `k` holds exactly
      the frames between its two bounds' marks; its chapter list starts at 0
      and ends at the length of its video, and that last entry, added to the
      piece's base mark, is the mark the next piece starts at. */
  lemma SplitPieceAt<F>(node: seq<F>, chapters: seq<int>, splits: seq<int>, k: nat)
    requires |chapters| > 0 && Accepts(splits, 0, |chapters|) && k <= |splits|
    requires Nondecreasing(chapters) && Within(chapters, 0, |node|)
    ensures var n := |chapters|;
      var p := SplitPiece(node, chapters, splits, k);
      && 0 <= Bound(splits, n, k) <= Bound(splits, n, k + 1) < n
      && p.video == node[chapters[Bound(splits, n, k)]..chapters[Bound(splits, n, k + 1)]]
      && |p.chapters| >= 1
      && p.chapters[0] == 0
      && p.chapters[|p.chapters| - 1] == |p.video|
      && chapters[Bound(splits, n, k)] + p.chapters[|p.chapters| - 1] == chapters[Bound(splits, n, k + 1)]
  {
    var n := |chapters|;
    BoundsOrdered(splits, n);
    var lo := Bound(splits, n, k);
    var hi := Bound(splits, n, k + 1);
    assert chapters[lo] <= chapters[hi];
  }

  /** Consecutive slices between ordered bounds put back together give the
      slice from the first bound to the last. */
  lemma {:induction false} ConcatSlices<F>(node: seq<F>, b: seq<int>, k: nat)
    requires 0 < k < |b|
    requires forall x, y :: 0 <= x < y < |b| ==> b[x] <= b[y]
    requires forall x :: 0 <= x < |b| ==> 0 <= b[x] <= |node|
    ensures Concat(seq(k, j requires 0 <= j < k => node[b[j]..b[j + 1]])) == node[b[0]..b[k]]
  {
    var xs := seq(k, j requires 0 <= j < k => node[b[j]..b[j + 1]]);
    if k > 1 {
      ConcatSlices(node, b, k - 1);
      assert xs[..k - 1] == seq(k - 1, j requires 0 <= j < k - 1 => node[b[j]..b[j + 1]]);
      assert node[b[0]..b[k - 1]] + node[b[k - 1]..b[k]] == node[b[0]..b[k]];
    } else {
      assert xs[..0] == [];
    }
  }

  /** The marks at the bounds of a split, first mark to last. */
  function BoundMarks(chapters: seq<int>, splits: seq<int>): (b: seq<int>)
    requires |chapters| > 0 && Accepts(splits, 0, |chapters|)
    ensures |b| == |splits| + 2
  {
    BoundsOrdered(splits, |chapters|);
    seq(|splits| + 2, k requires 0 <= k < |splits| + 2 => chapters[Bound(splits, |chapters|, k)])
  }

  lemma BoundMarksOrdered<F>(node: seq<F>, chapters: seq<int>, splits: seq<int>)
    requires |chapters| > 0 && Accepts(splits, 0, |chapters|)
    requires Nondecreasing(chapters) && Within(chapters, 0, |node|)
    ensures var b := BoundMarks(chapters, splits);
      && (forall x, y :: 0 <= x < y < |b| ==> b[x] <= b[y])
      && (forall x :: 0 <= x < |b| ==> 0 <= b[x] <= |node|)
      && b[0] == chapters[0] && b[|b| - 1] == chapters[|chapters| - 1]
  {
    var n := |chapters|;
    var b := BoundMarks(chapters, splits);
    BoundsOrdered(splits, n);
    forall x, y | 0 <= x < y < |b|
      ensures b[x] <= b[y]
    {
      assert Bound(splits, n, x) <= Bound(splits, n, y);
    }
  }

  /** Piece `k` of a split holds the frames between bound marks `k` and `k + 1`. */
  lemma PiecesAreSlices<F>(node: seq<F>, chapters: seq<int>, splits: seq<int>)
    requires SplitSpec(node, chapters, splits).Success?
    requires Nondecreasing(chapters) && Within(chapters, 0, |node|)
    ensures var pieces := SplitSpec(node, chapters, splits).value;
      var b := BoundMarks(chapters, splits);
      seq(|pieces|, k requires 0 <= k < |pieces| => pieces[k].video)
        == seq(|splits| + 1, j requires 0 <= j < |splits| + 1 => node[b[j]..b[j + 1]])
  {
    var pieces := SplitSpec(node, chapters, splits).value;
    var b := BoundMarks(chapters, splits);
    var videos := seq(|pieces|, k requires 0 <= k < |pieces| => pieces[k].video);
    var slices := seq(|splits| + 1, j requires 0 <= j < |splits| + 1 => node[b[j]..b[j + 1]]);
    forall k | 0 <= k < |pieces|
      ensures videos[k] == slices[k]
    {
      assert pieces[k] == SplitPiece(node, chapters, splits, k);
      PieceBetween(node, chapters, splits, k);
    }
  }

  /** With chapter marks ordered inside the node, the pieces of a split
      follow each other without gap or overlap, and together they are the
      frames from the first mark up to, not including, the last mark: the
      frame at the last mark belongs to no piece. */
  lemma SplitPiecesContiguous<F>(node: seq<F>, chapters: seq<int>, splits: seq<int>)
    requires SplitSpec(node, chapters, splits).Success?
    requires Nondecreasing(chapters) && Within(chapters, 0, |node|)
    ensures var pieces := SplitSpec(node, chapters, splits).value;
      Concat(seq(|pieces|, k requires 0 <= k < |pieces| => pieces[k].video)) == node[chapters[0]..chapters[|chapters| - 1]]
  {
    var b := BoundMarks(chapters, splits);
    BoundMarksOrdered(node, chapters, splits);
    ConcatSlices(node, b, |splits| + 1);
    PiecesAreSlices(node, chapters, splits);
  }

  /** Piece `k` in terms of its two bounds. */
  lemma PieceBetween<F>(node: seq<F>, chapters: seq<int>, splits: seq<int>, k: nat)
    requires |chapters| > 0 && Accepts(splits, 0, |chapters|) && k <= |splits|
    requires Nondecreasing(chapters) && Within(chapters, 0, |node|)
    ensures var lo, hi := Bound(splits, |chapters|, k), Bound(splits, |chapters|, k + 1);
      && 0 <= lo <= hi < |chapters|
      && SplitPiece(node, chapters, splits, k).video == node[chapters[lo]..chapters[hi]]
      && SplitPiece(node, chapters, splits, k).chapters == Rebase(chapters[lo..hi + 1], chapters[lo])
  {
    SplitPieceAt(node, chapters, splits, k);
    PieceAt(chapters, splits, k);
  }

  /** The split points `split_range(f, t)` asks for, with `t` already
      resolved, and which piece it keeps. */
  function RangeSplits(n: nat, f: int, t': int): seq<int>
  {
    if f == 1 && t' == n - 1 then [] else if f == 1 then [t' + 1] else if t' == n - 1 then [f] else [f, t' + 1]
  }

  lemma RangeVia<F>(node: seq<F>, chapters: seq<int>, f: int, t: int)
    ensures var t' := if t == -1 then |chapters| - 1 else t;
      var p := SplitSpec(node, chapters, RangeSplits(|chapters|, f, t'));
      && (SplitRangeSpec(node, chapters, f, t).Success? <==> p.Success?)
      && (p.Success? ==> SplitRangeSpec(node, chapters, f, t).value == p.value[if f == 1 then 0 else 1])
  {
  }

  /** `split_range(f, t)` succeeds exactly for `1 <= f <= t + 1 <=
      len(chapters)`, an empty piece (`f == t + 1`) only at either end. */
  lemma SplitRangeSucceeds<F>(node: seq<F>, chapters: seq<int>, f: int, t: int)
    requires |chapters| > 0
    ensures var t' := if t == -1 then |chapters| - 1 else t;
      SplitRangeSpec(node, chapters, f, t).Success? <==>
        0 <= t' <= |chapters| - 1 && 1 <= f && (f <= t' || (f == t' + 1 && (f == 1 || t' == |chapters| - 1)))
  {
    RangeVia(node, chapters, f, t);
  }

  /** `split_range(f, t)` yields the frames from mark `f - 1` up to mark `t`
      with the marks from `f - 1` to `t` rebased to start at 0. */
  lemma SplitRangeFrames<F>(node: seq<F>, chapters: seq<int>, f: int, t: int)
    requires |chapters| > 0
    requires Nondecreasing(chapters) && Within(chapters, 0, |node|)
    ensures var t' := if t == -1 then |chapters| - 1 else t;
      SplitRangeSpec(node, chapters, f, t).Success? ==>
        && 1 <= f <= t' + 1 <= |chapters|
        && SplitRangeSpec(node, chapters, f, t).value.video == node[chapters[f - 1]..chapters[t']]
        && SplitRangeSpec(node, chapters, f, t).value.chapters == Rebase(chapters[f - 1..t' + 1], chapters[f - 1])
  {
    var n := |chapters|;
    var t' := if t == -1 then n - 1 else t;
    var r := SplitRangeSpec(node, chapters, f, t);
    if r.Success? {
      var splits := RangeSplits(n, f, t');
      var k := if f == 1 then 0 else 1;
      RangePiece(node, chapters, f, t);
      PieceBetween(node, chapters, splits, k);
    }
  }

  /** A successful `split_range(f, t)` is the piece of its split points
      that runs from mark `f - 1` to mark `t`. */
  lemma RangePiece<F>(node: seq<F>, chapters: seq<int>, f: int, t: int)
    requires |chapters| > 0
    requires SplitRangeSpec(node, chapters, f, t).Success?
    ensures var t' := if t == -1 then |chapters| - 1 else t;
      var splits := RangeSplits(|chapters|, f, t');
      var k := if f == 1 then 0 else 1;
      && 1 <= f <= t' + 1 <= |chapters|
      && Accepts(splits, 0, |chapters|) && k <= |splits|
      && Bound(splits, |chapters|, k) == f - 1 && Bound(splits, |chapters|, k + 1) == t'
      && SplitRangeSpec(node, chapters, f, t).value == SplitPiece(node, chapters, splits, k)
  {
    var n := |chapters|;
    var t' := if t == -1 then n - 1 else t;
    var splits := RangeSplits(n, f, t');
    var k := if f == 1 then 0 else 1;
    var r := SplitRangeSpec(node, chapters, f, t);
    assert 1 <= f <= t' + 1 <= n by {
      SplitRangeSucceeds(node, chapters, f, t);
    }
    var p := SplitSpec(node, chapters, splits);
    assert p.Success? && k <= |splits| && r.value == p.value[k] by {
      RangeVia(node, chapters, f, t);
    }
    assert p.value[k] == SplitPiece(node, chapters, splits, k);
  }


  // ================= the split-at-0 finding =================

  /** The check as written lets the split list `[0]` through, and
      `split_chapters` then closes no piece at 0, so its own assertion
      fails; the corrected check turns `[0]` away. */
  lemma SplitAtZeroSlipsThrough(n: nat)
    ensures Accepts([0], -1, n)
    ensures CountIn([0], n) != |[0]|
    ensures !Accepts([0], 0, n)
  {
    assert CountIn([0], n) == 0 by {
      CountInZero(n);
    }
  }

  /** Any split list the check as written accepts and the corrected one
      turns away starts with 0, and `split_chapters` then closes fewer
      pieces than there are splits: the general form of the finding. */
  lemma ZeroSplitMissed(splits: seq<int>, n: nat)
    requires Accepts(splits, -1, n) && !Accepts(splits, 0, n)
    ensures |splits| > 0 && splits[0] == 0
    ensures CountIn(splits, n) < |splits|
  {
    var rest := splits[1..];
    assert Accepts(rest, 0, n) by {
      if |rest| > 0 {
        assert rest[0] == splits[1] > splits[0];
      }
    }
    CountInDropZero(splits, n);
    CountInSorted(rest, n, n);
  }

  /** Split point 0 is never met: only the points after it are counted. */
  lemma {:induction false} CountInDropZero(splits: seq<int>, i: nat)
    requires |splits| > 0 && splits[0] == 0
    ensures CountIn(splits, i) == CountIn(splits[1..], i)
  {
    if i > 0 {
      CountInDropZero(splits, i - 1);
      assert splits == [splits[0]] + splits[1..];
      assert (i in splits) == (i in splits[1..]);
    }
  }

  lemma {:induction false} CountInZero(n: nat)
    ensures CountIn([0], n) == 0
  {
    if n > 0 {
      CountInZero(n - 1);
    }
  }
}
