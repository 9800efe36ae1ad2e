/** The chapter arithmetic of the legacy `parsedvd` IsoFile: chapter lists
    per program chain from the cells' playback times, per-title clips cut
    from the disc clip, the joined clip and chapter list, and chapter
    selection in `get_title`. A clip is its sequence of frames. */
module Legacy {
  import opened Wrappers
  import opened PyOps
  import Split
  import Resolve

  /** A cell's playback time as the IFO parser hands it over: a frame-rate
      code and the decoded hours, minutes, seconds and frames. */
  datatype PlaybackTime = PlaybackTime(fps: int, hours: nat, minutes: nat, seconds: nat, frames: nat)

  datatype LegacyError =
    | NoVfrAllowed      // `ValueError('IsoFile: No VFR allowed!')`
    | LegacyIndexError  // a Python `IndexError`
    | LegacyKeyError    // a frame-rate code missing from the table

  function Last(s: seq<int>): int
    requires |s| > 0
  {
    s[|s| - 1]
  }

  // ================= cells to chapter lists =================

  /** 30 for the NTSC rate (numerator 30000), 25 otherwise. */
  function RawFps(numerator: int): nat
  {
    if numerator == 30000 then 30 else 25
  }

  /** The frames a cell lasts at `rawFps` whole frames per second. */
  function CellFrames(t: PlaybackTime, rawFps: nat): nat
  {
    t.frames + (t.hours * 3600 + t.minutes * 60 + t.seconds) * rawFps
  }

  /** `[0]` followed by the cells' frame counts, all at the frame rate of
      the first cell; `framerate` maps a code to its rate's numerator. */
  function CellCounts(times: seq<PlaybackTime>, framerate: map<int, int>): (r: Result<seq<int>, LegacyError>)
    ensures r.Success? <==> |times| > 0 && (forall k :: 0 <= k < |times| ==> times[k].fps == times[0].fps) && times[0].fps in framerate
    ensures r.Failure? && |times| > 0 && (exists k :: 0 <= k < |times| && times[k].fps != times[0].fps) ==> r.error == NoVfrAllowed
    ensures r.Success? ==> |r.value| == |times| + 1 && r.value[0] == 0
    ensures r.Success? ==>
      forall k :: 0 <= k < |times| ==> r.value[k + 1] == CellFrames(times[k], RawFps(framerate[times[0].fps]))
  {
    if |times| == 0 then Failure(LegacyIndexError)
    else if !(forall k :: 0 <= k < |times| ==> times[k].fps == times[0].fps) then Failure(NoVfrAllowed)
    else if times[0].fps !in framerate then Failure(LegacyKeyError)
    else
      var rawFps := RawFps(framerate[times[0].fps]);
      Success([0] + seq(|times|, k requires 0 <= k < |times| => CellFrames(times[k], rawFps)))
  }

  /** `itertools.accumulate`: running sums. */
  function Accumulate(xs: seq<int>): (r: seq<int>)
    ensures |r| == |xs|
  {
    if |xs| == 0 then []
    else
      var p := Accumulate(xs[..|xs| - 1]);
      p + [(if |p| == 0 then 0 else p[|p| - 1]) + xs[|xs| - 1]]
  }

  /** The running sums start with the first value and add one value per
      step. */
  lemma {:induction false} AccumulateSteps(xs: seq<int>)
    ensures |xs| > 0 ==> Accumulate(xs)[0] == xs[0]
    ensures forall k :: 0 < k < |xs| ==> Accumulate(xs)[k] == Accumulate(xs)[k - 1] + xs[k]
  {
    if |xs| > 0 {
      var init := xs[..|xs| - 1];
      AccumulateSteps(init);
      assert forall k :: 0 <= k < |init| ==> Accumulate(xs)[k] == Accumulate(init)[k];
    }
  }

  /** Running sums of values that are non-negative after the first never
      go down. */
  lemma {:induction false} AccumulateNondecreasing(xs: seq<int>)
    requires forall k :: 0 < k < |xs| ==> xs[k] >= 0
    ensures Resolve.Nondecreasing(Accumulate(xs))
  {
    if |xs| > 1 {
      var init := xs[..|xs| - 1];
      AccumulateNondecreasing(init);
      var p := Accumulate(init);
      AppendAbove(p, [Last(p) + xs[|xs| - 1]]);
    }
  }

  /** A non-decreasing list followed by a non-decreasing list whose marks
      are all at least its last mark never goes down. */
  lemma AppendAbove(j: seq<int>, s: seq<int>)
    requires |j| > 0 && Resolve.Nondecreasing(j) && Resolve.Nondecreasing(s)
    requires forall k :: 0 <= k < |s| ==> s[k] >= Last(j)
    ensures Resolve.Nondecreasing(j + s)
  {
    var r := j + s;
    forall a, b | 0 <= a < b < |r|
      ensures r[a] <= r[b]
    {
      if a < |j| <= b {
        assert r[a] == j[a] <= Last(j);
      }
    }
  }

  /** A program chain's chapter list: the running sums of `[0]` and its
      cells' frame counts. */
  function PgcChapters(times: seq<PlaybackTime>, framerate: map<int, int>): Result<seq<int>, LegacyError>
  {
    var counts :- CellCounts(times, framerate);
    Success(Accumulate(counts))
  }

  /** A chapter list has one entry more than the chain has cells, starts at
      0, never goes down, and each step is one cell's frame count. */
  lemma PgcChaptersShape(times: seq<PlaybackTime>, framerate: map<int, int>)
    requires PgcChapters(times, framerate).Success?
    ensures var c := PgcChapters(times, framerate).value;
      var rawFps := RawFps(framerate[times[0].fps]);
      && |c| == |times| + 1
      && c[0] == 0
      && Resolve.Nondecreasing(c)
      && forall k :: 0 <= k < |times| ==> c[k + 1] - c[k] == CellFrames(times[k], rawFps)
  {
    var counts := CellCounts(times, framerate).value;
    AccumulateSteps(counts);
    AccumulateNondecreasing(counts);
  }

  /** The chapter lists of the program chains, chain after chain. */
  function ChapterLists(chains: seq<seq<PlaybackTime>>, framerate: map<int, int>): (r: Result<seq<seq<int>>, LegacyError>)
    ensures r.Success? ==> |r.value| == |chains|
    ensures r.Success? ==> forall k :: 0 <= k < |r.value| ==> |r.value[k]| == |chains[k]| + 1
  {
    if |chains| == 0 then Success([])
    else
      var init :- ChapterLists(chains[..|chains| - 1], framerate);
      var last :- PgcChapters(chains[|chains| - 1], framerate);
      Success(init + [last])
  }

  /** The program chains of the title sets: with more than one IFO file,
      the first chain of each is left out. */
  function ProgramChains(ifoChains: seq<seq<seq<PlaybackTime>>>): seq<seq<PlaybackTime>>
  {
    ProgramChainsFrom(ifoChains, if |ifoChains| > 1 then 1 else 0)
  }

  /** Each file's chains from index `skip` on, file after file. */
  function ProgramChainsFrom(ifoChains: seq<seq<seq<PlaybackTime>>>, skip: int): seq<seq<PlaybackTime>>
  {
    if |ifoChains| == 0 then []
    else
      var last := ifoChains[|ifoChains| - 1];
      ProgramChainsFrom(ifoChains[..|ifoChains| - 1], skip) + PySlice(last, skip, |last|)
  }

  // ================= per-title clips =================

  /** The frame where each title starts in the disc clip after the menu:
      running sums of `[0]` and the titles' last chapter marks. */
  function Durations(chapters: seq<seq<int>>): (d: seq<int>)
    requires forall k :: 0 <= k < |chapters| ==> |chapters[k]| > 0
    ensures |d| == |chapters| + 1
  {
    Accumulate([0] + seq(|chapters|, k requires 0 <= k < |chapters| => Last(chapters[k])))
  }

  /** The frames of `body` from mark `i` to mark `i + 1`. */
  function Between<F>(body: seq<F>, d: seq<int>, i: nat): seq<F>
    requires i + 1 < |d|
  {
    PySlice(body, d[i], d[i + 1])
  }

  /** `__split_chapters_clips`: the titles' clips cut one after the other
      from the disc clip less its first `menuLen` frames, then, when there
      is a menu, the menu clip with chapters `[0, menuLen]`. */
  function SplitChaptersClips<F>(chapters: seq<seq<int>>, clip: seq<F>, menuLen: nat): (seq<seq<int>>, seq<seq<F>>)
    requires forall k :: 0 <= k < |chapters| ==> |chapters[k]| > 0
  {
    var d := Durations(chapters);
    var body := PySlice(clip, menuLen, |clip|);
    var clips := seq(|chapters|, i requires 0 <= i < |chapters| => Between(body, d, i));
    if menuLen != 0 then (chapters + [[0, menuLen]], clips + [PySlice(clip, 0, menuLen)])
    else (chapters, clips)
  }

  /** `dvd_menu_length`: the index's frame count for the first VOB when
      that file is larger than `2 << 12` bytes, else 0. */
  function MenuLength(indexFrames: nat, vts0Size: int): nat
  {
    if vts0Size > 2 * 4096 then indexFrames else 0
  }

  function LastMarks(chapters: seq<seq<int>>): (r: seq<int>)
    requires forall k :: 0 <= k < |chapters| ==> |chapters[k]| > 0
    ensures |r| == |chapters|
  {
    seq(|chapters|, k requires 0 <= k < |chapters| => Last(chapters[k]))
  }

  /** Titles whose last marks are non-negative start at 0, one after the
      other, each where the one before ends. */
  lemma DurationsShape(chapters: seq<seq<int>>)
    requires forall k :: 0 <= k < |chapters| ==> |chapters[k]| > 0 && Last(chapters[k]) >= 0
    ensures var d := Durations(chapters);
      && d[0] == 0
      && Resolve.Nondecreasing(d)
      && forall i :: 0 <= i < |chapters| ==> d[i + 1] == d[i] + Last(chapters[i])
  {
    var xs := [0] + LastMarks(chapters);
    assert Durations(chapters) == Accumulate(xs);
    AccumulateSteps(xs);
    AccumulateNondecreasing(xs);
  }

  /** Title `i`'s clip is its own stretch of the disc clip after the menu,
      from the start of title `i` to the start of title `i + 1`. */
  lemma TitleClipAt<F>(chapters: seq<seq<int>>, clip: seq<F>, menuLen: nat, i: nat)
    requires forall k :: 0 <= k < |chapters| ==> |chapters[k]| > 0 && Last(chapters[k]) >= 0
    requires menuLen + Last(Durations(chapters)) <= |clip|
    requires i < |chapters|
    ensures var d := Durations(chapters);
      && 0 <= d[i] <= d[i + 1] <= Last(d)
      && SplitChaptersClips(chapters, clip, menuLen).1[i] == clip[menuLen + d[i]..menuLen + d[i + 1]]
  {
    var d := Durations(chapters);
    DurationBounds(chapters, i);
    var body := PySlice(clip, menuLen, |clip|);
    assert body == clip[menuLen..];
    SplitClipsBetween(chapters, clip, menuLen, i);
    assert Between(body, d, i) == body[d[i]..d[i + 1]];
    assert body[d[i]..d[i + 1]] == clip[menuLen + d[i]..menuLen + d[i + 1]];
  }

  /** Title `i` starts and ends within the titles' total length. */
  lemma DurationBounds(chapters: seq<seq<int>>, i: nat)
    requires forall k :: 0 <= k < |chapters| ==> |chapters[k]| > 0 && Last(chapters[k]) >= 0
    requires i < |chapters|
    ensures var d := Durations(chapters); 0 <= d[i] <= d[i + 1] <= Last(d)
  {
    var d := Durations(chapters);
    DurationsShape(chapters);
    assert d[0] <= d[i] && d[i] <= d[i + 1] && d[i + 1] <= d[|chapters|];
  }

  /** Title `i`'s clip is the cut of the clip after the menu between the
      start of title `i` and the start of title `i + 1`. */
  lemma SplitClipsBetween<F>(chapters: seq<seq<int>>, clip: seq<F>, menuLen: nat, i: nat)
    requires forall k :: 0 <= k < |chapters| ==> |chapters[k]| > 0
    requires i < |chapters|
    ensures SplitChaptersClips(chapters, clip, menuLen).1[i] == Between(PySlice(clip, menuLen, |clip|), Durations(chapters), i)
  {
  }

  /** The clips and chapter lists stay the same in number; the menu clip
      is the disc clip's first `menuLen` frames, with chapters
      `[0, menuLen]`. */
  lemma SplitClipsCounts<F>(chapters: seq<seq<int>>, clip: seq<F>, menuLen: nat)
    requires forall k :: 0 <= k < |chapters| ==> |chapters[k]| > 0
    ensures var (chs, clips) := SplitChaptersClips(chapters, clip, menuLen);
      var n := |chapters|;
      && |chs| == |clips| == n + (if menuLen != 0 then 1 else 0)
      && chs[..n] == chapters
      && (menuLen != 0 ==> chs[n] == [0, menuLen])
      && (menuLen != 0 && menuLen <= |clip| ==> clips[n] == clip[..menuLen])
  {
  }

  /** Cuts of `body` between consecutive ordered marks, put back together,
      give `body` from the first mark to the last. */
  lemma {:induction false} CutsConcat<F>(body: seq<F>, d: seq<int>)
    requires |d| > 0 && Resolve.Nondecreasing(d) && Resolve.Within(d, 0, |body|)
    ensures Split.Concat(seq(|d| - 1, i requires 0 <= i < |d| - 1 => Between(body, d, i))) == body[d[0]..d[|d| - 1]]
  {
    var xs := seq(|d| - 1, i requires 0 <= i < |d| - 1 => Between(body, d, i));
    if |d| == 1 {
      assert xs == [];
    } else {
      var init := d[..|d| - 1];
      CutsConcat(body, init);
      assert xs[..|d| - 2] == seq(|init| - 1, i requires 0 <= i < |init| - 1 => Between(body, init, i));
      assert d[0] <= d[|d| - 2] <= d[|d| - 1];
      assert body[d[0]..d[|d| - 2]] + body[d[|d| - 2]..d[|d| - 1]] == body[d[0]..d[|d| - 1]];
    }
  }

  /** The titles' clips together are the disc clip from the end of the menu
      to the end of the last title. */
  lemma SplitClipsConcat<F>(chapters: seq<seq<int>>, clip: seq<F>, menuLen: nat)
    requires forall k :: 0 <= k < |chapters| ==> |chapters[k]| > 0 && Last(chapters[k]) >= 0
    requires menuLen + Last(Durations(chapters)) <= |clip|
    ensures menuLen <= menuLen + Last(Durations(chapters))
    ensures Split.Concat(SplitChaptersClips(chapters, clip, menuLen).1[..|chapters|])
      == clip[menuLen..menuLen + Last(Durations(chapters))]
  {
    var d := Durations(chapters);
    var n := |chapters|;
    assert d[0] == 0 && Resolve.Nondecreasing(d) by {
      DurationsShape(chapters);
    }
    assert d[0] <= d[n];
    var body := PySlice(clip, menuLen, |clip|);
    assert body == clip[menuLen..];
    assert Resolve.Within(d, 0, |body|) by {
      forall i | 0 <= i < |d|
        ensures 0 <= d[i] <= |body|
      {
        assert d[0] <= d[i] <= d[n];
      }
    }
    CutsConcat(body, d);
    assert SplitChaptersClips(chapters, clip, menuLen).1[..n] == seq(n, i requires 0 <= i < n => Between(body, d, i));
  }

  // ================= the joined chapter list =================

  /** `[r + base for r in rrange if r != 0]`. */
  function Shifted(rrange: seq<int>, base: int): (r: seq<int>)
    ensures |r| <= |rrange|
  {
    if |rrange| == 0 then []
    else Shifted(rrange[..|rrange| - 1], base) + (if Last(rrange) != 0 then [Last(rrange) + base] else [])
  }

  /** The joined chapter list: the first title's list, then each later
      title's non-zero marks shifted by the joined list's last mark so
      far. */
  function Joined(lists: seq<seq<int>>): (r: seq<int>)
    requires |lists| > 0 && forall k :: 0 <= k < |lists| ==> |lists[k]| > 0
    ensures |r| >= |lists[0]|
  {
    if |lists| == 1 then lists[0]
    else
      var j := Joined(lists[..|lists| - 1]);
      j + Shifted(lists[|lists| - 1], Last(j))
  }

  function SumOfLasts(lists: seq<seq<int>>): int
    requires forall k :: 0 <= k < |lists| ==> |lists[k]| > 0
  {
    if |lists| == 0 then 0 else SumOfLasts(lists[..|lists| - 1]) + Last(lists[|lists| - 1])
  }

  /** The marks of a non-decreasing, non-negative list, shifted: all above
      `base`, non-decreasing, and ending at `base` plus the list's last
      mark, or empty when every mark is 0. */
  lemma {:induction false} ShiftedShape(rrange: seq<int>, base: int)
    requires |rrange| > 0 && rrange[0] >= 0 && Resolve.Nondecreasing(rrange)
    ensures var s := Shifted(rrange, base);
      && Resolve.Nondecreasing(s)
      && (forall k :: 0 <= k < |s| ==> s[k] > base && s[k] <= base + Last(rrange))
      && (|s| == 0 <==> Last(rrange) == 0)
      && (|s| > 0 ==> Last(s) == base + Last(rrange))
  {
    var init := rrange[..|rrange| - 1];
    if |init| > 0 {
      ShiftedShape(init, base);
      assert Last(init) <= Last(rrange);
    }
  }

  predicate Marked(lists: seq<seq<int>>)
  {
    forall k :: 0 <= k < |lists| ==> |lists[k]| > 0 && lists[k][0] >= 0 && Resolve.Nondecreasing(lists[k])
  }

  /** For lists that start non-negative and never go down, the joined list
      never goes down either. */
  lemma {:induction false} JoinedNondecreasing(lists: seq<seq<int>>)
    requires |lists| > 0 && Marked(lists)
    ensures Resolve.Nondecreasing(Joined(lists))
  {
    if |lists| > 1 {
      var init := lists[..|lists| - 1];
      var rrange := lists[|lists| - 1];
      assert Marked(init);
      JoinedNondecreasing(init);
      var j := Joined(init);
      ShiftedShape(rrange, Last(j));
      AppendAbove(j, Shifted(rrange, Last(j)));
    }
  }

  /** ... and it ends at the sum of the lists' last marks: the total length
      of the titles. */
  lemma {:induction false} JoinedEnd(lists: seq<seq<int>>)
    requires |lists| > 0 && Marked(lists)
    ensures Last(Joined(lists)) == SumOfLasts(lists)
  {
    if |lists| == 1 {
      assert lists[..0] == [];
    } else {
      var init := lists[..|lists| - 1];
      var rrange := lists[|lists| - 1];
      assert Marked(init);
      JoinedEnd(init);
      var j := Joined(init);
      ShiftedShape(rrange, Last(j));
    }
  }

  /** The two-title disc of the aliasing finding: two chains of 100 frames
      each give the chapter lists `[0, 100]` twice, whose joined list is
      `[0, 100, 200]`. */
  lemma JoinedTwoTitles()
    ensures Joined([[0, 100], [0, 100]]) == [0, 100, 200]
    ensures Joined([[0, 100], [0, 100]]) != [0, 100]
  {
    var lists := [[0, 100], [0, 100]];
    assert lists[..1] == [[0, 100]];
    assert Shifted([0, 100], 100) == [200] by {
      assert [0, 100][..1] == [0];
      assert [0][..0] == [];
    }
  }

  // ================= get_title chapter selection =================

  /** A chapter range of `get_title`: one chapter, or a span whose ends may
      be left open. */
  datatype ChapterRange = Chapter(c: int) | Span(start: Option<int>, end: Option<int>)

  /** `get_title`'s `chapters` argument when it is not `None`: one range, or
      a list whose every element is again an argument of `get_title`
      (`None` for the whole clip, a range, or a nested list). */
  datatype Selection = One(range: ChapterRange) | Several(items: seq<Option<Selection>>)

  /** One clip, or the (possibly nested) list of clips a list argument gives. */
  datatype TitleClip<F> = Clip(frames: seq<F>) | Clips(parts: seq<TitleClip<F>>)

  function At(ranges: seq<int>, k: int): Result<int, LegacyError>
  {
    PyAt(ranges, k).ToResult(LegacyIndexError)
  }

  /** The frames one chapter range selects from `clip`, whose chapter marks
      are `ranges`. */
  function SelectRange<F>(ranges: seq<int>, clip: seq<F>, r: ChapterRange): Result<seq<F>, LegacyError>
  {
    var rlength := |ranges|;
    match r
    case Chapter(c) =>
      var first :- At(ranges, 0);
      var last :- At(ranges, -1);
      if c == rlength - 1 then
        var start :- At(ranges, -2);
        Success(PySlice(clip, start, last))
      else if c == 0 then
        var end :- At(ranges, 1);
        Success(PySlice(clip, first, end))
      else if c < 0 then
        var start :- At(ranges, rlength - 1 + c);
        var end :- At(ranges, rlength + c);
        Success(PySlice(clip, start, end))
      else
        var start :- At(ranges, c);
        var end :- At(ranges, c + 1);
        Success(PySlice(clip, start, end))
    case Span(s, e) =>
      var start := match s case None => 0 case Some(x) => if x < 0 then rlength - 1 + x else x;
      var end := match e case None => rlength - 1 case Some(x) => if x < 0 then rlength - 1 + x else x + 1;
      var a :- At(ranges, start);
      var b :- At(ranges, end);
      Success(PySlice(clip, a, b))
  }

  predicate Marks(ranges: seq<int>, len: nat)
  {
    Resolve.Nondecreasing(ranges) && Resolve.Within(ranges, 0, len)
  }

  /** Chapter `c` of a list with at least two marks is the frames between
      mark `c` and mark `c + 1`; the index one past the last chapter picks
      the last chapter again; a negative `c` counts from the end, `-1`
      being the last chapter. */
  lemma ChapterSelect<F>(ranges: seq<int>, clip: seq<F>, c: int)
    requires |ranges| >= 2 && Marks(ranges, |clip|)
    ensures 0 <= c <= |ranges| - 2 ==>
      SelectRange(ranges, clip, Chapter(c)) == Success(clip[ranges[c]..ranges[c + 1]])
    ensures c == |ranges| - 1 ==>
      SelectRange(ranges, clip, Chapter(c)) == SelectRange(ranges, clip, Chapter(c - 1))
    ensures -(|ranges| - 1) <= c < 0 ==>
      SelectRange(ranges, clip, Chapter(c)) == SelectRange(ranges, clip, Chapter(|ranges| - 1 + c))
    ensures c >= |ranges| ==> SelectRange(ranges, clip, Chapter(c)).Failure?
  {
    var n := |ranges|;
    if 0 <= c <= n - 2 {
      assert ranges[c] <= ranges[c + 1];
    }
    if c == n - 1 {
      assert ranges[n - 2] <= ranges[n - 1];
    }
    if -(n - 1) <= c < 0 {
      var c' := n - 1 + c;
      assert ranges[c'] <= ranges[c' + 1];
    }
  }

  /** A span of chapters `s` to `e`, both included, is the frames from mark
      `s` to mark `e + 1`; an open start is chapter 0, an open end the last
      chapter. */
  lemma SpanSelect<F>(ranges: seq<int>, clip: seq<F>, s: nat, e: nat)
    requires s <= e + 1 <= |ranges| - 1 && Marks(ranges, |clip|)
    ensures SelectRange(ranges, clip, Span(Some(s), Some(e))) == Success(clip[ranges[s]..ranges[e + 1]])
    ensures SelectRange(ranges, clip, Span(None, None)) == Success(clip[ranges[0]..ranges[|ranges| - 1]])
  {
    assert ranges[s] <= ranges[e + 1];
    assert ranges[0] <= ranges[|ranges| - 1];
  }

  /** A stretch of ordered marks within a length is ordered and within it. */
  lemma MarksSlice(ranges: seq<int>, len: nat, lo: nat, hi: nat)
    requires lo <= hi <= |ranges| && Marks(ranges, len)
    ensures Marks(ranges[lo..hi], len)
  {
    var b := ranges[lo..hi];
    forall x, y | 0 <= x < y < |b|
      ensures b[x] <= b[y]
    {
      assert b[x] == ranges[lo + x] && b[y] == ranges[lo + y];
    }
    forall x | 0 <= x < |b|
      ensures 0 <= b[x] <= len
    {
      assert b[x] == ranges[lo + x];
    }
  }

  /** The clips of chapters `s` to `e` of a clip. */
  function ChapterClips<F>(ranges: seq<int>, clip: seq<F>, s: nat, e: nat): seq<seq<F>>
    requires s <= e + 1 <= |ranges| - 1 && Marks(ranges, |clip|)
  {
    seq(e + 1 - s, j requires 0 <= j < e + 1 - s => clip[ranges[s + j]..ranges[s + j + 1]])
  }

  /** A span of chapters is the chapters' own clips put together. */
  lemma SpanIsChapters<F>(ranges: seq<int>, clip: seq<F>, s: nat, e: nat)
    requires s <= e + 1 <= |ranges| - 1 && Marks(ranges, |clip|)
    ensures SelectRange(ranges, clip, Span(Some(s), Some(e))) == Success(Split.Concat(ChapterClips(ranges, clip, s, e)))
  {
    SpanSelect(ranges, clip, s, e);
    ChapterClipsConcat(ranges, clip, s, e);
  }

  /** The clips of chapters `s` to `e`, put together, run from mark `s` to
      mark `e + 1`. */
  lemma ChapterClipsConcat<F>(ranges: seq<int>, clip: seq<F>, s: nat, e: nat)
    requires s <= e + 1 <= |ranges| - 1 && Marks(ranges, |clip|)
    ensures ranges[s] <= ranges[e + 1]
    ensures Split.Concat(ChapterClips(ranges, clip, s, e)) == clip[ranges[s]..ranges[e + 1]]
  {
    var k := e + 1 - s;
    if k > 0 {
      var b := ranges[s..e + 2];
      assert Marks(b, |clip|) by { MarksSlice(ranges, |clip|, s, e + 2); }
      Split.ConcatSlices(clip, b, k);
      assert b[0] == ranges[s] && b[k] == ranges[e + 1];
      assert ChapterClips(ranges, clip, s, e) == seq(k, j requires 0 <= j < k => clip[b[j]..b[j + 1]]) by {
        forall j | 0 <= j < k
          ensures ChapterClips(ranges, clip, s, e)[j] == clip[b[j]..b[j + 1]]
        {
          assert b[j] == ranges[s + j] && b[j + 1] == ranges[s + j + 1];
        }
      }
    } else {
      assert ChapterClips(ranges, clip, s, e) == [];
    }
  }

  /** The results of a list comprehension evaluated in order: all values
      when every element succeeds, else the error of the first that fails. */
  function AllSucceed<T>(rs: seq<Result<T, LegacyError>>): (r: Result<seq<T>, LegacyError>)
    ensures r.Success? <==> forall k :: 0 <= k < |rs| ==> rs[k].Success?
    ensures r.Success? ==> |r.value| == |rs| && forall k :: 0 <= k < |rs| ==> rs[k] == Success(r.value[k])
    ensures r.Failure? ==> exists k :: 0 <= k < |rs| && rs[k] == Failure(r.error) && forall j :: 0 <= j < k ==> rs[j].Success?
  {
    if |rs| == 0 then Success([])
    else
      var x :- rs[0];
      var rest := AllSucceed(rs[1..]);
      if rest.Failure? then
        var k :| 0 <= k < |rs[1..]| && rs[1..][k] == Failure(rest.error) && forall j :: 0 <= j < k ==> rs[1..][j].Success?;
        assert rs[k + 1] == Failure(rest.error);
        assert forall j :: 0 <= j < k + 1 ==> rs[j].Success? by {
          forall j | 0 < j < k + 1 ensures rs[j].Success? { assert rs[j] == rs[1..][j - 1]; }
        }
        Failure(rest.error)
      else
        assert forall k :: 1 <= k < |rs| ==> rs[k] == rs[1..][k - 1];
        Success([x] + rest.value)
  }

  /** What `get_title` returns for a title's clip and chapter marks: the clip
      itself for `None`, one selection for a range, and for a list the
      selection of each element in turn. */
  function SelectTitle<F>(ranges: seq<int>, clip: seq<F>, chapters: Option<Selection>): Result<TitleClip<F>, LegacyError>
    decreases chapters
  {
    match chapters
    case None => Success(Clip(clip))
    case Some(One(r)) =>
      var frames :- SelectRange(ranges, clip, r);
      Success(Clip(frames))
    case Some(Several(items)) =>
      var parts :- AllSucceed(seq(|items|, k requires 0 <= k < |items| => SelectTitle(ranges, clip, items[k])));
      Success(Clips(parts))
  }

  /** A list argument gives one result per element, each the element's own
      selection (the whole clip for `None`), and fails with the first
      element that fails. */
  lemma SelectAll<F>(ranges: seq<int>, clip: seq<F>, items: seq<Option<Selection>>)
    ensures var r := SelectTitle(ranges, clip, Some(Several(items)));
      && (r.Success? <==> forall k :: 0 <= k < |items| ==> SelectTitle(ranges, clip, items[k]).Success?)
      && (r.Success? ==> r.value.Clips? && |r.value.parts| == |items|)
      && (r.Success? ==> forall k :: 0 <= k < |items| ==>
            SelectTitle(ranges, clip, items[k]) == Success(r.value.parts[k]))
      && (r.Success? ==> forall k :: 0 <= k < |items| && items[k].None? ==> r.value.parts[k] == Clip(clip))
      && (r.Failure? ==>
            exists k :: 0 <= k < |items| && SelectTitle(ranges, clip, items[k]) == Failure(r.error) &&
              forall j :: 0 <= j < k ==> SelectTitle(ranges, clip, items[j]).Success?)
  {
    var rs := seq(|items|, k requires 0 <= k < |items| => SelectTitle(ranges, clip, items[k]));
    assert forall k :: 0 <= k < |items| ==> rs[k] == SelectTitle(ranges, clip, items[k]);
  }

  // ================= the IsoFile object =================

  /** A Python list of chapter marks, an object that can be shared. */
  class ChapterList {
    var items: seq<int>

    constructor (items: seq<int>)
      ensures this.items == items
    {
      this.items := items;
    }

    /** `joined_chapters += [r + joined_chapters[-1] for r in rrange if r != 0]`. */
    method Extend(rrange: seq<int>)
      requires |items| > 0
      modifies this
      ensures items == old(items) + Shifted(rrange, Last(old(items)))
    {
      items := items + Shifted(rrange, Last(items));
    }
  }

  /** The part of `__IsoFile` that `split_titles` fills in: per-title
      chapter lists and clips, the joined clip and the joined chapter
      list. `clip` is the indexed disc clip. */
  class IsoFile<F> {
    const clip: seq<F>
    var splitChapters: seq<ChapterList>
    var splitClips: seq<seq<F>>
    var joinedClip: seq<F>
    var joinedChapters: ChapterList?

    /** The chapter lists are distinct objects, none of them empty. */
    ghost predicate Valid()
      reads this, splitChapters
    {
      && (forall i, j :: 0 <= i < j < |splitChapters| ==> splitChapters[i] != splitChapters[j])
      && (forall i :: 0 <= i < |splitChapters| ==> |splitChapters[i].items| > 0)
    }

    function ChapterItems(): (r: seq<seq<int>>)
      reads this, splitChapters
      ensures |r| == |splitChapters|
      ensures forall i :: 0 <= i < |r| ==> r[i] == splitChapters[i].items
    {
      seq(|splitChapters|, i reads this, splitChapters requires 0 <= i < |splitChapters| => splitChapters[i].items)
    }

    constructor (clip: seq<F>)
      ensures this.clip == clip && splitChapters == [] && splitClips == [] && joinedClip == [] && joinedChapters == null
    {
      this.clip := clip;
      splitChapters := [];
      splitClips := [];
      joinedClip := [];
      joinedChapters := null;
    }

    /** `get_title` once `split_titles` has run: title `clipIndex`, indexed
        as Python indexes lists, or without one the joined clip, cut by
        `chapters`. */
    function GetTitle(clipIndex: Option<int>, chapters: Option<Selection>): (r: Result<TitleClip<F>, LegacyError>)
      reads this, splitChapters, joinedChapters
      requires joinedChapters != null
      ensures clipIndex.Some? && PyAt(splitClips, clipIndex.value).None? ==> r == Failure(LegacyIndexError)
      ensures clipIndex.Some? && PyAt(splitChapters, clipIndex.value).None? ==> r == Failure(LegacyIndexError)
    {
      match clipIndex
      case None => SelectTitle(joinedChapters.items, joinedClip, chapters)
      case Some(i) =>
        var ranges :- PyAt(ChapterItems(), i).ToResult(LegacyIndexError);
        var title :- PyAt(splitClips, i).ToResult(LegacyIndexError);
        SelectTitle(ranges, title, chapters)
    }

    /** `__gen_joined_chapts` as written: the joined list IS the first
        title's list object, so extending it rewrites `split_chapters[0]`
        into the joined list. */
    method GenJoinedChaptersAsWritten() returns (r: Result<(), LegacyError>)
      requires Valid()
      modifies this, splitChapters
      ensures splitChapters == old(splitChapters) && splitClips == old(splitClips) && joinedClip == old(joinedClip)
      ensures Valid()
      ensures |splitChapters| == 0 <==> r.Failure?
      ensures r.Failure? ==> joinedChapters == old(joinedChapters)
      ensures r.Success? ==> joinedChapters == splitChapters[0]
      ensures r.Success? ==> splitChapters[0].items == Joined(old(ChapterItems()))
      ensures forall i :: 1 <= i < |splitChapters| ==> splitChapters[i].items == old(splitChapters[i].items)
    {
      if |splitChapters| == 0 {
        return Failure(LegacyIndexError);
      }
      ExtendFirst();
      joinedChapters := splitChapters[0];
      r := Success(());
    }

    /** The loop of `__gen_joined_chapts` as written: the first list object
        is extended by each later list in turn; no other object changes. */
    method ExtendFirst()
      requires Valid() && |splitChapters| > 0
      modifies splitChapters[0]
      ensures splitChapters[0].items == Joined(old(ChapterItems()))
    {
      ghost var lists := ChapterItems();
      var joined := splitChapters[0];
      var i := 1;
      while i < |splitChapters|
        invariant 1 <= i <= |splitChapters|
        invariant |joined.items| > 0 && joined.items == Joined(lists[..i])
        invariant forall k :: 1 <= k < |splitChapters| ==> splitChapters[k].items == lists[k]
      {
        var rrange := splitChapters[i].items;
        assert lists[..i + 1][..i] == lists[..i];
        joined.Extend(rrange);
        i := i + 1;
      }
      assert lists[..i] == lists;
    }

    /** `__gen_joined_chapts` as intended: the joined list is a new list,
        the titles' lists are left as they are. */
    method GenJoinedChapters() returns (r: Result<(), LegacyError>)
      requires Valid()
      modifies this
      ensures splitChapters == old(splitChapters) && splitClips == old(splitClips) && joinedClip == old(joinedClip)
      ensures ChapterItems() == old(ChapterItems()) && Valid()
      ensures |splitChapters| == 0 <==> r.Failure?
      ensures r.Success? ==> fresh(joinedChapters) && joinedChapters.items == Joined(ChapterItems())
    {
      if |splitChapters| == 0 {
        return Failure(LegacyIndexError);
      }
      ghost var lists := ChapterItems();
      var joined := new ChapterList(splitChapters[0].items);
      var i := 1;
      while i < |splitChapters|
        invariant splitChapters == old(splitChapters) && splitClips == old(splitClips) && joinedClip == old(joinedClip)
        invariant 1 <= i <= |splitChapters|
        invariant fresh(joined)
        invariant joined.items == Joined(lists[..i])
      {
        var rrange := splitChapters[i].items;
        assert lists[..i + 1][..i] == lists[..i];
        joined.Extend(rrange);
        i := i + 1;
      }
      assert lists[..i] == lists;
      joinedChapters := joined;
      r := Success(());
    }

    /** `split_titles` (without the `safe_index` trimming): chapter lists of
        all program chains, the title and menu clips, the joined clip and,
        with the corrected generator, the joined chapter list. Fails when a
        chain's cells are missing, differ in frame rate or have an unknown
        rate, and when there is neither a chain nor a menu. */
    method SplitTitles(ifoChains: seq<seq<seq<PlaybackTime>>>, framerate: map<int, int>, indexFrames: nat, vts0Size: int)
      returns (r: Result<(), LegacyError>)
      modifies this
      ensures r.Success? <==> TitlesSpec(ifoChains, framerate, MenuLength(indexFrames, vts0Size), clip).Success?
      ensures r.Success? ==>
        && TitlesSpec(ifoChains, framerate, MenuLength(indexFrames, vts0Size), clip).Success?
        && (ChapterItems(), splitClips) == TitlesSpec(ifoChains, framerate, MenuLength(indexFrames, vts0Size), clip).value
        && Valid() && |splitClips| > 0
        && joinedClip == Split.Concat(splitClips)
        && joinedChapters != null && joinedChapters.items == Joined(ChapterItems())
      ensures ChapterLists(ProgramChains(ifoChains), framerate).Failure? ==>
        && r.Failure? && r.error == ChapterLists(ProgramChains(ifoChains), framerate).error
        && ChapterItems() == old(ChapterItems()) && splitClips == old(splitClips)
        && joinedClip == old(joinedClip) && joinedChapters == old(joinedChapters)
    {
      var chains := CollectProgramChains(ifoChains);
      var menuLen := MenuLength(indexFrames, vts0Size);
      var collected := CollectChapterLists(chains, framerate);
      if collected.Failure? {
        return Failure(collected.error);
      }
      var lists := collected.value;
      var (chs, clips) := SplitChaptersClips(lists, clip, menuLen);
      assert TitlesSpec(ifoChains, framerate, menuLen, clip) ==
        if |clips| == 0 then Failure(LegacyIndexError) else Success((chs, clips));
      SplitClipsCounts(lists, clip, menuLen);
      r := InstallTitles(chs, clips);
    }

    /** The assignments at the end of `split_titles`: the titles' chapter
        lists as new list objects, their clips, then the joined clip and
        chapter list, which need at least one title. */
    method InstallTitles(chs: seq<seq<int>>, clips: seq<seq<F>>) returns (r: Result<(), LegacyError>)
      requires |chs| == |clips| && forall k :: 0 <= k < |chs| ==> |chs[k]| > 0
      modifies this
      ensures ChapterItems() == chs && splitClips == clips
      ensures r.Success? <==> |clips| > 0
      ensures r.Success? ==>
        && joinedClip == Split.Concat(splitClips)
        && joinedChapters != null && joinedChapters.items == Joined(ChapterItems())
        && Valid()
    {
      var objects := NewChapterLists(chs);
      splitChapters := objects;
      splitClips := clips;
      assert ChapterItems() == chs;
      if |clips| == 0 {
        return Failure(LegacyIndexError);
      }
      joinedClip := GenJoinedClip(clips);
      var joined := GenJoinedChapters();
      assert ChapterItems() == chs;
      r := Success(());
    }
  }

  /** What `split_titles` assigns to the titles' chapter lists and clips. */
  function TitlesSpec<F>(ifoChains: seq<seq<seq<PlaybackTime>>>, framerate: map<int, int>, menuLen: nat, clip: seq<F>)
    : Result<(seq<seq<int>>, seq<seq<F>>), LegacyError>
  {
    var lists :- ChapterLists(ProgramChains(ifoChains), framerate);
    var split := SplitChaptersClips(lists, clip, menuLen);
    if |split.1| == 0 then Failure(LegacyIndexError) else Success(split)
  }

  /** `split_titles` succeeds exactly when every chain's chapter list can be
      computed and there is a chain or a menu; the titles' chapter lists and
      clips then match in number and no list is empty. */
  lemma TitlesSucceed<F>(ifoChains: seq<seq<seq<PlaybackTime>>>, framerate: map<int, int>, menuLen: nat, clip: seq<F>)
    ensures TitlesSpec(ifoChains, framerate, menuLen, clip).Success? <==>
      ChapterLists(ProgramChains(ifoChains), framerate).Success? && (|ProgramChains(ifoChains)| > 0 || menuLen != 0)
    ensures TitlesSpec(ifoChains, framerate, menuLen, clip).Success? ==>
      var (chs, clips) := TitlesSpec(ifoChains, framerate, menuLen, clip).value;
      |chs| == |clips| > 0 && forall k :: 0 <= k < |chs| ==> |chs[k]| > 0
  {
  }

  /** Title `i` with no chapter selection is the title's own clip; a
      negative index counts from the last title. */
  lemma GetTitleIndex<F>(iso: IsoFile<F>, i: int, chapters: Option<Selection>)
    requires iso.joinedChapters != null && |iso.splitChapters| == |iso.splitClips|
    ensures 0 <= i < |iso.splitClips| ==> iso.GetTitle(Some(i), None) == Success(Clip(iso.splitClips[i]))
    ensures -|iso.splitClips| <= i < 0 ==> iso.GetTitle(Some(i), chapters) == iso.GetTitle(Some(|iso.splitClips| + i), chapters)
    ensures (i >= |iso.splitClips| || i < -|iso.splitClips|) ==> iso.GetTitle(Some(i), chapters) == Failure(LegacyIndexError)
  {
  }

  /** A fresh list object per chapter list. */
  method NewChapterLists(chs: seq<seq<int>>) returns (objects: seq<ChapterList>)
    ensures |objects| == |chs|
    ensures forall k :: 0 <= k < |chs| ==> fresh(objects[k]) && objects[k].items == chs[k]
    ensures forall a, b :: 0 <= a < b < |chs| ==> objects[a] != objects[b]
  {
    objects := [];
    var i := 0;
    while i < |chs|
      invariant 0 <= i <= |chs|
      invariant |objects| == i
      invariant forall k :: 0 <= k < i ==> fresh(objects[k]) && objects[k].items == chs[k]
      invariant forall a, b :: 0 <= a < b < i ==> objects[a] != objects[b]
    {
      var l := new ChapterList(chs[i]);
      objects := objects + [l];
      i := i + 1;
    }
  }

  /** The loop over the IFO files in `split_titles`. */
  method CollectProgramChains(ifoChains: seq<seq<seq<PlaybackTime>>>) returns (chains: seq<seq<PlaybackTime>>)
    ensures chains == ProgramChains(ifoChains)
  {
    var mIfos := |ifoChains| > 1;
    var skip := if mIfos then 1 else 0;
    chains := [];
    var i := 0;
    while i < |ifoChains|
      invariant 0 <= i <= |ifoChains|
      invariant chains == ProgramChainsFrom(ifoChains[..i], skip)
    {
      assert ifoChains[..i + 1][..i] == ifoChains[..i];
      chains := chains + PySlice(ifoChains[i], skip, |ifoChains[i]|);
      i := i + 1;
    }
    assert ifoChains[..i] == ifoChains;
  }

  /** The loop over the program chains in `split_titles`, then the running
      sums. */
  method CollectChapterLists(chains: seq<seq<PlaybackTime>>, framerate: map<int, int>) returns (r: Result<seq<seq<int>>, LegacyError>)
    ensures r == ChapterLists(chains, framerate)
    ensures r.Success? ==> forall k :: 0 <= k < |r.value| ==> |r.value[k]| > 0
  {
    var lists: seq<seq<int>> := [];
    var i := 0;
    while i < |chains|
      invariant 0 <= i <= |chains|
      invariant ChapterLists(chains[..i], framerate) == Success(lists)
      invariant forall k :: 0 <= k < |lists| ==> |lists[k]| > 0
    {
      assert chains[..i + 1][..i] == chains[..i];
      var counts := CellCounts(chains[i], framerate);
      if counts.Failure? {
        ChapterListsPrefixFails(chains, framerate, i + 1);
        return Failure(counts.error);
      }
      lists := lists + [Accumulate(counts.value)];
      i := i + 1;
    }
    assert chains[..i] == chains;
    r := Success(lists);
  }

  lemma {:induction false} ChapterListsPrefixFails(chains: seq<seq<PlaybackTime>>, framerate: map<int, int>, i: nat)
    requires 0 < i <= |chains|
    requires ChapterLists(chains[..i - 1], framerate).Success? && CellCounts(chains[i - 1], framerate).Failure?
    ensures ChapterLists(chains, framerate) == Failure(CellCounts(chains[i - 1], framerate).error)
    decreases |chains| - i
  {
    if i < |chains| {
      assert chains[..|chains| - 1][..i - 1] == chains[..i - 1];
      ChapterListsPrefixFails(chains[..|chains| - 1], framerate, i);
    } else {
      assert chains[..|chains| - 1] == chains[..i - 1];
    }
  }

  /** `__gen_joined_clip`: the clips one after the other. */
  method GenJoinedClip<F>(clips: seq<seq<F>>) returns (joined: seq<F>)
    requires |clips| > 0
    ensures joined == Split.Concat(clips)
  {
    joined := clips[0];
    assert clips[..1][..0] == [];
    var i := 1;
    while i < |clips|
      invariant 1 <= i <= |clips|
      invariant joined == Split.Concat(clips[..i])
    {
      assert clips[..i + 1][..i] == clips[..i];
      joined := joined + clips[i];
      i := i + 1;
    }
    assert clips[..i] == clips;
  }
}
