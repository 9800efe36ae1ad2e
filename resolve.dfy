/** Title resolution: `IsoFileCore.get_title`. From the parsed IFO files it
    picks the title's program chain, walks its cells (angle blocks included)
    to find the cells to play and which of them open a chapter, and turns the
    per-frame cell tags of the decoded video into the chapter list.

    The decoded video is the sequence `node` (one element per frame after
    soft-telecine expansion) and `tags` gives the (vob id, cell id) pair of
    each of its frames; both come from the indexer and the telecine module,
    which are not part of this model. */
module Resolve {
  import opened Wrappers
  import opened PyOps
  import opened IfoRecords
  import opened Ifo

  /** A (vob id, cell id) pair. */
  type CellKey = (nat, nat)

  datatype TitleError =
    | TitleOutOfRange      // `"title_nr" out of range`
    | NoAngle              // no angle_nr given for multi angle title
    | NotOnePgc            // title is not one program chain
    | IndexError
    | KeyError
    | TypeError            // `None + 1`: a cell taken before any angle block began
    | AssertionError

  /** What `get_title` returns; the float timing is not modelled. */
  datatype Title<F> = Title(
    node: seq<F>,
    chapters: seq<int>,
    cellChanges: seq<int>,
    titleNr: int,
    vts: nat,
    cells: seq<CellKey>,
    audios: seq<string>,
    patchedEndChapter: Option<int>)

  // ================= locating the program chain =================

  /** The program chain a title plays and the entry cells of its programs. */
  datatype Located = Located(entry: TitleEntry, vts: Ifo, pgc: Pgc, targetPrograms: seq<nat>)

  /** `[pm for i, pm in enumerate(program_map) if i + 1 in programs]`, over the
      first `k` entries of the program map. */
  function TargetPrograms(programMap: seq<nat>, programs: seq<nat>, k: nat): (r: seq<nat>)
    requires k <= |programMap|
    ensures |r| <= k
    ensures forall x :: x in r <==> exists i :: 0 <= i < k && i + 1 in programs && programMap[i] == x
  {
    if k == 0 then []
    else
      var rest := TargetPrograms(programMap, programs, k - 1);
      if k in programs then rest + [programMap[k - 1]] else rest
  }

  /** The checks and lookups at the head of `get_title`, up to
      `target_programs`. */
  function Locate(ifos: seq<Ifo>, titleNr: int, angleNr: Option<int>): (r: Result<Located, TitleError>)
    ensures |ifos| > 0 && (titleNr < 1 || titleNr > |ifos[0].ttSrpt|) ==> r == Failure(TitleOutOfRange)
    ensures r.Failure? && r.error == NoAngle <==>
      |ifos| > 0 && 1 <= titleNr <= |ifos[0].ttSrpt| && ifos[0].ttSrpt[titleNr - 1].nrOfAngles != 1 && angleNr.None?
    ensures r.Success? ==>
      && |ifos| > 0
      && 1 <= titleNr <= |ifos[0].ttSrpt|
      && r.value.entry == ifos[0].ttSrpt[titleNr - 1]
      && (r.value.entry.nrOfAngles != 1 ==> angleNr.Some?)
      && PyAt(ifos, r.value.entry.titleSetNr) == Some(r.value.vts)
    ensures r.Success? ==> PyAt(r.value.vts.pttSrpt, r.value.entry.vtsTtn - 1).Some?
    ensures r.Success? && PyAt(r.value.vts.pttSrpt, r.value.entry.vtsTtn - 1).Some? ==>
      var title := PyAt(r.value.vts.pttSrpt, r.value.entry.vtsTtn - 1).value;
      && |title| == r.value.entry.nrOfPtts > 0
      && (forall k :: 0 <= k < |title| ==> title[k].pgcn == title[0].pgcn)
      && PyAt(r.value.vts.vtsPgcit, title[0].pgcn - 1) == Some(r.value.pgc)
  {
    var ifo0 :- PyAt(ifos, 0).ToResult(IndexError);
    var titleIdx := titleNr - 1;
    if titleIdx < 0 || titleIdx >= |ifo0.ttSrpt| then Failure(TitleOutOfRange)
    else
      var tt := ifo0.ttSrpt[titleIdx];
      if tt.nrOfAngles != 1 && angleNr.None? then Failure(NoAngle)
      else
        var vts :- PyAt(ifos, tt.titleSetNr).ToResult(IndexError);
        var title :- PyAt(vts.pttSrpt, tt.vtsTtn - 1).ToResult(IndexError);
        if |title| != tt.nrOfPtts then Failure(AssertionError)
        else if exists k :: 1 <= k < |title| && title[k].pgcn != title[0].pgcn then Failure(NotOnePgc)
        else if |title| == 0 then Failure(IndexError)
        else
          var pgc :- PyAt(vts.vtsPgcit, title[0].pgcn - 1).ToResult(IndexError);
          var programs := seq(|title|, i requires 0 <= i < |title| => title[i].pgn);
          // `title_programs[0] != 1 or pgc_programs[0] != 1` only prints, but
          // the second index raises on an empty program map.
          if programs[0] == 1 && |pgc.programMap| == 0 then Failure(IndexError)
          else Success(Located(tt, vts, pgc, TargetPrograms(pgc.programMap, programs, |pgc.programMap|)))
  }

  // ================= the angle walk =================

  /** `current_angle` after the first `k` cells: a first-in-block cell
      (block mode 1) resets it to 1, an in-block or last-in-block cell
      (modes 2 and 3) increments it, any other cell leaves it. */
  function AngleAfter(pb: seq<CellPlayback>, k: nat): int
    requires k <= |pb|
  {
    if k == 0 then 1
    else if pb[k - 1].blockMode == 1 then 1
    else if pb[k - 1].blockMode == 2 || pb[k - 1].blockMode == 3 then AngleAfter(pb, k - 1) + 1
    else AngleAfter(pb, k - 1)
  }

  /** `angle_start_cell_i` after the first `k` cells: the last cell of block
      mode 0 or 1, None before there is one. */
  function StartAfter(pb: seq<CellPlayback>, k: nat): (r: Option<nat>)
    requires k <= |pb|
  {
    if k == 0 then None
    else if BlockStart(pb[k - 1]) then Some(k - 1)
    else StartAfter(pb, k - 1)
  }

  /** Block modes 0 and 1 (re)start `angle_start_cell_i`. */
  predicate BlockStart(c: CellPlayback)
  {
    c.blockMode == 0 || c.blockMode == 1
  }

  /** `angle_start_cell_i` is the last block start so far. */
  lemma {:induction false} StartAfterIsLastBlockStart(pb: seq<CellPlayback>, k: nat)
    requires k <= |pb|
    ensures StartAfter(pb, k).Some? ==>
      var s := StartAfter(pb, k).value;
      s < k && BlockStart(pb[s]) && forall c :: s < c < k ==> !BlockStart(pb[c])
    ensures StartAfter(pb, k).None? ==> forall c :: 0 <= c < k ==> !BlockStart(pb[c])
  {
    if k > 0 && !BlockStart(pb[k - 1]) {
      StartAfterIsLastBlockStart(pb, k - 1);
    }
  }

  /** Cell `i` is taken iff it is outside any angle block or it belongs to
      the requested angle. */
  predicate TakesCell(pb: seq<CellPlayback>, angleNr: Option<int>, i: nat)
    requires i < |pb|
  {
    pb[i].blockMode == 0 || angleNr == Some(AngleAfter(pb, i + 1))
  }

  /** The indices, ascending, of the cells among the first `k` that are taken. */
  function TakenCells(pb: seq<CellPlayback>, angleNr: Option<int>, k: nat): (r: seq<nat>)
    requires k <= |pb|
  {
    if k == 0 then []
    else
      var rest := TakenCells(pb, angleNr, k - 1);
      if TakesCell(pb, angleNr, k - 1) then rest + [k - 1] else rest
  }

  /** The taken cells are listed once each, in cell order: a block-mode-0
      cell always, any other cell iff it belongs to the requested angle. */
  lemma {:induction false} TakenCellsExactly(pb: seq<CellPlayback>, angleNr: Option<int>, k: nat)
    requires k <= |pb|
    ensures var r := TakenCells(pb, angleNr, k);
      && (forall j :: 0 <= j < |r| ==> r[j] < k)
      && (forall x, y :: 0 <= x < y < |r| ==> r[x] < r[y])
      && (forall i: nat :: i in r <==> i < k && TakesCell(pb, angleNr, i))
  {
    if k > 0 {
      TakenCellsExactly(pb, angleNr, k - 1);
    }
  }

  /** A taken cell at which `angle_start_cell_i` is still None. */
  predicate WalkFails(pb: seq<CellPlayback>, angleNr: Option<int>, k: nat)
    requires k <= |pb|
  {
    exists i :: 0 <= i < k && TakesCell(pb, angleNr, i) && StartAfter(pb, i + 1).None?
  }

  /** The chapter flag of a taken cell: its block's first cell, counted from
      1, is the entry cell of a program of the title. */
  function ChapterFlag(pb: seq<CellPlayback>, targets: seq<nat>, i: nat): bool
    requires i < |pb|
  {
    var s := StartAfter(pb, i + 1);
    s.Some? && s.value + 1 in targets
  }

  lemma ChapterFlagOf(pb: seq<CellPlayback>, targets: seq<nat>, i: nat, s: nat)
    requires i < |pb| && StartAfter(pb, i + 1) == Some(s)
    ensures ChapterFlag(pb, targets, i) == (s + 1 in targets)
  {
  }

  function KeyOf(c: CellPosition): CellKey
  {
    (c.vobIdNr, c.cellNr)
  }

  lemma WalkStep(pb: seq<CellPlayback>, angleNr: Option<int>, i: nat)
    requires i < |pb|
    ensures TakenCells(pb, angleNr, i + 1) ==
      if TakesCell(pb, angleNr, i) then TakenCells(pb, angleNr, i) + [i] else TakenCells(pb, angleNr, i)
    ensures WalkFails(pb, angleNr, i + 1) <==>
      WalkFails(pb, angleNr, i) || (TakesCell(pb, angleNr, i) && StartAfter(pb, i + 1).None?)
  {
  }

  lemma WalkFailsGrows(pb: seq<CellPlayback>, angleNr: Option<int>, i: nat, m: nat)
    requires i <= m <= |pb|
    requires WalkFails(pb, angleNr, i)
    ensures WalkFails(pb, angleNr, m)
  {
  }

  /** One turn of the cell loop: the block mode of cell `i` updates
      `current_angle` and `angle_start_cell_i` and decides whether the cell
      is taken. */
  method VisitCell(pb: seq<CellPlayback>, angleNr: Option<int>, i: nat, angle: int, start: Option<nat>)
    returns (angle': int, start': Option<nat>, take: bool)
    requires i < |pb|
    requires angle == AngleAfter(pb, i) && start == StartAfter(pb, i)
    ensures angle' == AngleAfter(pb, i + 1) && start' == StartAfter(pb, i + 1)
    ensures take == TakesCell(pb, angleNr, i)
  {
    var blockMode := pb[i].blockMode;
    angle', start' := angle, start;
    if blockMode == 1 {
      angle' := 1;
      start' := Some(i);
    } else if blockMode == 2 || blockMode == 3 {
      angle' := angle + 1;
    }
    if blockMode == 0 {
      take := true;
      start' := Some(i);
    } else {
      take := angleNr == Some(angle');
    }
  }

  /** The result of the cell loop, in closed form: a TypeError at the first
      taken cell before any block start, an IndexError when the playback
      list is shorter than the position list, and otherwise the (vob id,
      cell id) pairs of the taken cells with their chapter flags. */
  function WalkSpec(pgc: Pgc, targets: seq<nat>, angleNr: Option<int>): (r: Result<(seq<CellKey>, seq<bool>), TitleError>)
    ensures r.Success? ==> |r.value.0| == |r.value.1|
  {
    var pb := pgc.cellPlayback;
    var cp := pgc.cellPosition;
    var m := if |pb| < |cp| then |pb| else |cp|;
    if WalkFails(pb, angleNr, m) then Failure(TypeError)
    else if |pb| < |cp| then Failure(IndexError)
    else
      var cells := TakenCells(pb, angleNr, |cp|);
      TakenCellsExactly(pb, angleNr, |cp|);
      Success((CellKeys(cp, cells), ChapterFlags(pb, targets, cells)))
  }

  /** The (VOB id, cell id) keys of the listed cells. */
  function CellKeys(cp: seq<CellPosition>, cells: seq<nat>): (r: seq<CellKey>)
    requires forall j :: 0 <= j < |cells| ==> cells[j] < |cp|
    ensures |r| == |cells|
    ensures forall j :: 0 <= j < |cells| ==> r[j] == KeyOf(cp[cells[j]])
  {
    seq(|cells|, j requires 0 <= j < |cells| => KeyOf(cp[cells[j]]))
  }

  /** Whether each listed cell opens a chapter. */
  function ChapterFlags(pb: seq<CellPlayback>, targets: seq<nat>, cells: seq<nat>): (r: seq<bool>)
    requires forall j :: 0 <= j < |cells| ==> cells[j] < |pb|
    ensures |r| == |cells|
    ensures forall j :: 0 <= j < |cells| ==> r[j] == ChapterFlag(pb, targets, cells[j])
  {
    seq(|cells|, j requires 0 <= j < |cells| => ChapterFlag(pb, targets, cells[j]))
  }

  /** The walk's outcome when the loop stops early or runs through: a
      missing playback record, a taken cell with no angle start, or the
      lists of all taken cells. */
  lemma WalkOutcome(pgc: Pgc, targets: seq<nat>, angleNr: Option<int>, i: nat)
    requires i <= |pgc.cellPosition| && i <= |pgc.cellPlayback|
    requires !WalkFails(pgc.cellPlayback, angleNr, i)
    ensures i == |pgc.cellPlayback| < |pgc.cellPosition| ==> WalkSpec(pgc, targets, angleNr) == Failure(IndexError)
    ensures i < |pgc.cellPosition| && i < |pgc.cellPlayback| && WalkFails(pgc.cellPlayback, angleNr, i + 1) ==>
      WalkSpec(pgc, targets, angleNr) == Failure(TypeError)
    ensures i == |pgc.cellPosition| ==>
      var cells := TakenCells(pgc.cellPlayback, angleNr, i);
      && (forall j :: 0 <= j < |cells| ==> cells[j] < i)
      && WalkSpec(pgc, targets, angleNr)
        == Success((CellKeys(pgc.cellPosition, cells), ChapterFlags(pgc.cellPlayback, targets, cells)))
  {
    var pb := pgc.cellPlayback;
    var n := |pgc.cellPosition|;
    var m := if |pb| < n then |pb| else n;
    if i < n && i < |pb| && WalkFails(pb, angleNr, i + 1) {
      WalkFailsGrows(pb, angleNr, i + 1, m);
    }
    TakenCellsExactly(pb, angleNr, i);
  }

  /** Listing one more cell adds its key and its chapter flag at the end. */
  lemma TakeOneMore(cp: seq<CellPosition>, pb: seq<CellPlayback>, targets: seq<nat>, cells: seq<nat>, i: nat)
    requires i < |cp| && i < |pb|
    requires forall j :: 0 <= j < |cells| ==> cells[j] < i
    ensures CellKeys(cp, cells + [i]) == CellKeys(cp, cells) + [KeyOf(cp[i])]
    ensures ChapterFlags(pb, targets, cells + [i]) == ChapterFlags(pb, targets, cells) + [ChapterFlag(pb, targets, i)]
  {
    var c := cells + [i];
    assert forall j :: 0 <= j < |cells| ==> c[j] == cells[j];
  }

  /** The cell loop of `get_title`: the taken cells and their chapter flags. */
  method AngleWalk(pgc: Pgc, targets: seq<nat>, angleNr: Option<int>) returns (r: Result<(seq<CellKey>, seq<bool>), TitleError>)
    ensures r == WalkSpec(pgc, targets, angleNr)
  {
    var pb := pgc.cellPlayback;
    var n := |pgc.cellPosition|;
    var take: seq<CellKey> := [];
    var isChapter: seq<bool> := [];
    var currentAngle := 1;
    var angleStart: Option<nat> := None;
    var i := 0;
    ghost var cells: seq<nat> := [];
    while i < n
      invariant i <= n && i <= |pb|
      invariant currentAngle == AngleAfter(pb, i)
      invariant angleStart == StartAfter(pb, i)
      invariant !WalkFails(pb, angleNr, i)
      invariant cells == TakenCells(pb, angleNr, i)
      invariant forall j :: 0 <= j < |cells| ==> cells[j] < i
      invariant take == CellKeys(pgc.cellPosition, cells)
      invariant isChapter == ChapterFlags(pb, targets, cells)
    {
      if i >= |pb| {
        WalkOutcome(pgc, targets, angleNr, i);
        return Failure(IndexError);
      }
      WalkStep(pb, angleNr, i);
      var takeCell;
      currentAngle, angleStart, takeCell := VisitCell(pb, angleNr, i, currentAngle, angleStart);
      if takeCell {
        if angleStart.None? {
          WalkOutcome(pgc, targets, angleNr, i);
          return Failure(TypeError);
        }
        var flag := angleStart.value + 1 in targets;
        ChapterFlagOf(pb, targets, i, angleStart.value);
        TakeOneMore(pgc.cellPosition, pb, targets, cells, i);
        take := take + [KeyOf(pgc.cellPosition[i])];
        isChapter := isChapter + [flag];
        cells := cells + [i];
      }
      i := i + 1;
    }
    WalkOutcome(pgc, targets, angleNr, i);
    r := Success((take, isChapter));
  }



  // ================= cell changes =================

  /** The frames among the first `k` whose cell tag differs from the tag of
      the frame before, in order. */
  function CellChanges(tags: seq<CellKey>, k: nat): seq<int>
    requires k <= |tags|
  {
    if k <= 1 then []
    else CellChanges(tags, k - 1) + (if tags[k - 1] != tags[k - 2] then [k - 1] else [])
  }

  /** Every frame `a >= 1` whose tag differs from frame `a - 1`, each once and
      in ascending order. */
  lemma {:induction false} CellChangesExactly(tags: seq<CellKey>, k: nat)
    requires k <= |tags|
    ensures var r := CellChanges(tags, k);
      && (forall j :: 0 <= j < |r| ==> 1 <= r[j] < k)
      && (forall x, y :: 0 <= x < y < |r| ==> r[x] < r[y])
      && (forall a: int :: a in r <==> 1 <= a < k && tags[a] != tags[a - 1])
  {
    if k > 1 {
      CellChangesExactly(tags, k - 1);
    }
  }

  /** The `changes` loop: the cell changes of the frame tags, then the last
      frame of the node. */
  method Changes(tags: seq<CellKey>, nodeLen: nat) returns (changes: seq<int>)
    ensures changes == CellChanges(tags, |tags|) + [nodeLen - 1]
  {
    changes := [];
    var a := 1;
    while a < |tags|
      invariant 1 <= a <= |tags| + 1
      invariant changes == CellChanges(tags, if a <= |tags| then a else |tags|)
    {
      if tags[a] != tags[a - 1] {
        changes := changes + [a];
      }
      a := a + 1;
    }
    changes := changes + [nodeLen - 1];
  }

  // ================= chapters =================

  function CountTrue(s: seq<bool>): nat
  {
    if |s| == 0 then 0 else CountTrue(s[..|s| - 1]) + (if s[|s| - 1] then 1 else 0)
  }

  /** The first chapter cell after cell `i`. */
  function NextChapter(isChapter: seq<bool>, i: nat): (r: Option<nat>)
    ensures r.Some? ==> i < r.value < |isChapter|
    decreases |isChapter| - i
  {
    if i + 1 >= |isChapter| then None
    else if isChapter[i + 1] then Some(i + 1)
    else NextChapter(isChapter, i + 1)
  }

  lemma {:induction false} NextChapterIsFirst(isChapter: seq<bool>, i: nat)
    ensures NextChapter(isChapter, i).Some? ==>
      var j := NextChapter(isChapter, i).value;
      isChapter[j] && forall k :: i < k < j ==> !isChapter[k]
    ensures NextChapter(isChapter, i).None? ==> forall k :: i < k < |isChapter| ==> !isChapter[k]
    decreases |isChapter| - i
  {
    if i + 1 < |isChapter| && !isChapter[i + 1] {
      NextChapterIsFirst(isChapter, i + 1);
    }
  }

  /** The chapter mark of chapter cell `i`: the last cell change before the
      next chapter cell, or the cell's own change when no chapter follows. */
  function ChapterMark(isChapter: seq<bool>, changes: seq<int>, i: nat): int
    requires |changes| == |isChapter| && i < |isChapter|
  {
    match NextChapter(isChapter, i)
    case Some(j) => changes[j - 1]
    case None => changes[i]
  }

  /** The marks of the chapter cells among the first `k`, in order. */
  function ChapterMarks(isChapter: seq<bool>, changes: seq<int>, k: nat): seq<int>
    requires |changes| == |isChapter| && k <= |isChapter|
  {
    if k == 0 then []
    else ChapterMarks(isChapter, changes, k - 1) + (if isChapter[k - 1] then [ChapterMark(isChapter, changes, k - 1)] else [])
  }

  /** One mark per chapter cell, the one of chapter cell `i` at the place
      given by the number of chapter cells before it. */
  lemma {:induction false} ChapterMarksCount(isChapter: seq<bool>, changes: seq<int>, k: nat)
    requires |changes| == |isChapter| && k <= |isChapter|
    ensures |ChapterMarks(isChapter, changes, k)| == CountTrue(isChapter[..k])
    ensures forall i :: 0 <= i < k && isChapter[i] ==>
      CountTrue(isChapter[..i]) < |ChapterMarks(isChapter, changes, k)| &&
      ChapterMarks(isChapter, changes, k)[CountTrue(isChapter[..i])] == ChapterMark(isChapter, changes, i)
  {
    if k > 0 {
      ChapterMarksCount(isChapter, changes, k - 1);
      assert isChapter[..k][..k - 1] == isChapter[..k - 1];
    }
  }

  /** The `output_chapters` loops of `get_title`. */
  method OutputChapters(isChapter: seq<bool>, changes: seq<int>) returns (out: seq<int>)
    requires |changes| == |isChapter|
    ensures out == ChapterMarks(isChapter, changes, |isChapter|)
  {
    var lastChapter := 0;
    var i := |isChapter|;
    while i > 0
      invariant 0 <= i <= |isChapter|
      invariant forall k :: i <= k < |isChapter| ==> !isChapter[k]
    {
      i := i - 1;
      if isChapter[i] {
        lastChapter := i;
        break;
      }
    }
    assert forall k :: lastChapter < k < |isChapter| ==> !isChapter[k];

    out := [];
    i := 0;
    while i < |isChapter|
      invariant 0 <= i <= |isChapter|
      invariant out == ChapterMarks(isChapter, changes, i)
    {
      if isChapter[i] {
        var broke := false;
        var j := i + 1;
        while j < |isChapter|
          invariant i + 1 <= j <= |isChapter|
          invariant forall k :: i < k < j ==> !isChapter[k]
        {
          if isChapter[j] {
            broke := true;
            break;
          }
          j := j + 1;
        }
        NextChapterIsFirst(isChapter, i);
        if broke {
          assert NextChapter(isChapter, i) == Some(j);
        } else {
          assert NextChapter(isChapter, i).None?;
          assert lastChapter == i;
        }
        out := out + [if !broke then changes[lastChapter] else changes[j - 1]];
      }
      i := i + 1;
    }
  }

  /** `[0] + output_chapters`, with the last entry moved to the last frame;
      the entry it replaced is reported. */
  function FinishChapters(marks: seq<int>, lastFrame: int): (r: (seq<int>, Option<int>))
    ensures |r.0| == |marks| + 1 && r.0[|marks|] == lastFrame
    ensures forall k :: 0 <= k < |marks| ==> r.0[k] == ([0] + marks)[k]
    ensures r.1.Some? <==> ([0] + marks)[|marks|] != lastFrame
    ensures r.1.Some? ==> r.1.value == ([0] + marks)[|marks|]
  {
    var chapters := [0] + marks;
    var last := |chapters| - 1;
    if chapters[last] != lastFrame then (chapters[last := lastFrame], Some(chapters[last]))
    else (chapters, None)
  }

  // ================= audio =================

  /** The descriptor of an audio stream: its format and language. */
  function AudioName(a: AudioAttr): string
  {
    (if a.audioFormat == 0 then "ac3" else if a.audioFormat == 4 then "lpcm" else "unk")
      + "(" + a.language + ")"
  }

  lemma AudioNameShape(a: AudioAttr)
    ensures AudioName(a) != "none"
    ensures "ac3" <= AudioName(a) <==> a.audioFormat == 0
  {
    var n := AudioName(a);
    if a.audioFormat == 0 {
      assert n[..3] == "ac3";
    } else if a.audioFormat == 4 {
      assert n[0] == 'l';
    } else {
      assert n[0] == 'u';
    }
  }

  /** The `audios` loop, from stream `i` on: "none" for an unavailable
      stream, the attribute's descriptor otherwise. */
  function AudioNames(controls: seq<AudioControl>, mat: Option<VtsiMat>, i: nat): Result<seq<string>, TitleError>
    requires i <= |controls|
    decreases |controls| - i
  {
    if i == |controls| then Success([])
    else
      var name :-
        if !controls[i].available then Success("none")
        else if mat.None? then Failure(KeyError)
        else if i >= |mat.value.audioAttr| then Failure(IndexError)
        else Success(AudioName(mat.value.audioAttr[i]));
      var rest :- AudioNames(controls, mat, i + 1);
      Success([name] + rest)
  }

  /** The audio list has one entry per control, fails iff some available
      stream has no attribute record, and names stream `k` "ac3(..)" exactly
      when it is available and AC-3 coded (the test `dump_ac3` relies on). */
  lemma {:induction false} AudioNamesExactly(controls: seq<AudioControl>, mat: Option<VtsiMat>, i: nat)
    requires i <= |controls|
    ensures AudioNames(controls, mat, i).Success? <==>
      forall k :: i <= k < |controls| && controls[k].available ==> mat.Some? && k < |mat.value.audioAttr|
    ensures AudioNames(controls, mat, i).Success? ==>
      var names := AudioNames(controls, mat, i).value;
      && |names| == |controls| - i
      && forall j :: 0 <= j < |names| ==>
           && (names[j] == "none" <==> !controls[i + j].available)
           && ("ac3" <= names[j] <==> controls[i + j].available && mat.value.audioAttr[i + j].audioFormat == 0)
    decreases |controls| - i
  {
    if i < |controls| {
      AudioNamesExactly(controls, mat, i + 1);
      if controls[i].available && mat.Some? && i < |mat.value.audioAttr| {
        AudioNameShape(mat.value.audioAttr[i]);
      }
      var r := AudioNames(controls, mat, i);
      if r.Success? {
        var rest := AudioNames(controls, mat, i + 1).value;
        var names := r.value;
        assert names == [names[0]] + rest;
        forall j | 0 <= j < |names|
          ensures names[j] == "none" <==> !controls[i + j].available
          ensures "ac3" <= names[j] <==> controls[i + j].available && mat.value.audioAttr[i + j].audioFormat == 0
        {
          if j == 0 && !controls[i].available {
            assert names[0] == "none";
            assert !("ac3" <= names[0]) by { assert names[0][0] == 'n'; }
          } else if j > 0 {
            assert names[j] == rest[j - 1];
            assert i + j == (i + 1) + (j - 1);
          }
        }
      }
    }
  }

  // ================= the whole of get_title =================

  /** `get_title(title_nr, angle_nr)` for a video whose frames are `node`
      and whose per-frame cell tags are `tags`. */
  function TitleSpec<F>(ifos: seq<Ifo>, titleNr: int, angleNr: Option<int>, node: seq<F>, tags: seq<CellKey>): Result<Title<F>, TitleError>
  {
    var loc :- Locate(ifos, titleNr, angleNr);
    var walk :- WalkSpec(loc.pgc, loc.targetPrograms, angleNr);
    var changes := CellChanges(tags, |tags|) + [|node| - 1];
    if |changes| != |walk.1| then Failure(AssertionError)
    else
      var finished := FinishChapters(ChapterMarks(walk.1, changes, |walk.1|), |node| - 1);
      var audios :- AudioNames(loc.pgc.audioControl, loc.vts.vtsiMat, 0);
      Success(Title(node, finished.0, changes, titleNr, loc.entry.titleSetNr, walk.0, audios, finished.1))
  }

  /** `IsoFileCore.get_title`. */
  method GetTitle<F>(ifos: seq<Ifo>, titleNr: int, angleNr: Option<int>, node: seq<F>, tags: seq<CellKey>)
    returns (r: Result<Title<F>, TitleError>)
    ensures r == TitleSpec(ifos, titleNr, angleNr, node, tags)
  {
    var loc :- Locate(ifos, titleNr, angleNr);
    var walk :- AngleWalk(loc.pgc, loc.targetPrograms, angleNr);
    var changes := Changes(tags, |node|);
    if |changes| != |walk.1| {
      return Failure(AssertionError);
    }
    var marks := OutputChapters(walk.1, changes);
    var finished := FinishChapters(marks, |node| - 1);
    var audios :- AudioNames(loc.pgc.audioControl, loc.vts.vtsiMat, 0);
    r := Success(Title(node, finished.0, changes, titleNr, loc.entry.titleSetNr, walk.0, audios, finished.1));
  }

  /** The chapter list of a resolved title: one entry per chapter cell plus
      the leading 0, the last entry is the last frame, the first is 0 as soon
      as there is a chapter cell, entry `c + 1` is the mark of the `c`-th
      chapter cell (save the patched last one), and the patched value is
      reported exactly when the last mark was not the last frame. */
  lemma TitleChapters<F>(ifos: seq<Ifo>, titleNr: int, angleNr: Option<int>, node: seq<F>, tags: seq<CellKey>)
    requires TitleSpec(ifos, titleNr, angleNr, node, tags).Success?
    ensures
      var t := TitleSpec(ifos, titleNr, angleNr, node, tags).value;
      var loc := Locate(ifos, titleNr, angleNr).value;
      var flags := WalkSpec(loc.pgc, loc.targetPrograms, angleNr).value.1;
      && |t.cellChanges| == |t.cells| == |flags|
      && |t.chapters| == 1 + CountTrue(flags)
      && t.chapters[|t.chapters| - 1] == |node| - 1
      && (CountTrue(flags) > 0 ==> t.chapters[0] == 0)
      && (forall i :: 0 <= i < |flags| && flags[i] && CountTrue(flags[..i]) + 1 < |t.chapters| - 1 ==>
            t.chapters[CountTrue(flags[..i]) + 1] == ChapterMark(flags, t.cellChanges, i))
      && (t.patchedEndChapter.Some? <==>
            ([0] + ChapterMarks(flags, t.cellChanges, |flags|))[|t.chapters| - 1] != |node| - 1)
  {
    var t := TitleSpec(ifos, titleNr, angleNr, node, tags).value;
    var loc := Locate(ifos, titleNr, angleNr).value;
    var flags := WalkSpec(loc.pgc, loc.targetPrograms, angleNr).value.1;
    var fin := FinishChapters(ChapterMarks(flags, t.cellChanges, |flags|), |node| - 1);
    assert |t.cellChanges| == |flags| && t.chapters == fin.0 && t.patchedEndChapter == fin.1;
    FinishedMarks(flags, t.cellChanges, |node| - 1);
  }

  /** The finished chapter list of the marks of all chapter cells: 0, then
      one mark per chapter cell in order, the last entry set to the last
      frame. */
  lemma FinishedMarks(flags: seq<bool>, changes: seq<int>, lastFrame: int)
    requires |changes| == |flags|
    ensures var fin := FinishChapters(ChapterMarks(flags, changes, |flags|), lastFrame);
      && |fin.0| == 1 + CountTrue(flags)
      && fin.0[|fin.0| - 1] == lastFrame
      && (CountTrue(flags) > 0 ==> fin.0[0] == 0)
      && (forall i :: 0 <= i < |flags| && flags[i] && CountTrue(flags[..i]) + 1 < |fin.0| - 1 ==>
            fin.0[CountTrue(flags[..i]) + 1] == ChapterMark(flags, changes, i))
      && (fin.1.Some? <==> ([0] + ChapterMarks(flags, changes, |flags|))[|fin.0| - 1] != lastFrame)
  {
    ChapterMarksCount(flags, changes, |flags|);
    assert flags[..|flags|] == flags;
  }

  // ================= ordering of the chapter list =================

  predicate Nondecreasing(s: seq<int>)
  {
    forall a, b :: 0 <= a < b < |s| ==> s[a] <= s[b]
  }

  predicate Within(s: seq<int>, lo: int, hi: int)
  {
    forall a :: 0 <= a < |s| ==> lo <= s[a] <= hi
  }

  /** With the cell changes ordered, a chapter cell's mark is no later than
      the mark of any later chapter cell. */
  lemma MarkBefore(isChapter: seq<bool>, changes: seq<int>, p: nat, q: nat)
    requires |changes| == |isChapter| && p < q < |isChapter| && isChapter[q]
    requires Nondecreasing(changes)
    ensures ChapterMark(isChapter, changes, p) <= ChapterMark(isChapter, changes, q)
  {
    NextChapterIsFirst(isChapter, p);
    NextChapterIsFirst(isChapter, q);
    var j := NextChapter(isChapter, p).value;
    assert j <= q;
  }

  lemma {:induction false} MarksOrdered(isChapter: seq<bool>, changes: seq<int>, k: nat, lo: int, hi: int)
    requires |changes| == |isChapter| && k <= |isChapter|
    requires Nondecreasing(changes) && Within(changes, lo, hi)
    ensures var m := ChapterMarks(isChapter, changes, k);
      && Nondecreasing(m) && Within(m, lo, hi)
      && forall x, q :: 0 <= x < |m| && k <= q < |isChapter| && isChapter[q] ==> m[x] <= ChapterMark(isChapter, changes, q)
  {
    if k > 0 {
      MarksOrdered(isChapter, changes, k - 1, lo, hi);
      var m0 := ChapterMarks(isChapter, changes, k - 1);
      var m := ChapterMarks(isChapter, changes, k);
      forall q | k <= q < |isChapter| && isChapter[q]
        ensures ChapterMark(isChapter, changes, k - 1) <= ChapterMark(isChapter, changes, q)
      {
        MarkBefore(isChapter, changes, k - 1, q);
      }
      if isChapter[k - 1] {
        NextChapterIsFirst(isChapter, k - 1);
        assert m == m0 + [ChapterMark(isChapter, changes, k - 1)];
      }
    }
  }

  /** Patching the last entry to the last frame keeps an ordered list of
      marks ordered. */
  lemma FinishOrdered(marks: seq<int>, lastFrame: int)
    requires lastFrame >= 0 && Nondecreasing(marks) && Within(marks, 0, lastFrame)
    ensures Nondecreasing(FinishChapters(marks, lastFrame).0)
    ensures Within(FinishChapters(marks, lastFrame).0, 0, lastFrame)
  {
  }

  /** The `changes` list is ordered and lies in `[0, len(node) - 1]` when
      every frame has a tag. */
  lemma ChangesOrdered(tags: seq<CellKey>, nodeLen: nat)
    requires |tags| == nodeLen > 0
    ensures Nondecreasing(CellChanges(tags, |tags|) + [nodeLen - 1])
    ensures Within(CellChanges(tags, |tags|) + [nodeLen - 1], 0, nodeLen - 1)
  {
    CellChangesExactly(tags, |tags|);
  }

  /** When the tag array covers the node frame for frame, the chapter list of
      a resolved title is ordered and every entry is a frame of the node. */
  lemma TitleChaptersOrdered<F>(ifos: seq<Ifo>, titleNr: int, angleNr: Option<int>, node: seq<F>, tags: seq<CellKey>)
    requires TitleSpec(ifos, titleNr, angleNr, node, tags).Success?
    requires |tags| == |node| > 0
    ensures Nondecreasing(TitleSpec(ifos, titleNr, angleNr, node, tags).value.chapters)
    ensures Within(TitleSpec(ifos, titleNr, angleNr, node, tags).value.chapters, 0, |node| - 1)
  {
    var t := TitleSpec(ifos, titleNr, angleNr, node, tags).value;
    var loc := Locate(ifos, titleNr, angleNr).value;
    var flags := WalkSpec(loc.pgc, loc.targetPrograms, angleNr).value.1;
    ChangesOrdered(tags, |node|);
    MarksOrdered(flags, t.cellChanges, |flags|, 0, |node| - 1);
    FinishOrdered(ChapterMarks(flags, t.cellChanges, |flags|), |node| - 1);
  }
}
