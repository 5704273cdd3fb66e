/** Which lines a change touched, file by file, and each file as it was before
    (`changed_lines.rs`). */
module ChangedLines {
  import opened Text
  import opened ChangeClass
  import opened UnifiedDiff
  import opened DiffRevert
  import opened DiffRoundTrip

  // ---------- what the collections hold, as functions of the runs ----------

  function RunsOf(runs: seq<HunkText>, path: string): seq<HunkText> {
    if runs == [] then []
    else (if runs[0].path == path then [runs[0]] else []) + RunsOf(runs[1..], path)
  }

  function AddedIn(runs: seq<HunkText>): seq<(nat, nat)> {
    if runs == [] then []
    else (if runs[0].newLen > 0 then [runs[0].NewRange()] else []) + AddedIn(runs[1..])
  }

  function RemovedIn(runs: seq<HunkText>): string {
    if runs == [] then "" else Unlines(runs[0].removed) + RemovedIn(runs[1..])
  }

  predicate Touched(ranges: seq<(nat, nat)>, from: nat, to: nat) {
    exists k :: 0 <= k < |ranges| && InRange(ranges[k], from, to)
  }

  /** Where the removed lines stood, and where on the new side they were. */
  function RemovedRange(h: HunkText): (nat, nat, nat)
    requires h.oldLen > 0
  {
    (h.oldStart, h.oldStart + h.oldLen - 1, h.NewRange().0)
  }

  /** The old-side lines of each run that removed something, with its new-side anchor. */
  function RemovedRanges(runs: seq<HunkText>): seq<(nat, nat, nat)> {
    if runs == [] then []
    else (if runs[0].oldLen > 0 then [RemovedRange(runs[0])] else []) + RemovedRanges(runs[1..])
  }

  lemma {:induction false} RunsOfAppend(runs: seq<HunkText>, h: HunkText, path: string)
    ensures RunsOf(runs + [h], path) == RunsOf(runs, path) + if h.path == path then [h] else []
  {
    if runs == [] {
      assert runs + [h] == [h];
    } else {
      assert (runs + [h])[1..] == runs[1..] + [h];
      RunsOfAppend(runs[1..], h, path);
      ConcatAssociates(if runs[0].path == path then [runs[0]] else [], RunsOf(runs[1..], path),
                       if h.path == path then [h] else []);
    }
  }

  lemma {:induction false} AddedInAppend(runs: seq<HunkText>, h: HunkText)
    ensures AddedIn(runs + [h]) == AddedIn(runs) + if h.newLen > 0 then [h.NewRange()] else []
  {
    if runs == [] {
      assert runs + [h] == [h];
    } else {
      assert (runs + [h])[1..] == runs[1..] + [h];
      AddedInAppend(runs[1..], h);
      ConcatAssociates(if runs[0].newLen > 0 then [runs[0].NewRange()] else [], AddedIn(runs[1..]),
                       if h.newLen > 0 then [h.NewRange()] else []);
    }
  }

  lemma {:induction false} RemovedInAppend(runs: seq<HunkText>, h: HunkText)
    ensures RemovedIn(runs + [h]) == RemovedIn(runs) + Unlines(h.removed)
  {
    if runs == [] {
      assert runs + [h] == [h];
    } else {
      assert (runs + [h])[1..] == runs[1..] + [h];
      RemovedInAppend(runs[1..], h);
    }
  }

  function Get<T>(m: map<string, T>, key: string, default: T): T {
    if key in m then m[key] else default
  }

  /** The entry of `key` extended; nothing to add leaves the map as it is. */
  function Extended<T>(m: map<string, seq<T>>, key: string, more: seq<T>): (m': map<string, seq<T>>)
    ensures Get(m', key, []) == Get(m, key, []) + more
    ensures forall other | other != key :: Get(m', other, []) == Get(m, other, [])
    ensures more != [] ==> m'.Keys == m.Keys + {key}
  {
    if more == [] then m else m[key := Get(m, key, []) + more]
  }

  /** What the four collections hold for one file, given its runs. */
  ghost predicate Describes(files: set<string>, added: map<string, seq<(nat, nat)>>, removed: map<string, seq<char>>,
                            runs: map<string, seq<HunkText>>, rel: string, hunks: seq<HunkText>) {
    && (rel in files <==> hunks != []) && (rel in runs <==> hunks != [])
    && Get(runs, rel, []) == hunks
    && Get(added, rel, []) == AddedIn(hunks)
    && Get(removed, rel, "") == RemovedIn(hunks)
  }

  lemma DescribesNext(files: set<string>, added: map<string, seq<(nat, nat)>>, removed: map<string, seq<char>>,
                      runs: map<string, seq<HunkText>>, hunks: seq<HunkText>, hunk: HunkText, rel: string)
    requires Describes(files, added, removed, runs, rel, RunsOf(hunks, rel))
    ensures Describes(files + {hunk.path},
                      Extended(added, hunk.path, if hunk.newLen > 0 then [hunk.NewRange()] else []),
                      Extended(removed, hunk.path, Unlines(hunk.removed)),
                      Extended(runs, hunk.path, [hunk]),
                      rel, RunsOf(hunks + [hunk], rel))
  {
    RunsOfAppend(hunks, hunk, rel);
    AddedInAppend(RunsOf(hunks, rel), hunk);
    RemovedInAppend(RunsOf(hunks, rel), hunk);
    if rel != hunk.path {
      assert RunsOf(hunks, rel) + [] == RunsOf(hunks, rel);
    }
  }

  class ChangedLines {
    var files: set<string>
    var added: map<string, seq<(nat, nat)>>
    var removed: map<string, seq<char>>
    var runs: map<string, seq<HunkText>>

    /** The four collections are those of a list of runs. */
    ghost predicate Holds(hunks: seq<HunkText>)
      reads this
    {
      forall rel :: Describes(files, added, removed, runs, rel, RunsOf(hunks, rel))
    }

    constructor ()
      ensures Holds([])
    {
      files, added, removed, runs := {}, map[], map[], map[];
    }

    method Insert(hunk: HunkText, ghost hunks: seq<HunkText>)
      requires Holds(hunks)
      modifies this
      ensures Holds(hunks + [hunk])
    {
      files := files + {hunk.path};
      added := Extended(added, hunk.path,
                        if hunk.newLen > 0 then [(hunk.newStart, hunk.newStart + hunk.newLen - 1)] else []);
      runs := Extended(runs, hunk.path, [hunk]);
      removed := Extended(removed, hunk.path, Unlines(hunk.removed));
      forall rel
        ensures Describes(files, added, removed, runs, rel, RunsOf(hunks + [hunk], rel))
      {
        DescribesNext(old(files), old(added), old(removed), old(runs), hunks, hunk, rel);
      }
    }

    /** Whether the change added or rewrote a line in `from..=to`. */
    predicate Touches(rel: string, from: nat, to: nat)
      reads this
    {
      rel in added && Touched(added[rel], from, to)
    }

    /** The file before the change and where its removed lines stood; `None` when the runs do
        not describe the text. */
    method BaseSide(rel: string, newText: string) returns (r: Option<(string, seq<(nat, nat, nat)>)>)
      ensures rel !in runs ==> r == None
      ensures rel in runs ==> r == BaseSideOf(runs[rel], newText)
    {
      if rel !in runs {
        return None;
      }
      var before := Reverted(newText, runs[rel]);
      if before == None {
        return None;
      }
      return Some((before.value, RemovedRanges(runs[rel])));
    }
  }

  function BaseSideOf(runs: seq<HunkText>, newText: string): Option<(string, seq<(nat, nat, nat)>)> {
    match RevertedText(newText, runs)
    case None => None
    case Some(before) => Some((before, RemovedRanges(runs)))
  }

  method FromDiff(diffText: string, unquote: string -> string) returns (lines: ChangedLines)
    ensures fresh(lines) && lines.Holds(RunsIn(diffText, unquote))
  {
    lines := new ChangedLines();
    var hunks := HunkTexts(diffText, unquote);
    for i := 0 to |hunks|
      invariant fresh(lines) && lines.Holds(hunks[..i])
    {
      lines.Insert(hunks[i], hunks[..i]);
      assert hunks[..i + 1] == hunks[..i] + [hunks[i]];
    }
    assert hunks[..|hunks|] == hunks;
  }

  // ---------- the base side of any diff ----------

  lemma ReadChangeWellFormed(r: Reader, removed: bool, text: string)
    requires r.Ok() && WellFormedRuns(r.out)
    ensures WellFormedRuns(ReadChange(r, removed, text).out)
  {
    var opening := HunkText(PathOf(r.oldPath, r.newPath), r.oldNo, 0, r.newNo, 0, [], []);
    var out := if r.open then r.out else r.out + [opening];
    assert WellFormedRuns(out);
    assert out[|out| - 1] in out && forall h | h in out[..|out| - 1] :: h in out;
  }

  lemma {:induction false} ReadLinesWellFormed(r: Reader, lines: seq<string>, unquote: string -> string)
    requires r.Ok() && WellFormedRuns(r.out)
    ensures WellFormedRuns(ReadLines(r, lines, unquote).out)
    decreases |lines|
  {
    if lines != [] {
      var line := lines[0];
      var r' := ReadLine(r, line, unquote);
      var tail := if line == "" then "" else line[1..];
      ReadChangeWellFormed(r, true, tail);
      ReadChangeWellFormed(r, false, tail);
      ReadLinesWellFormed(r', lines[1..], unquote);
    }
  }

  /** Whatever the diff text, the lengths of the runs agree with their texts. */
  lemma RunsInWellFormed(diffText: string, unquote: string -> string, path: string)
    ensures WellFormedRuns(RunsIn(diffText, unquote))
    ensures WellFormedRuns(RunsOf(RunsIn(diffText, unquote), path))
  {
    ReadLinesWellFormed(START, Lines(diffText), unquote);
    var raw := ReadLines(START, Lines(diffText), unquote).out;
    forall run | run in FixUpAll(raw)
      ensures run.WellFormed()
    {
      var i :| 0 <= i < |raw| && FixUpAll(raw)[i] == run;
      assert raw[i] in raw;
    }
    RunsOfWithin(RunsIn(diffText, unquote), path);
  }

  lemma {:induction false} RunsOfWithin(runs: seq<HunkText>, path: string)
    ensures forall h | h in RunsOf(runs, path) :: h in runs && h.path == path
  {
    if runs != [] {
      RunsOfWithin(runs[1..], path);
    }
  }

  /** The runs that removed something. */
  function Removing(runs: seq<HunkText>): (r: seq<HunkText>)
    ensures forall h | h in r :: h in runs && h.oldLen > 0
    ensures |r| == |RemovedRanges(runs)|
  {
    if runs == [] then [] else (if runs[0].oldLen > 0 then [runs[0]] else []) + Removing(runs[1..])
  }

  lemma {:induction false} RemovedRangesAt(runs: seq<HunkText>, k: nat)
    requires k < |Removing(runs)|
    ensures RemovedRanges(runs)[k] == RemovedRange(Removing(runs)[k])
  {
    var rest, others := RemovedRanges(runs[1..]), Removing(runs[1..]);
    if runs[0].oldLen == 0 {
      RemovedRangesAt(runs[1..], k);
      assert [] + rest == rest && [] + others == others;
    } else if k > 0 {
      RemovedRangesAt(runs[1..], k - 1);
      assert ([RemovedRange(runs[0])] + rest)[k] == rest[k - 1];
      assert ([runs[0]] + others)[k] == others[k - 1];
    }
  }

  /** The number of new lines above each run that removed something: as many as stand above it on
      the old side, and what the runs before it added more than they removed. */
  function NewLinesAbove(runs: seq<HunkText>, shift: int): (r: seq<int>)
    ensures |r| == |RemovedRanges(runs)|
  {
    if runs == [] then []
    else
      (if runs[0].oldLen > 0 then [runs[0].oldStart - 1 + shift] else [])
      + NewLinesAbove(runs[1..], shift + |runs[0].added| - |runs[0].removed|)
  }

  /** The anchor of a run that stands below `above` new lines: its first added line, and when it
      adds none the line above it, or line 1. */
  ghost predicate Anchors(anchor: nat, above: int, run: HunkText, after: seq<string>) {
    && 0 <= above <= |after|
    && (if run.added == [] then anchor == if above == 0 then 1 else above
        else above < |after| && anchor == above + 1 && after[above] == TrimEndCR(run.added[0]))
  }

  lemma RunAnchors(before: seq<string>, i: nat, after: seq<string>, j: nat, run: HunkText)
    requires i <= |before| && j <= |after| && Fits(before, i, after, j, run) && run.WellFormed() && run.oldLen > 0
    ensures Anchors(RemovedRange(run).2, run.oldStart - 1 + j - i, run, after)
    ensures End(run.newStart, run.newLen) - End(run.oldStart, run.oldLen) == j - i + |run.added| - |run.removed|
  {
    var oldAt, newAt := At(run.oldStart, run.oldLen), At(run.newStart, run.newLen);
    assert |before[i..oldAt]| == |after[j..newAt]|;
    if run.added != [] {
      assert after[newAt..End(run.newStart, run.newLen)][0] == Trimmed(run.added)[0];
    }
  }

  lemma EndsShift(before: seq<string>, i: nat, after: seq<string>, j: nat, run: HunkText)
    requires i <= |before| && j <= |after| && Fits(before, i, after, j, run) && run.WellFormed()
    ensures End(run.newStart, run.newLen) - End(run.oldStart, run.oldLen) == j - i + |run.added| - |run.removed|
  {
    assert |before[i..At(run.oldStart, run.oldLen)]| == |after[j..At(run.newStart, run.newLen)]|;
  }

  /** Every run that removed something is anchored where its lines stood on the new side. */
  ghost predicate Anchored(runs: seq<HunkText>, shift: int, after: seq<string>) {
    runs != [] ==>
      && (runs[0].oldLen > 0 ==> Anchors(RemovedRange(runs[0]).2, runs[0].oldStart - 1 + shift, runs[0], after))
      && Anchored(runs[1..], shift + |runs[0].added| - |runs[0].removed|, after)
  }

  /** The k-th anchor. */
  ghost predicate AnchorAt(runs: seq<HunkText>, shift: int, after: seq<string>, k: nat) {
    && k < |RemovedRanges(runs)|
    && Anchors(RemovedRanges(runs)[k].2, NewLinesAbove(runs, shift)[k], Removing(runs)[k], after)
  }

  lemma FirstAnchor(runs: seq<HunkText>, shift: int, after: seq<string>)
    requires runs != [] && runs[0].oldLen > 0 && Anchored(runs, shift, after)
    ensures AnchorAt(runs, shift, after, 0)
  {}

  lemma LaterAnchor(runs: seq<HunkText>, shift: int, after: seq<string>, rest: seq<HunkText>, shift': int, k: nat)
    requires runs != [] && rest == runs[1..] && shift' == shift + |runs[0].added| - |runs[0].removed|
    requires AnchorAt(rest, shift', after, k)
    ensures AnchorAt(runs, shift, after, if runs[0].oldLen > 0 then k + 1 else k)
  {
    AnchorsRest(runs, shift, rest, shift', k);
  }

  lemma AnchoredRest(runs: seq<HunkText>, shift: int, after: seq<string>, rest: seq<HunkText>, shift': int)
    requires runs != [] && rest == runs[1..] && shift' == shift + |runs[0].added| - |runs[0].removed|
    requires Anchored(runs, shift, after)
    ensures Anchored(rest, shift', after)
    ensures |RemovedRanges(rest)| + (if runs[0].oldLen > 0 then 1 else 0) == |RemovedRanges(runs)|
  {}

  lemma {:induction false} AnchoredAt(runs: seq<HunkText>, shift: int, after: seq<string>, k: nat)
    requires Anchored(runs, shift, after) && k < |RemovedRanges(runs)|
    ensures AnchorAt(runs, shift, after, k)
    decreases |runs|
  {
    var own := if runs[0].oldLen > 0 then 1 else 0;
    if k < own {
      FirstAnchor(runs, shift, after);
    } else {
      var rest, shift' := runs[1..], shift + |runs[0].added| - |runs[0].removed|;
      AnchoredRest(runs, shift, after, rest, shift');
      AnchoredAt(rest, shift', after, k - own);
      LaterAnchor(runs, shift, after, rest, shift', k - own);
    }
  }

  lemma AnchoredFirst(
    before: seq<string>, i: nat, after: seq<string>, j: nat, runs: seq<HunkText>, shift: int, shift': int)
    requires i <= |before| && j <= |after| && runs != [] && Fits(before, i, after, j, runs[0]) && runs[0].WellFormed()
    requires shift == j - i && shift' == shift + |runs[0].added| - |runs[0].removed|
    requires Anchored(runs[1..], shift', after)
    ensures Anchored(runs, shift, after)
  {
    if runs[0].oldLen > 0 {
      RunAnchors(before, i, after, j, runs[0]);
    }
  }

  lemma {:induction false} AlignedAnchors(
    before: seq<string>, i: nat, after: seq<string>, j: nat, runs: seq<HunkText>, shift: int)
    requires i <= |before| && j <= |after| && Aligned(before, i, after, j, runs) && WellFormedRuns(runs)
    requires shift == j - i
    ensures Anchored(runs, shift, after)
    decreases |runs|
  {
    if runs != [] {
      var i', j' := End(runs[0].oldStart, runs[0].oldLen), End(runs[0].newStart, runs[0].newLen);
      RestAligned(before, i, after, j, runs);
      var shift': int := j' as int - i';
      AlignedAnchors(before, i', after, j', runs[1..], shift');
      assert runs[0].WellFormed();
      AnchoredFirst(before, i, after, j, runs, shift, shift');
    }
  }

  lemma RestAligned(before: seq<string>, i: nat, after: seq<string>, j: nat, runs: seq<HunkText>)
    requires i <= |before| && j <= |after| && runs != [] && Aligned(before, i, after, j, runs) && WellFormedRuns(runs)
    ensures var run := runs[0];
            var i', j' := End(run.oldStart, run.oldLen), End(run.newStart, run.newLen);
      && i' <= |before| && j' <= |after| && Aligned(before, i', after, j', runs[1..]) && WellFormedRuns(runs[1..])
      && j' - i' == j - i + |run.added| - |run.removed|
  {
    assert runs[0].WellFormed();
    EndsShift(before, i, after, j, runs[0]);
  }

  /** A later run of the list. */
  lemma AnchorsRest(runs: seq<HunkText>, shift: int, rest: seq<HunkText>, shift': int, k: nat)
    requires runs != [] && rest == runs[1..] && shift' == shift + |runs[0].added| - |runs[0].removed|
    requires k < |RemovedRanges(rest)|
    ensures var k' := if runs[0].oldLen > 0 then k + 1 else k;
      && k' < |RemovedRanges(runs)|
      && RemovedRanges(runs)[k'] == RemovedRanges(rest)[k]
      && Removing(runs)[k'] == Removing(rest)[k]
      && NewLinesAbove(runs, shift)[k'] == NewLinesAbove(rest, shift')[k]
  {
    RangesRest(runs, rest, k);
    RemovingRest(runs, rest, k);
    AboveRest(runs, shift, rest, shift', k);
  }

  lemma RangesRest(runs: seq<HunkText>, rest: seq<HunkText>, k: nat)
    requires runs != [] && rest == runs[1..] && k < |RemovedRanges(rest)|
    ensures var k' := if runs[0].oldLen > 0 then k + 1 else k;
            k' < |RemovedRanges(runs)| && RemovedRanges(runs)[k'] == RemovedRanges(rest)[k]
  {
    LaterOf(if runs[0].oldLen > 0 then [RemovedRange(runs[0])] else [], RemovedRanges(rest), k);
  }

  lemma RemovingRest(runs: seq<HunkText>, rest: seq<HunkText>, k: nat)
    requires runs != [] && rest == runs[1..] && k < |Removing(rest)|
    ensures var k' := if runs[0].oldLen > 0 then k + 1 else k;
            k' < |Removing(runs)| && Removing(runs)[k'] == Removing(rest)[k]
  {
    LaterOf(if runs[0].oldLen > 0 then [runs[0]] else [], Removing(rest), k);
  }

  lemma AboveRest(runs: seq<HunkText>, shift: int, rest: seq<HunkText>, shift': int, k: nat)
    requires runs != [] && rest == runs[1..] && shift' == shift + |runs[0].added| - |runs[0].removed|
    requires k < |NewLinesAbove(rest, shift')|
    ensures var k' := if runs[0].oldLen > 0 then k + 1 else k;
            k' < |NewLinesAbove(runs, shift)| && NewLinesAbove(runs, shift)[k'] == NewLinesAbove(rest, shift')[k]
  {
    var own := if runs[0].oldLen > 0 then [runs[0].oldStart - 1 + shift] else [];
    assert NewLinesAbove(runs, shift) == own + NewLinesAbove(rest, shift');
    LaterOf(own, NewLinesAbove(rest, shift'), k);
  }

  lemma LaterOf<T>(own: seq<T>, rest: seq<T>, k: nat)
    requires k < |rest|
    ensures (own + rest)[|own| + k] == rest[k]
  {
  }

  /** The ranges come in order and do not touch what lies above line `from`. */
  ghost predicate Ascending(ranges: seq<(nat, nat, nat)>, from: nat) {
    ranges != [] ==> from < ranges[0].0 <= ranges[0].1 && Ascending(ranges[1..], ranges[0].1)
  }

  lemma AscendingFrom(ranges: seq<(nat, nat, nat)>, from: nat, from': nat)
    requires Ascending(ranges, from) && from' <= from
    ensures Ascending(ranges, from')
  {}

  lemma {:induction false} AlignedAscends(
    before: seq<string>, i: nat, after: seq<string>, j: nat, runs: seq<HunkText>)
    requires i <= |before| && j <= |after| && Aligned(before, i, after, j, runs) && WellFormedRuns(runs)
    ensures Ascending(RemovedRanges(runs), i)
    decreases |runs|
  {
    if runs != [] {
      var run := runs[0];
      var i' := End(run.oldStart, run.oldLen);
      RestAligned(before, i, after, j, runs);
      AlignedAscends(before, i', after, End(run.newStart, run.newLen), runs[1..]);
      AscendingNext(run, RemovedRanges(runs[1..]), i, i');
    }
  }

  lemma AscendingNext(run: HunkText, rest: seq<(nat, nat, nat)>, i: nat, i': nat)
    requires i <= At(run.oldStart, run.oldLen) && i' == End(run.oldStart, run.oldLen) && Ascending(rest, i')
    ensures Ascending((if run.oldLen > 0 then [RemovedRange(run)] else []) + rest, i)
  {
    if run.oldLen > 0 {
      assert ([RemovedRange(run)] + rest)[1..] == rest;
    } else {
      assert [] + rest == rest;
      AscendingFrom(rest, i', i);
    }
  }

  lemma RangeCuts(runs: seq<HunkText>, before: seq<string>, after: seq<string>, k: nat)
    requires Aligned(before, 0, after, 0, runs) && k < |RemovedRanges(runs)|
    ensures var (from, to, _) := RemovedRanges(runs)[k];
      && 1 <= from <= to <= |before|
      && before[from - 1..to] == Trimmed(Removing(runs)[k].removed)
  {
    RemovedRangesAt(runs, k);
    AlignedCuts(before, 0, after, 0, runs, Removing(runs)[k]);
  }

  /** The k-th range is of the lines the k-th run that removed something took out of `before`, with
      the place where they stood in `after`. */
  ghost predicate RangeStands(runs: seq<HunkText>, k: nat, before: seq<string>, after: seq<string>)
    requires k < |RemovedRanges(runs)|
  {
    var (from, to, anchor) := RemovedRanges(runs)[k];
    && 1 <= from <= to <= |before| && before[from - 1..to] == Trimmed(Removing(runs)[k].removed)
    && Anchors(anchor, NewLinesAbove(runs, 0)[k], Removing(runs)[k], after)
  }

  /** `base_side` on the runs of any diff: what it returns takes the runs forward to the text
      after the change, and each range it reports cuts exactly one run's removed lines out. */
  lemma BaseSideCuts(diffText: string, unquote: string -> string, path: string, newText: string)
    returns (before: seq<string>)
    requires BaseSideOf(RunsOf(RunsIn(diffText, unquote), path), newText).Some?
    ensures var runs := RunsOf(RunsIn(diffText, unquote), path);
            var base := BaseSideOf(runs, newText).value;
      && base.0 == JoinLines(before)
      && ReplayFrom(before, 0, [], runs) == Some(Lines(newText))
      && base.1 == RemovedRanges(runs)
      && forall k | 0 <= k < |base.1| :: RangeStands(runs, k, before, Lines(newText))
    ensures Ascending(BaseSideOf(RunsOf(RunsIn(diffText, unquote), path), newText).value.1, 0)
  {
    var runs := RunsOf(RunsIn(diffText, unquote), path);
    RunsInWellFormed(diffText, unquote, path);
    before := BaseSideReplays(runs, newText);
    AlignedAnchors(before, 0, Lines(newText), 0, runs, 0);
    AlignedAscends(before, 0, Lines(newText), 0, runs);
    forall k | 0 <= k < |RemovedRanges(runs)|
      ensures RangeStands(runs, k, before, Lines(newText))
    {
      RangeCuts(runs, before, Lines(newText), k);
      AnchoredAt(runs, 0, Lines(newText), k);
    }
  }

  lemma BaseSideReplays(runs: seq<HunkText>, newText: string) returns (before: seq<string>)
    requires WellFormedRuns(runs) && BaseSideOf(runs, newText).Some?
    ensures BaseSideOf(runs, newText).value == (JoinLines(before), RemovedRanges(runs))
    ensures ReplayFrom(before, 0, [], runs) == Some(Lines(newText))
    ensures Aligned(before, 0, Lines(newText), 0, runs)
  {
    before := RevertFrom(Lines(newText), 0, [], runs).value;
    RevertedIffAligned(newText, runs, before);
    RevertedReplays(newText, runs);
  }

  // ---------- printed diffs ----------

  lemma {:induction false} RunsOfConcat(a: seq<HunkText>, b: seq<HunkText>, path: string)
    ensures RunsOf(a + b, path) == RunsOf(a, path) + RunsOf(b, path)
    decreases |a|
  {
    if a == [] {
      assert a + b == b;
    } else {
      assert (a + b)[1..] == a[1..] + b;
      RunsOfConcat(a[1..], b, path);
      ConcatAssociates(if a[0].path == path then [a[0]] else [], RunsOf(a[1..], path), RunsOf(b, path));
    }
  }

  lemma {:induction false} RunsOfOnePath(runs: seq<HunkText>, path: string, other: string)
    requires forall h | h in runs :: h.path == path
    ensures RunsOf(runs, other) == if other == path then runs else []
  {
    if runs != [] {
      RunsOfOnePath(runs[1..], path, other);
    }
  }

  /** The runs of every section of the path, one section after the other. */
  function SectionRuns(files: seq<FileDiff>, path: string): seq<HunkText> {
    if files == [] then []
    else
      (if files[0].Path() == path then Runs(files[0]) else []) + SectionRuns(files[1..], path)
  }

  lemma {:induction false} RunsOfFiles(files: seq<FileDiff>, path: string)
    ensures RunsOf(AllRuns(files), path) == SectionRuns(files, path)
    decreases |files|
  {
    if files != [] {
      var f, rest := files[0], files[1..];
      BlocksWellFormed(f.Path(), StripScript(f.script), 0, NOTHING);
      RunsOfConcat(Runs(f), AllRuns(rest), path);
      RunsOfOnePath(Runs(f), f.Path(), path);
      RunsOfFiles(rest, path);
    }
  }

  /** Reading a printed diff and selecting a path gives the runs of the path's sections. */
  lemma PathReads(files: seq<FileDiff>, unquote: string -> string, path: string)
    requires PrintableDiff(files, unquote) && forall f | f in files :: Sided(f.script, f.marks, 0)
    ensures RunsOf(RunsIn(DiffText(files), unquote), path) == SectionRuns(files, path)
  {
    DiffReads(files, unquote);
    RunsOfFiles(files, path);
  }

  lemma {:induction false} SectionRunsConcat(a: seq<FileDiff>, b: seq<FileDiff>, path: string)
    ensures SectionRuns(a + b, path) == SectionRuns(a, path) + SectionRuns(b, path)
    decreases |a|
  {
    if a == [] {
      assert a + b == b;
    } else {
      assert (a + b)[1..] == a[1..] + b;
      SectionRunsConcat(a[1..], b, path);
      ConcatAssociates(if a[0].Path() == path then Runs(a[0]) else [],
                       SectionRuns(a[1..], path), SectionRuns(b, path));
    }
  }

  /** Sections of the path that change no line, or none at all. */
  ghost predicate Idle(files: seq<FileDiff>, path: string) {
    forall i | 0 <= i < |files| && files[i].Path() == path :: !Changes(files[i].script)
  }

  predicate Changes(s: seq<Op>) { exists i :: 0 <= i < |s| && s[i].Change() }

  lemma {:induction false} NoBlocks(path: string, s: seq<Op>, i: nat, block: Block)
    requires i <= |s| && block.Empty() && !Changes(s)
    ensures BlocksFrom(path, s, i, block) == []
    decreases |s| - i
  {
    if i < |s| {
      assert !s[i].Change();
      NoBlocks(path, s, i + 1, block.Next(s[i]));
    }
  }

  lemma {:induction false} IdleSections(files: seq<FileDiff>, path: string)
    requires Idle(files, path)
    ensures SectionRuns(files, path) == []
    decreases |files|
  {
    if files != [] {
      if files[0].Path() == path {
        NoBlocks(path, StripScript(files[0].script), 0, NOTHING);
      }
      assert forall i | 0 <= i < |files[1..]| :: files[1..][i] == files[i + 1];
      IdleSections(files[1..], path);
    }
  }

  /** One section among idle ones. */
  lemma OneSection(files: seq<FileDiff>, k: nat)
    requires k < |files| && Idle(files[..k], files[k].Path()) && Idle(files[k + 1..], files[k].Path())
    ensures SectionRuns(files, files[k].Path()) == Runs(files[k])
  {
    var path := files[k].Path();
    IdleSections(files[..k], path);
    IdleSections(files[k + 1..], path);
    assert files == files[..k] + files[k..];
    SectionRunsConcat(files[..k], files[k..], path);
    SectionFirst(files[k..], files[k + 1..], path);
  }

  lemma SectionFirst(files: seq<FileDiff>, rest: seq<FileDiff>, path: string)
    requires files != [] && rest == files[1..] && files[0].Path() == path && SectionRuns(rest, path) == []
    ensures SectionRuns(files, path) == Runs(files[0])
  {}

  /** Where the text is taken apart does not depend on the carriage return reading takes off. */
  lemma StripLeavesRestored(s: seq<Op>, lines: seq<string>)
    ensures Takes(StripScript(s), lines) <==> Takes(s, lines)
    ensures Restored(StripScript(s), lines) == Restored(s, lines)
  {
    forall i | 0 <= i < |s|
      ensures |After(StripScript(s), i)| == |After(s, i)|
      ensures TrimEndCR(StripScript(s)[i].text) == TrimEndCR(s[i].text)
      ensures Restored(StripScript(s), lines)[i] == Restored(s, lines)[i]
    {
      StrippedSides(s, i);
      TrimOfStrip(s[i].text);
      assert StripScript(s)[i] == s[i].(text := StripCR(s[i].text));
      assert Restored(StripScript(s), lines)[i] == RestoredOp(StripScript(s), lines, i);
    }
  }

  lemma RunsRevert(f: FileDiff, newText: string)
    requires |Lines(newText)| == |f.NewLines()|
    ensures RevertedText(newText, Runs(f))
         == if Takes(f.script, Lines(newText)) then Some(JoinLines(f.Restores(Lines(newText)))) else None
  {
    var s := f.script;
    StripLeavesRestored(s, Lines(newText));
    StrippedSides(s, |s|);
    assert |Stripped(After(s, |s|))| == |After(s, |s|)|;
    CanonicalRevertsIff(f.Path(), StripScript(s), newText);
  }

  lemma OnlyRuns(files: seq<FileDiff>, unquote: string -> string, k: nat)
    requires PrintableDiff(files, unquote) && forall f | f in files :: Sided(f.script, f.marks, 0)
    requires k < |files| && Idle(files[..k], files[k].Path()) && Idle(files[k + 1..], files[k].Path())
    ensures RunsOf(RunsIn(DiffText(files), unquote), files[k].Path()) == Runs(files[k])
  {
    PathReads(files, unquote, files[k].Path());
    OneSection(files, k);
  }

  /** The round trip, for every text with as many lines as the section's new side: reading a
      printed diff and undoing it succeeds exactly when each added line is found there without the
      carriage returns at its end. It gives the kept lines as they are there and the removed ones
      without carriage returns at the end. No other section of the path may change a line. */
  lemma DiffRoundTripsIff(files: seq<FileDiff>, unquote: string -> string, k: nat, newText: string)
    requires PrintableDiff(files, unquote) && forall f | f in files :: Sided(f.script, f.marks, 0)
    requires k < |files| && Idle(files[..k], files[k].Path()) && Idle(files[k + 1..], files[k].Path())
    requires |Lines(newText)| == |files[k].NewLines()|
    ensures var runs := RunsOf(RunsIn(DiffText(files), unquote), files[k].Path());
            var base := BaseSideOf(runs, newText);
      && (base.Some? <==> Takes(files[k].script, Lines(newText)))
      && (base.Some? ==>
            && base.value.0 == JoinLines(files[k].Restores(Lines(newText)))
            && forall r :: r in base.value.1 <==> OfBlock(files[k].script, 0, r))
      && RevertedText(newText, runs) == if base.Some? then Some(base.value.0) else None
  {
    OnlyRuns(files, unquote, k);
    RunsRevert(files[k], newText);
    forall r
      ensures r in RemovedRanges(Runs(files[k])) <==> OfBlock(files[k].script, 0, r)
    {
      RangesOfSection(files[k], r);
    }
  }

  /** On the new lines without carriage returns at their ends, it gives the old lines without
      theirs. */
  lemma DiffRoundTrips(files: seq<FileDiff>, unquote: string -> string, k: nat, newText: string)
    requires PrintableDiff(files, unquote) && forall f | f in files :: Sided(f.script, f.marks, 0)
    requires k < |files| && Idle(files[..k], files[k].Path()) && Idle(files[k + 1..], files[k].Path())
    requires Lines(newText) == Trimmed(files[k].NewLines())
    ensures var runs := RunsOf(RunsIn(DiffText(files), unquote), files[k].Path());
      && runs == Runs(files[k])
      && RevertedText(newText, runs) == Some(JoinLines(Trimmed(files[k].OldLines())))
      && BaseSideOf(runs, newText).Some?
      && BaseSideOf(runs, newText).value.0 == JoinLines(Trimmed(files[k].OldLines()))
  {
    var f := files[k];
    OnlyRuns(files, unquote, k);
    StrippedSides(f.script, |f.script|);
    TrimmedOfStripped(f.OldLines());
    TrimmedOfStripped(f.NewLines());
    CanonicalReverts(f.Path(), StripScript(f.script), newText);
  }

  /** Lines that end in one carriage return at most, as those of a file with either kind of line
      ends do. */
  ghost predicate EitherEnds(lines: seq<string>) {
    forall i | 0 <= i < |lines| :: '\n' !in lines[i] && TrimEndCR(lines[i]) == StripCR(lines[i])
  }

  lemma EndsRead(lines: seq<string>)
    requires EitherEnds(lines)
    ensures Lines(Unlines(lines)) == Trimmed(lines)
  {
    LinesOfAny(lines);
    assert forall i | 0 <= i < |lines| :: Stripped(lines)[i] == Trimmed(lines)[i];
  }

  /** The new side of a file with either kind of line ends, or both, is such a text. */
  lemma FileRoundTrips(files: seq<FileDiff>, unquote: string -> string, k: nat)
    requires PrintableDiff(files, unquote) && forall f | f in files :: Sided(f.script, f.marks, 0)
    requires k < |files| && Idle(files[..k], files[k].Path()) && Idle(files[k + 1..], files[k].Path())
    requires EitherEnds(files[k].NewLines())
    ensures var runs := RunsOf(RunsIn(DiffText(files), unquote), files[k].Path());
            RevertedText(Unlines(files[k].NewLines()), runs) == Some(JoinLines(Trimmed(files[k].OldLines())))
  {
    EndsRead(files[k].NewLines());
    DiffRoundTrips(files, unquote, k, Unlines(files[k].NewLines()));
  }

  /** An added last line that ends in a carriage return and no line feed is not found. */
  lemma BareReturnIsNotFound()
    ensures var s := [Op(Add, "a\r", true)];
      && Lines("a\r") == After(s, 1)
      && RevertedText("a\r", CanonicalRuns("f", StripScript(s))) == None
  {
    var s := [Op(Add, "a\r", true)];
    IndexOfUnique("a\r", '\n', 2);
    assert After(s, 0) == [] && Lines("a\r") == ["a\r"];
    StrippedSides(s, 1);
    StripLeavesRestored(s, ["a\r"]);
    assert s[0].kind == Add && TrimEndCR("a\r") == "a";
    CanonicalRevertsIff("f", StripScript(s), "a\r");
  }

  // ---------- the ranges of a printed diff ----------

  /** Lines `i..j` of the script are a block: all changes, between lines that are none. */
  ghost predicate IsBlock(s: seq<Op>, i: nat, j: nat) {
    && i < j <= |s| && (forall k | i <= k < j :: s[k].Change())
    && (i == 0 || !s[i - 1].Change()) && (j == |s| || !s[j].Change())
  }

  /** What is to be reported of the block: its lines on the old side, and where it stands on the
      new one. */
  function BlockRange(s: seq<Op>, i: nat, j: nat): (nat, nat, nat)
    requires i <= j <= |s|
  {
    (|Before(s, i)| + 1, |Before(s, j)|,
     if |After(s, i)| < |After(s, j)| then |After(s, i)| + 1
     else if |After(s, i)| == 0 then 1 else |After(s, i)|)
  }

  /** `r` is that of a block that starts at line `from` or later and removes something. */
  ghost predicate OfBlock(s: seq<Op>, from: nat, r: (nat, nat, nat)) {
    exists i: nat, j: nat ::
      from <= i && IsBlock(s, i, j) && |Before(s, i)| < |Before(s, j)| && r == BlockRange(s, i, j)
  }

  /** The open block is that of the changes from line `b` to before line `i`. */
  ghost predicate OpenAt(s: seq<Op>, b: nat, i: nat, block: Block) {
    && b <= i <= |s| && (forall k | b <= k < i :: s[k].Change()) && (b == 0 || !s[b - 1].Change())
    && block.o == |Before(s, b)| && block.n == |After(s, b)|
    && |block.removed| == |Before(s, i)| - |Before(s, b)| && |block.added| == |After(s, i)| - |After(s, b)|
    && (block.Empty() <==> b == i)
  }

  lemma OpenNext(s: seq<Op>, b: nat, i: nat, block: Block)
    requires OpenAt(s, b, i, block) && i < |s|
    ensures OpenAt(s, if s[i].Change() then b else i + 1, i + 1, block.Next(s[i]))
  {
    SidesNext(s, i);
  }

  lemma OnlyBlock(s: seq<Op>, b: nat, i: nat, block: Block, x: nat, y: nat)
    requires OpenAt(s, b, i, block) && (i == |s| || !s[i].Change()) && b <= x && IsBlock(s, x, y)
    ensures (x == b && y == i) || x >= i + 1
  {}

  /** Blocks that start at `b` or later are the closed one and those that start behind it. */
  lemma ClosedBlocks(s: seq<Op>, b: nat, i: nat, block: Block, r: (nat, nat, nat))
    requires OpenAt(s, b, i, block) && (i == |s| || !s[i].Change())
    ensures OfBlock(s, b, r)
       <==> (block.removed != [] && r == BlockRange(s, b, i)) || OfBlock(s, i + 1, r)
  {
    if OfBlock(s, b, r) {
      var x: nat, y: nat :| b <= x && IsBlock(s, x, y) && |Before(s, x)| < |Before(s, y)| && r == BlockRange(s, x, y);
      OnlyBlock(s, b, i, block, x, y);
    }
    if block.removed != [] {
      assert b < i && IsBlock(s, b, i);
    }
  }

  lemma RangeOfRun(path: string, s: seq<Op>, b: nat, i: nat, block: Block)
    requires OpenAt(s, b, i, block) && block.removed != []
    ensures block.Run(path).oldLen > 0 && RemovedRange(block.Run(path)) == BlockRange(s, b, i)
  {
  }

  lemma RangesCons(run: HunkText, rest: seq<HunkText>, r: (nat, nat, nat))
    ensures r in RemovedRanges([run] + rest)
       <==> (run.oldLen > 0 && r == RemovedRange(run)) || r in RemovedRanges(rest)
  {
    assert ([run] + rest)[1..] == rest;
  }

  lemma {:induction false} BlockRanges(path: string, s: seq<Op>, b: nat, i: nat, block: Block, r: (nat, nat, nat))
    requires OpenAt(s, b, i, block)
    ensures r in RemovedRanges(BlocksFrom(path, s, i, block)) <==> OfBlock(s, b, r)
    decreases |s| - i
  {
    if i == |s| {
      LastRanges(path, s, b, block, r);
    } else {
      var next := block.Next(s[i]);
      OpenNext(s, b, i, block);
      BlocksNext(path, s, i, block);
      BlockRanges(path, s, if s[i].Change() then b else i + 1, i + 1, next, r);
      if !s[i].Change() {
        ClosedBlocks(s, b, i, block, r);
        ClosedRanges(path, s, b, i, block, BlocksFrom(path, s, i + 1, next), r);
        assert [] + BlocksFrom(path, s, i + 1, next) == BlocksFrom(path, s, i + 1, next);
      }
    }
  }

  lemma LastRanges(path: string, s: seq<Op>, b: nat, block: Block, r: (nat, nat, nat))
    requires OpenAt(s, b, |s|, block)
    ensures r in RemovedRanges(BlocksFrom(path, s, |s|, block)) <==> OfBlock(s, b, r)
  {
    ClosedBlocks(s, b, |s|, block, r);
    ClosedRanges(path, s, b, |s|, block, [], r);
    assert BlocksFrom(path, s, |s|, block) == (if block.Empty() then [] else [block.Run(path)]) + [];
  }

  lemma ClosedRanges(path: string, s: seq<Op>, b: nat, i: nat, block: Block, rest: seq<HunkText>, r: (nat, nat, nat))
    requires OpenAt(s, b, i, block)
    ensures r in RemovedRanges((if block.Empty() then [] else [block.Run(path)]) + rest)
       <==> (block.removed != [] && r == BlockRange(s, b, i)) || r in RemovedRanges(rest)
  {
    if block.Empty() {
      assert [] + rest == rest;
    } else {
      RangesCons(block.Run(path), rest, r);
      if block.removed != [] {
        RangeOfRun(path, s, b, i, block);
      }
    }
  }

  /** Only the kinds of the lines matter. */
  lemma SameKindBlocks(s: seq<Op>, t: seq<Op>, r: (nat, nat, nat))
    requires |t| == |s| && forall k | 0 <= k < |s| :: t[k].Change() == s[k].Change()
    requires forall k | 0 <= k <= |s| :: |Before(t, k)| == |Before(s, k)| && |After(t, k)| == |After(s, k)|
    ensures OfBlock(s, 0, r) ==> OfBlock(t, 0, r)
  {
    if OfBlock(s, 0, r) {
      var i: nat, j: nat :| IsBlock(s, i, j) && |Before(s, i)| < |Before(s, j)| && r == BlockRange(s, i, j);
      SameKindBlock(s, t, i, j);
    }
  }

  lemma SameKindBlock(s: seq<Op>, t: seq<Op>, i: nat, j: nat)
    requires |t| == |s| && (forall k | 0 <= k < |s| :: t[k].Change() == s[k].Change()) && IsBlock(s, i, j)
    ensures IsBlock(t, i, j)
  {}

  lemma StrippedBlocks(s: seq<Op>, r: (nat, nat, nat))
    ensures OfBlock(StripScript(s), 0, r) <==> OfBlock(s, 0, r)
  {
    var t := StripScript(s);
    forall k | 0 <= k <= |s|
      ensures |Before(t, k)| == |Before(s, k)| && |After(t, k)| == |After(s, k)|
    {
      StrippedSides(s, k);
      assert |Stripped(Before(s, k))| == |Before(s, k)| && |Stripped(After(s, k))| == |After(s, k)|;
    }
    SameKindBlocks(s, t, r);
    SameKindBlocks(t, s, r);
  }

  /** The ranges reported of a section are those of its blocks that remove something: their lines
      on the old side, each with its first added line, or the line above it when it adds none, or
      line 1. */
  lemma RangesOfSection(f: FileDiff, r: (nat, nat, nat))
    ensures r in RemovedRanges(Runs(f)) <==> OfBlock(f.script, 0, r)
  {
    BlockRanges(f.Path(), StripScript(f.script), 0, 0, NOTHING, r);
    StrippedBlocks(f.script, r);
  }

  // ---------- the removed text ----------

  /** The lines the script removes. */
  function Deleted(s: seq<Op>, i: nat): seq<string>
    requires i <= |s|
  {
    if i == 0 then [] else Deleted(s, i - 1) + if s[i - 1].kind == Del then [s[i - 1].text] else []
  }

  /** What is held as the removed text of a section: its removed lines, each with a line feed. */
  lemma RemovedTextOfSection(f: FileDiff)
    ensures RemovedIn(Runs(f)) == Unlines(Stripped(Deleted(f.script, |f.script|)))
  {
    var t := StripScript(f.script);
    assert Deleted(t, 0) + [] == [];
    BlocksRemove(f.Path(), t, 0, NOTHING, []);
    DeletedStripped(f.script, |f.script|);
    assert Unlines([]) + RemovedIn(Runs(f)) == RemovedIn(Runs(f));
  }

  lemma {:induction false} DeletedStripped(s: seq<Op>, i: nat)
    requires i <= |s|
    ensures Deleted(StripScript(s), i) == Stripped(Deleted(s, i))
    decreases i
  {
    if i > 0 {
      DeletedStripped(s, i - 1);
      StrippedIf(Deleted(s, i - 1), s[i - 1].text, s[i - 1].kind == Del);
    }
  }

  lemma RemovedCons(run: HunkText, rest: seq<HunkText>)
    ensures RemovedIn([run] + rest) == Unlines(run.removed) + RemovedIn(rest)
  {
    assert ([run] + rest)[1..] == rest;
  }

  lemma {:induction false} BlocksRemove(path: string, s: seq<Op>, i: nat, block: Block, done: seq<string>)
    requires i <= |s| && Deleted(s, i) == done + block.removed
    ensures Unlines(done) + RemovedIn(BlocksFrom(path, s, i, block)) == Unlines(Deleted(s, |s|))
    decreases |s| - i
  {
    if i == |s| {
      LastRemoves(path, s, block, done);
    } else {
      var next := block.Next(s[i]);
      BlocksNext(path, s, i, block);
      if s[i].Change() || block.Empty() {
        DeletedNext(s, i, block, done);
        BlocksRemove(path, s, i + 1, next, done);
      } else {
        var rest := BlocksFrom(path, s, i + 1, next);
        assert Deleted(s, i + 1) == Deleted(s, i) + [] == done + block.removed + [];
        BlocksRemove(path, s, i + 1, next, done + block.removed);
        RemovedCons(block.Run(path), rest);
        UnlinesConcat(done, block.removed);
        ConcatAssociates(Unlines(done), Unlines(block.removed), RemovedIn(rest));
      }
    }
  }

  lemma DeletedNext(s: seq<Op>, i: nat, block: Block, done: seq<string>)
    requires i < |s| && Deleted(s, i) == done + block.removed && (s[i].Change() || block.Empty())
    ensures Deleted(s, i + 1) == done + block.Next(s[i]).removed
  {
    if s[i].kind == Del {
      ConcatAssociates(done, block.removed, [s[i].text]);
    }
  }

  lemma LastRemoves(path: string, s: seq<Op>, block: Block, done: seq<string>)
    requires Deleted(s, |s|) == done + block.removed
    ensures Unlines(done) + RemovedIn(BlocksFrom(path, s, |s|, block)) == Unlines(Deleted(s, |s|))
  {
    UnlinesConcat(done, block.removed);
    if block.Empty() {
      assert RemovedIn([]) == "" && Unlines(block.removed) == "";
    } else {
      RemovedCons(block.Run(path), []);
      assert [block.Run(path)] + [] == [block.Run(path)];
      assert Unlines(block.removed) + "" == Unlines(block.removed);
    }
  }

  // ---------- a change of type ----------

  // Git prints a change of type as two sections of one path: the old file deleted, then the new
  // one created.

  predicate Deletes(s: seq<Op>) { forall i | 0 <= i < |s| :: s[i].kind == Del }

  predicate Creates(s: seq<Op>) { forall i | 0 <= i < |s| :: s[i].kind == Add }

  function BlockRun(path: string, removed: seq<string>, added: seq<string>): seq<HunkText> {
    var block := Block(0, 0, removed, added);
    if block.Empty() then [] else [block.Run(path)]
  }

  lemma {:induction false} DeletionIsOneRun(path: string, s: seq<Op>, i: nat)
    requires Deletes(s) && i <= |s|
    ensures BlocksFrom(path, s, i, Block(0, 0, Before(s, i), [])) == BlockRun(path, Before(s, |s|), [])
    decreases |s| - i
  {
    if i < |s| {
      assert s[i].kind == Del;
      assert Block(0, 0, Before(s, i), []).Next(s[i]) == Block(0, 0, Before(s, i + 1), []);
      DeletionIsOneRun(path, s, i + 1);
    }
  }

  lemma {:induction false} CreationIsOneRun(path: string, s: seq<Op>, i: nat)
    requires Creates(s) && i <= |s|
    ensures BlocksFrom(path, s, i, Block(0, 0, [], After(s, i))) == BlockRun(path, [], After(s, |s|))
    decreases |s| - i
  {
    if i < |s| {
      assert s[i].kind == Add;
      assert Block(0, 0, [], After(s, i)).Next(s[i]) == Block(0, 0, [], After(s, i + 1));
      CreationIsOneRun(path, s, i + 1);
    }
  }

  lemma CreationReverts(path: string, lines: seq<string>, added: seq<string>)
    requires lines == Trimmed(added)
    ensures RevertFrom(lines, 0, [], BlockRun(path, [], added)) == Some([])
  {
    if added == [] {
      assert BlockRun(path, [], added) == [] && [] + lines[0..] == [];
    } else {
      HoldsIsTrimmed(lines, 0, |lines|, added);
      var create := Block(0, 0, [], added).Run(path);
      var runs := BlockRun(path, [], added);
      assert runs == [create] && runs[1..] == [] && lines[0..|lines|] == lines;
      assert [] + lines[0..0] + Trimmed([]) == [] && lines[|lines|..] == [];
    }
  }

  /** Undoing both runs on the new lines: the second one does not find the old lines where it
      starts, unless there are none. */
  lemma TypeChangeReverts(path: string, removed: seq<string>, lines: seq<string>, added: seq<string>)
    requires lines == Trimmed(added)
    ensures RevertFrom(lines, 0, [], BlockRun(path, removed, []) + BlockRun(path, [], added))
         == if removed == [] || added == [] then Some(Trimmed(removed)) else None
  {
    var runs := BlockRun(path, removed, []) + BlockRun(path, [], added);
    if removed == [] {
      assert runs == BlockRun(path, [], added);
      CreationReverts(path, lines, added);
    } else {
      var delete := Block(0, 0, removed, []).Run(path);
      assert runs[0] == delete && runs[1..] == BlockRun(path, [], added);
      assert [] + lines[0..0] + Trimmed(removed) == Trimmed(removed);
      assert RevertFrom(lines, 0, [], runs) == RevertFrom(lines, 0, Trimmed(removed), runs[1..]);
      if added != [] {
        assert runs[1..] == [Block(0, 0, [], added).Run(path)];
        assert Trimmed(removed) + lines[0..0] == Trimmed(removed);
      } else {
        assert Trimmed(removed) + lines[0..] == Trimmed(removed);
      }
    }
  }

  lemma TwoSections(files: seq<FileDiff>, i: nat, j: nat, path: string)
    requires i < j < |files| && files[i].Path() == path && files[j].Path() == path
    requires Idle(files[..i], path) && Idle(files[i + 1..j], path) && Idle(files[j + 1..], path)
    ensures SectionRuns(files, path) == Runs(files[i]) + Runs(files[j])
  {
    var first, rest := files[..j], files[j..];
    assert files == first + rest;
    SectionRunsConcat(first, rest, path);
    FirstSection(files, first, i, j);
    assert rest[1..] == files[j + 1..] && rest[0] == files[j];
    IdleSections(rest[1..], path);
    SectionFirst(rest, rest[1..], path);
  }

  lemma FirstSection(files: seq<FileDiff>, first: seq<FileDiff>, i: nat, j: nat)
    requires i < j <= |files| && first == files[..j]
    requires Idle(files[..i], files[i].Path()) && Idle(files[i + 1..j], files[i].Path())
    ensures SectionRuns(first, files[i].Path()) == Runs(files[i])
  {
    assert first[..i] == files[..i] && first[i + 1..] == files[i + 1..j] && first[i] == files[i];
    OneSection(first, i);
  }

  /** A change of type is undone to the old lines exactly when one of its two sections has no
      lines; otherwise nothing is reported. */
  lemma TypeChangeRoundTripsIff(files: seq<FileDiff>, unquote: string -> string, i: nat, j: nat, newText: string)
    requires PrintableDiff(files, unquote) && forall f | f in files :: Sided(f.script, f.marks, 0)
    requires i < j < |files| && files[j].Path() == files[i].Path()
    requires var path := files[i].Path();
             Idle(files[..i], path) && Idle(files[i + 1..j], path) && Idle(files[j + 1..], path)
    requires Deletes(files[i].script) && Creates(files[j].script)
    requires Lines(newText) == Trimmed(files[j].NewLines())
    ensures var runs := RunsOf(RunsIn(DiffText(files), unquote), files[i].Path());
            var old_ := Trimmed(files[i].OldLines());
      && (RevertedText(newText, runs) == Some(JoinLines(old_)) <==> old_ == [] || files[j].NewLines() == [])
      && (RevertedText(newText, runs) == None <==> old_ != [] && files[j].NewLines() != [])
      && (BaseSideOf(runs, newText).None? <==> RevertedText(newText, runs) == None)
  {
    var path := files[i].Path();
    PathReads(files, unquote, path);
    TwoSections(files, i, j, path);
    TypeChangeRuns(files[i], files[j], path);
    var removed, added := Stripped(files[i].OldLines()), Stripped(files[j].NewLines());
    TrimmedOfStripped(files[i].OldLines());
    TrimmedOfStripped(files[j].NewLines());
    TypeChangeReverts(path, removed, Lines(newText), added);
    assert |removed| == |Trimmed(files[i].OldLines())| && |added| == |files[j].NewLines()|;
  }

  lemma TypeChangeRuns(gone: FileDiff, made: FileDiff, path: string)
    requires gone.Path() == made.Path() == path && Deletes(gone.script) && Creates(made.script)
    ensures Runs(gone) == BlockRun(path, Stripped(gone.OldLines()), [])
    ensures Runs(made) == BlockRun(path, [], Stripped(made.NewLines()))
  {
    DeletionIsOneRun(path, StripScript(gone.script), 0);
    CreationIsOneRun(path, StripScript(made.script), 0);
    StrippedSides(gone.script, |gone.script|);
    StrippedSides(made.script, |made.script|);
  }

  /** A link to `a` made into a file of one line `b`. */
  const LINK_GONE := FileRecord("--git a/f b/f", ["deleted file mode 120000"], Some("f"), None,
                                "a/f", "/dev/null", [Op(Del, "a", true)], [Start("")])
  const FILE_MADE := FileRecord("--git a/f b/f", ["new file mode 100644"], None, Some("f"),
                                "/dev/null", "b/f", [Op(Add, "b", false)], [Start("")])

  lemma NoFileReads(prefix: string, unquote: string -> string)
    requires unquote("/dev/null") == "/dev/null"
    ensures Side("/dev/null", prefix, unquote) == None
  {
    IndexOfUnique("/dev/null", '\t', 9);
    assert "/dev/null"[..9] == "/dev/null";
  }

  lemma OneLineIsLegal(o: Op)
    ensures Legal([o], [Start("")]) && Sided([o], [Start("")], 0)
  {
    assert Before([o], 0) == [] && After([o], 0) == [];
  }

  lemma ModeLinesArePlain()
    ensures PlainHeader("deleted file mode 120000") && PlainHeader("new file mode 100644")
  {
    assert "deleted file mode 120000"[1] == 'e' && "new file mode 100644"[0] == 'n';
  }

  lemma LinkIsPrintable(unquote: string -> string)
    requires unquote("a/f") == "a/f" && unquote("/dev/null") == "/dev/null"
    ensures Printable(LINK_GONE, unquote)
  {
    assert "a/" + "f" == "a/f" && "a/f" + "" == "a/f";
    PlainNameReads("f", "a/", "", unquote);
    NoFileReads("b/", unquote);
    OneLineIsLegal(Op(Del, "a", true));
    ModeLinesArePlain();
  }

  lemma FileIsPrintable(unquote: string -> string)
    requires unquote("b/f") == "b/f" && unquote("/dev/null") == "/dev/null"
    ensures Printable(FILE_MADE, unquote)
  {
    assert "b/" + "f" == "b/f" && "b/f" + "" == "b/f";
    PlainNameReads("f", "b/", "", unquote);
    NoFileReads("a/", unquote);
    OneLineIsLegal(Op(Add, "b", false));
    ModeLinesArePlain();
  }

  lemma LinesOfLinkAreClean()
    ensures CleanLine("--git a/f b/f") && CleanLine("deleted file mode 120000")
    ensures CleanLine("new file mode 100644") && CleanLine("a/f") && CleanLine("b/f") && CleanLine("/dev/null")
  {
  }

  lemma LinkIsClean()
    ensures CleanFile(LINK_GONE) && CleanFile(FILE_MADE)
    ensures LINK_GONE.Path() == "f" && FILE_MADE.Path() == "f"
    ensures LINK_GONE.script == [Op(Del, "a", true)] && FILE_MADE.script == [Op(Add, "b", false)]
  {
    LinesOfLinkAreClean();
  }

  lemma LinkAndFile(gone: FileDiff, made: FileDiff)
    requires gone.script == [Op(Del, "a", true)] && made.script == [Op(Add, "b", false)]
    requires gone.marks == made.marks == [Start("")]
    ensures Sided(gone.script, gone.marks, 0) && Sided(made.script, made.marks, 0)
    ensures Deletes(gone.script) && Creates(made.script)
    ensures gone.OldLines() == ["a"] && made.NewLines() == ["b"] == Lines("b\n")
  {
    OneLineIsLegal(Op(Del, "a", true));
    OneLineIsLegal(Op(Add, "b", false));
    assert Before(gone.script, 0) == [] && After(made.script, 0) == [];
    LinesOfLine("b", "");
    assert "b" + "\n" + "" == "b\n" && ["b"] + [] == ["b"];
  }

  lemma TypeChangeReads(gone: FileDiff, made: FileDiff, unquote: string -> string)
    requires Printable(gone, unquote) && CleanFile(gone) && Printable(made, unquote) && CleanFile(made)
    requires gone.Path() == made.Path()
    requires Sided(gone.script, gone.marks, 0) && Sided(made.script, made.marks, 0)
    requires Deletes(gone.script) && Creates(made.script)
    requires gone.OldLines() == ["a"] && made.NewLines() == ["b"] == Lines("b\n")
    ensures RevertedText("b\n", RunsOf(RunsIn(DiffText([gone, made]), unquote), gone.Path())) == None
  {
    assert Trimmed(["b"]) == ["b"] && |Trimmed(["a"])| == 1;
    TypeChangeRoundTripsIff([gone, made], unquote, 0, 1, "b\n");
  }

  /** Nothing is reported of the link's text when it became a file. */
  lemma TypeChangeIsLost(unquote: string -> string)
    requires unquote("a/f") == "a/f" && unquote("b/f") == "b/f" && unquote("/dev/null") == "/dev/null"
    ensures LINK_GONE.OldLines() == ["a"] && FILE_MADE.NewLines() == Lines("b\n")
    ensures RevertedText("b\n", RunsOf(RunsIn(DiffText([LINK_GONE, FILE_MADE]), unquote), "f")) == None
  {
    LinkIsPrintable(unquote);
    FileIsPrintable(unquote);
    LinkIsClean();
    LinkAndFile(LINK_GONE, FILE_MADE);
    TypeChangeReads(LINK_GONE, FILE_MADE, unquote);
  }

  // ---------- touched lines ----------

  predicate InRange(range: (nat, nat), from: nat, to: nat) {
    range.0 <= to && from <= range.1
  }

  /** An added line of the script, from line `i` on, whose new number lies in `from..=to`. */
  ghost predicate AddsBetween(s: seq<Op>, i: nat, from: nat, to: nat) {
    exists k :: i <= k < |s| && s[k].kind == Add && from <= |After(s, k)| + 1 <= to
  }

  lemma TouchedCons(range: (nat, nat), rest: seq<(nat, nat)>, from: nat, to: nat)
    ensures Touched([range] + rest, from, to) <==> InRange(range, from, to) || Touched(rest, from, to)
  {
    var all := [range] + rest;
    assert all[0] == range && forall k | 0 <= k < |rest| :: all[k + 1] == rest[k];
    if Touched(all, from, to) {
      var k :| 0 <= k < |all| && InRange(all[k], from, to);
      assert k > 0 ==> rest[k - 1] == all[k];
    }
  }

  lemma TouchedRun(run: HunkText, rest: seq<HunkText>, from: nat, to: nat)
    ensures Touched(AddedIn([run] + rest), from, to)
       <==> (run.newLen > 0 && InRange(run.NewRange(), from, to)) || Touched(AddedIn(rest), from, to)
  {
    assert ([run] + rest)[1..] == rest;
    if run.newLen > 0 {
      TouchedCons(run.NewRange(), AddedIn(rest), from, to);
    } else {
      assert [] + AddedIn(rest) == AddedIn(rest);
    }
  }

  lemma {:induction false} TouchedFrom(path: string, s: seq<Op>, i: nat, block: Block, from: nat, to: nat)
    requires i <= |s| && from <= to
    requires block.n + |block.added| == |After(s, i)|
    ensures Touched(AddedIn(BlocksFrom(path, s, i, block)), from, to)
       <==> || (block.added != [] && InRange((block.n + 1, block.n + |block.added|), from, to))
            || AddsBetween(s, i, from, to)
    decreases |s| - i
  {
    var run := block.Run(path);
    if i == |s| {
      if !block.Empty() && block.added != [] {
        TouchedCons(run.NewRange(), [], from, to);
      }
    } else {
      var next := block.Next(s[i]);
      var rest := BlocksFrom(path, s, i + 1, next);
      TouchedFrom(path, s, i + 1, next, from, to);
      assert AddsBetween(s, i, from, to)
        <==> (s[i].kind == Add && from <= |After(s, i)| + 1 <= to) || AddsBetween(s, i + 1, from, to);
      if !s[i].Change() {
        assert [] + rest == rest;
        if !block.Empty() {
          TouchedRun(run, rest, from, to);
        }
      }
    }
  }

  lemma TouchedConcat(a: seq<(nat, nat)>, b: seq<(nat, nat)>, from: nat, to: nat)
    ensures Touched(a + b, from, to) <==> Touched(a, from, to) || Touched(b, from, to)
  {
    var all := a + b;
    assert forall k | 0 <= k < |a| :: all[k] == a[k];
    assert forall k | 0 <= k < |b| :: all[|a| + k] == b[k];
    if Touched(all, from, to) {
      var k :| 0 <= k < |all| && InRange(all[k], from, to);
      assert k >= |a| ==> b[k - |a|] == all[k];
    }
  }

  lemma {:induction false} AddedInConcat(a: seq<HunkText>, b: seq<HunkText>)
    ensures AddedIn(a + b) == AddedIn(a) + AddedIn(b)
    decreases |a|
  {
    if a == [] {
      assert a + b == b;
    } else {
      assert (a + b)[1..] == a[1..] + b;
      AddedInConcat(a[1..], b);
      ConcatAssociates(if a[0].newLen > 0 then [a[0].NewRange()] else [], AddedIn(a[1..]), AddedIn(b));
    }
  }

  /** Some section of the path adds a line with a number in the range. */
  ghost predicate SectionAdds(files: seq<FileDiff>, path: string, from: nat, to: nat) {
    exists k :: 0 <= k < |files| && files[k].Path() == path && AddsBetween(files[k].script, 0, from, to)
  }

  lemma StrippedAdds(s: seq<Op>, from: nat, to: nat)
    ensures AddsBetween(StripScript(s), 0, from, to) <==> AddsBetween(s, 0, from, to)
  {
    forall k | 0 <= k < |s|
      ensures StripScript(s)[k].kind == s[k].kind && |After(StripScript(s), k)| == |After(s, k)|
    {
      StrippedSides(s, k);
      assert StripScript(s)[k] == s[k].(text := StripCR(s[k].text)) && |Stripped(After(s, k))| == |After(s, k)|;
    }
  }

  lemma {:induction false} SectionsTouch(files: seq<FileDiff>, path: string, from: nat, to: nat)
    requires from <= to
    ensures Touched(AddedIn(SectionRuns(files, path)), from, to) <==> SectionAdds(files, path, from, to)
    decreases |files|
  {
    if files != [] {
      var f, rest := files[0], files[1..];
      var own := if f.Path() == path then Runs(f) else [];
      AddedInConcat(own, SectionRuns(rest, path));
      TouchedConcat(AddedIn(own), AddedIn(SectionRuns(rest, path)), from, to);
      TouchedFrom(path, StripScript(f.script), 0, NOTHING, from, to);
      StrippedAdds(f.script, from, to);
      SectionsTouch(rest, path, from, to);
      SectionAddsCons(files, path, from, to);
    }
  }

  lemma SectionAddsCons(files: seq<FileDiff>, path: string, from: nat, to: nat)
    requires files != []
    ensures SectionAdds(files, path, from, to)
       <==> || (files[0].Path() == path && AddsBetween(files[0].script, 0, from, to))
            || SectionAdds(files[1..], path, from, to)
  {
    var rest := files[1..];
    assert forall k | 0 <= k < |rest| :: rest[k] == files[k + 1];
    if SectionAdds(files, path, from, to) {
      var k :| 0 <= k < |files| && files[k].Path() == path && AddsBetween(files[k].script, 0, from, to);
      assert k > 0 ==> rest[k - 1] == files[k];
    }
    if SectionAdds(rest, path, from, to) {
      var k :| 0 <= k < |rest| && rest[k].Path() == path && AddsBetween(rest[k].script, 0, from, to);
      var next := k + 1;
      assert files[next] == rest[k];
    }
  }

  /** A range of new lines is touched exactly when some section of the path adds a line with a
      number in it. */
  lemma TouchesAddedLines(files: seq<FileDiff>, unquote: string -> string, path: string, from: nat, to: nat)
    requires PrintableDiff(files, unquote) && forall f | f in files :: Sided(f.script, f.marks, 0)
    requires from <= to
    ensures Touched(AddedIn(RunsOf(RunsIn(DiffText(files), unquote), path)), from, to)
       <==> SectionAdds(files, path, from, to)
  {
    PathReads(files, unquote, path);
    SectionsTouch(files, path, from, to);
  }
}
