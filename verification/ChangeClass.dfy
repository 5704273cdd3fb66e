/** The runs of changed lines a unified diff describes, and the text before the change
    rebuilt by undoing them (`change_class.rs`). */
module ChangeClass {
  import opened Text

  /** One run of changed lines; `layout`, which needs a grammar, is not modelled. */
  datatype HunkText = HunkText(
    path: string,
    oldStart: nat, oldLen: nat,
    newStart: nat, newLen: nat,
    removed: seq<string>, added: seq<string>
  ) {
    /** The new-side lines of the run; a pure removal anchors on the line above it. */
    function NewRange(): (nat, nat) {
      if newLen == 0 then
        var anchor := if newStart == 0 then 1 else newStart;
        (anchor, anchor)
      else
        (newStart, newStart + newLen - 1)
    }

    /** The lengths agree with the texts. */
    predicate WellFormed() {
      oldLen == |removed| && newLen == |added|
    }
  }

  function HunkStart(spec: string): Option<nat> {
    ParseNat(spec[..IndexOf(spec, ',')])
  }

  /** Where the reader stands between two lines of the diff. */
  datatype Reader = Reader(
    out: seq<HunkText>,
    oldPath: Option<string>, newPath: Option<string>,
    oldNo: nat, newNo: nat,
    open: bool, inHunk: bool
  ) {
    predicate Ok() { open ==> out != [] }
  }

  /** The path a `---` or `+++` line names; `unquote` is git's C-style unquoting. */
  function Side(rest: string, prefix: string, unquote: string -> string): Option<string> {
    var p := unquote(rest[..IndexOf(rest, '\t')]);
    if p == "/dev/null" then None
    else if prefix <= p then Some(p[|prefix|..])
    else Some(p)
  }

  /** The two start numbers of a hunk header, given what follows `@@ -`. */
  function HeaderStarts(rest: string): Option<(nat, nat)> {
    match NextWord(rest)
    case None => None
    case Some((before, tail)) =>
      match NextWord(tail)
      case None => None
      case Some((after, _)) =>
        if !("+" <= after) then None
        else
          match (HunkStart(before), HunkStart(after[1..]))
          case (Some(o), Some(n)) => Some((o, n))
          case _ => None
  }

  function PathOf(oldPath: Option<string>, newPath: Option<string>): string {
    if newPath.Some? then newPath.value else if oldPath.Some? then oldPath.value else ""
  }

  function ReadChange(r: Reader, removed: bool, text: string): (r': Reader)
    requires r.Ok()
    ensures r'.Ok()
  {
    var out := if r.open then r.out
               else r.out + [HunkText(PathOf(r.oldPath, r.newPath), r.oldNo, 0, r.newNo, 0, [], [])];
    var h := out[|out| - 1];
    var earlier := out[..|out| - 1];
    if removed then
      r.(out := earlier + [h.(removed := h.removed + [text], oldLen := h.oldLen + 1)],
         oldNo := r.oldNo + 1, open := true)
    else
      r.(out := earlier + [h.(newStart := if h.newLen == 0 then r.newNo else h.newStart,
                             added := h.added + [text], newLen := h.newLen + 1)],
         newNo := r.newNo + 1, open := true)
  }

  function ReadLine(r: Reader, line: string, unquote: string -> string): (r': Reader)
    requires r.Ok()
    ensures r'.Ok()
  {
    if "@@ -" <= line then
      match HeaderStarts(line[4..])
      case Some((o, n)) => r.(oldNo := o, newNo := n, inHunk := true, open := false)
      case None => r
    else if "diff " <= line then
      r.(oldPath := None, newPath := None, inHunk := false)
    else if !r.inHunk then
      if "--- " <= line then r.(oldPath := Side(line[4..], "a/", unquote))
      else if "+++ " <= line then r.(newPath := Side(line[4..], "b/", unquote))
      else r
    else if "-" <= line then ReadChange(r, true, line[1..])
    else if "+" <= line then ReadChange(r, false, line[1..])
    else if "\\" <= line then r
    else r.(oldNo := r.oldNo + 1, newNo := r.newNo + 1, open := false)
  }

  function ReadLines(r: Reader, lines: seq<string>, unquote: string -> string): (r': Reader)
    requires r.Ok()
    ensures r'.Ok()
    decreases |lines|
  {
    if lines == [] then r else ReadLines(ReadLine(r, lines[0], unquote), lines[1..], unquote)
  }

  const START := Reader([], None, None, 0, 0, false, false)

  function Pred(n: nat): nat { if n == 0 then 0 else n - 1 }

  /** A run without lines on a side sits after the line its start names. */
  function FixUp(h: HunkText): HunkText {
    h.(newStart := if h.newLen == 0 then Pred(h.newStart) else h.newStart,
       oldStart := if h.oldLen == 0 then Pred(h.oldStart) else h.oldStart)
  }

  function FixUpAll(hs: seq<HunkText>): (r: seq<HunkText>)
    ensures |r| == |hs|
    ensures forall i | 0 <= i < |hs| :: r[i] == FixUp(hs[i])
  {
    if hs == [] then [] else [FixUp(hs[0])] + FixUpAll(hs[1..])
  }

  function RunsIn(diffText: string, unquote: string -> string): seq<HunkText> {
    FixUpAll(ReadLines(START, Lines(diffText), unquote).out)
  }

  lemma {:induction false} ReadLinesConcat(r: Reader, a: seq<string>, b: seq<string>, unquote: string -> string)
    requires r.Ok()
    ensures ReadLines(r, a + b, unquote) == ReadLines(ReadLines(r, a, unquote), b, unquote)
    decreases |a|
  {
    if a == [] {
      assert a + b == b;
    } else {
      assert (a + b)[1..] == a[1..] + b;
      ReadLinesConcat(ReadLine(r, a[0], unquote), a[1..], b, unquote);
    }
  }

  lemma FixUpAllAppend(hs: seq<HunkText>, h: HunkText)
    ensures FixUpAll(hs + [h]) == FixUpAll(hs) + [FixUp(h)]
  {
  }

  /** A changed line goes into the open run, opening one if none is; the first added line starts
      the new side. */
  method AddLine(
    runs: seq<HunkText>, oldPath: Option<string>, newPath: Option<string>, oldNo: nat, newNo: nat, open: bool,
    removed: bool, text: string)
    returns (out: seq<HunkText>, oldNext: nat, newNext: nat)
    requires open ==> runs != []
    ensures Reader(out, oldPath, newPath, oldNext, newNext, true, true)
         == ReadChange(Reader(runs, oldPath, newPath, oldNo, newNo, open, true), removed, text)
  {
    out, oldNext, newNext := runs, oldNo, newNo;
    if !open {
      out := out + [HunkText(PathOf(oldPath, newPath), oldNo, 0, newNo, 0, [], [])];
    }
    var last := |out| - 1;
    var h := out[last];
    if removed {
      h := h.(removed := h.removed + [text], oldLen := h.oldLen + 1);
      oldNext := oldNo + 1;
    } else {
      if h.newLen == 0 {
        h := h.(newStart := newNo);
      }
      h := h.(added := h.added + [text], newLen := h.newLen + 1);
      newNext := newNo + 1;
    }
    assert out[last := h] == out[..last] + [h];
    out := out[last := h];
  }

  /** The reader as the program runs it: one pass over the lines, then the fix-up pass. */
  method HunkTexts(diffText: string, unquote: string -> string) returns (out: seq<HunkText>)
    ensures out == RunsIn(diffText, unquote)
  {
    out := [];
    var oldPath: Option<string>, newPath: Option<string> := None, None;
    var oldNo, newNo: nat := 0, 0;
    var open, inHunk := false, false;
    var lines := Lines(diffText);
    for i := 0 to |lines|
      invariant open ==> out != []
      invariant ReadLines(Reader(out, oldPath, newPath, oldNo, newNo, open, inHunk), lines[i..], unquote)
             == ReadLines(START, lines, unquote)
    {
      var line := lines[i];
      ghost var r := Reader(out, oldPath, newPath, oldNo, newNo, open, inHunk);
      if "@@ -" <= line {
        var starts := HeaderStarts(line[4..]);
        if starts.Some? {
          oldNo, newNo := starts.value.0, starts.value.1;
          inHunk := true;
          open := false;
        }
      } else if "diff " <= line {
        oldPath, newPath := None, None;
        inHunk := false;
      } else if !inHunk {
        if "--- " <= line {
          oldPath := Side(line[4..], "a/", unquote);
        } else if "+++ " <= line {
          newPath := Side(line[4..], "b/", unquote);
        }
      } else if "-" <= line || "+" <= line {
        out, oldNo, newNo := AddLine(out, oldPath, newPath, oldNo, newNo, open, "-" <= line, line[1..]);
        open := true;
      } else if !("\\" <= line) {
        oldNo, newNo := oldNo + 1, newNo + 1;
        open := false;
      }
      assert Reader(out, oldPath, newPath, oldNo, newNo, open, inHunk) == ReadLine(r, line, unquote);
      assert lines[i..][0] == line && lines[i..][1..] == lines[i + 1..];
    }
    out := FixUpPass(out);
  }

  method FixUpPass(read: seq<HunkText>) returns (out: seq<HunkText>)
    ensures out == FixUpAll(read)
  {
    out := read;
    for i := 0 to |out|
      invariant |out| == |read|
      invariant forall k | 0 <= k < i :: out[k] == FixUp(read[k])
      invariant forall k | i <= k < |out| :: out[k] == read[k]
    {
      var h := out[i];
      if h.newLen == 0 {
        h := h.(newStart := Pred(h.newStart));
      }
      if h.oldLen == 0 {
        h := h.(oldStart := Pred(h.oldStart));
      }
      out := out[i := h];
    }
  }

  // ---------- undoing the runs ----------

  /** The 0-based position of a side of a run; negative for a start of 0 with lines. */
  function At(start: nat, len: nat): int {
    start - (if len > 0 then 1 else 0)
  }

  lemma TrimmedClean(ls: seq<string>)
    requires CleanLines(ls)
    ensures Trimmed(ls) == ls
  {
    forall i | 0 <= i < |ls|
      ensures Trimmed(ls)[i] == ls[i]
    {
      assert CleanLine(ls[i]);
    }
  }

  /** Lines `from..to` start with the run's added lines, as far as both go. */
  predicate Holds(lines: seq<string>, from: int, to: int, added: seq<string>)
    requires 0 <= from <= to <= |lines|
  {
    forall i | 0 <= i < to - from && i < |added| :: lines[from + i] == TrimEndCR(added[i])
  }

  function RevertFrom(lines: seq<string>, next: nat, before: seq<string>, runs: seq<HunkText>): Option<seq<string>>
    requires next <= |lines|
    decreases runs
  {
    if runs == [] then Some(before + lines[next..])
    else
      var run := runs[0];
      var newAt := At(run.newStart, run.newLen);
      var newEnd := newAt + run.newLen;
      if newAt < next || newEnd > |lines| then None
      else
        var kept := before + lines[next..newAt];
        if !Holds(lines, newAt, newEnd, run.added) || |kept| != At(run.oldStart, run.oldLen) then None
        else RevertFrom(lines, newEnd, kept + Trimmed(run.removed), runs[1..])
  }

  function RevertedText(after: string, runs: seq<HunkText>): Option<string> {
    match RevertFrom(Lines(after), 0, [], runs)
    case Some(before) => Some(JoinLines(before))
    case None => None
  }

  method Reverted(after: string, runs: seq<HunkText>) returns (text: Option<string>)
    ensures text == RevertedText(after, runs)
  {
    var lines := Lines(after);
    var before: seq<string> := [];
    var next := 0;
    for k := 0 to |runs|
      invariant 0 <= next <= |lines|
      invariant RevertFrom(lines, next, before, runs[k..]) == RevertFrom(lines, 0, [], runs)
    {
      var run := runs[k];
      assert runs[k..][0] == run && runs[k..][1..] == runs[k + 1..];
      var newAt := At(run.newStart, run.newLen);
      var newEnd := newAt + run.newLen;
      if newAt < next || newEnd > |lines| {
        return None;
      }
      before := before + lines[next..newAt];
      if !Holds(lines, newAt, newEnd, run.added) || |before| != At(run.oldStart, run.oldLen) {
        return None;
      }
      before := before + Trimmed(run.removed);
      next := newEnd;
    }
    before := before + lines[next..];
    return Some(JoinLines(before));
  }

  /** The 0-based position just after a side of a run. */
  function End(start: nat, len: nat): (e: nat)
    ensures e == At(start, len) + len
  {
    if len > 0 then start - 1 + len else start
  }

  /** The lines a range names in `text`, at or after position `from`, are `lines`. */
  ghost predicate Cuts(text: seq<string>, from: nat, start: nat, len: nat, lines: seq<string>) {
    && from <= At(start, len)
    && End(start, len) <= |text|
    && text[At(start, len)..End(start, len)] == Trimmed(lines)
  }

  /** The texts agree up to the run, and the run's ranges cut its lines out of both. */
  ghost predicate Fits(before: seq<string>, i: nat, after: seq<string>, j: nat, run: HunkText) {
    && Cuts(before, i, run.oldStart, run.oldLen, run.removed)
    && Cuts(after, j, run.newStart, run.newLen, run.added)
    && before[i..At(run.oldStart, run.oldLen)] == after[j..At(run.newStart, run.newLen)]
  }

  /** What it means for `runs` to be the difference of two texts, from position `i` of
      `before` and `j` of `after` on. */
  ghost predicate Aligned(before: seq<string>, i: nat, after: seq<string>, j: nat, runs: seq<HunkText>)
    requires i <= |before| && j <= |after|
    decreases runs
  {
    if runs == [] then before[i..] == after[j..]
    else
      var run := runs[0];
      && Fits(before, i, after, j, run)
      && Aligned(before, End(run.oldStart, run.oldLen), after, End(run.newStart, run.newLen), runs[1..])
  }

  ghost predicate WellFormedRuns(runs: seq<HunkText>) {
    forall run | run in runs :: run.WellFormed()
  }

  lemma HoldsIsTrimmed(lines: seq<string>, from: nat, to: nat, added: seq<string>)
    requires from <= to <= |lines| && to - from == |added|
    ensures Holds(lines, from, to, added) <==> lines[from..to] == Trimmed(added)
  {
    assert forall i | 0 <= i < |added| :: lines[from + i] == lines[from..to][i];
  }

  /** A prefix made of three parts is three consecutive slices. */
  lemma GrownPrefix(text: seq<string>, a: seq<string>, b: seq<string>, c: seq<string>)
    ensures a + b + c <= text
       <==> && a <= text
            && |a| + |b| + |c| <= |text|
            && text[|a|..|a| + |b|] == b
            && text[|a| + |b|..|a| + |b| + |c|] == c
  {
    if a + b + c <= text {
      var p := a + b + c;
      assert text[..|p|] == p;
      assert a == p[..|a|] == text[..|a|];
      assert text[|a|..|a| + |b|] == p[|a|..|a| + |b|] == b;
      assert text[|a| + |b|..|p|] == p[|a| + |b|..] == c;
    } else if a <= text && |a| + |b| + |c| <= |text| {
      assert text[..|a| + |b| + |c|] == text[..|a|] + text[|a|..|a| + |b|] + text[|a| + |b|..|a| + |b| + |c|];
    }
  }

  /** One accepted step of the reverse patch, seen from the text it will return. */
  lemma StepIsFits(lines: seq<string>, next: nat, acc: seq<string>, run: HunkText, before: seq<string>)
    requires run.WellFormed()
    requires next <= At(run.newStart, run.newLen) && End(run.newStart, run.newLen) <= |lines|
    requires Holds(lines, At(run.newStart, run.newLen), End(run.newStart, run.newLen), run.added)
    requires |acc| + At(run.newStart, run.newLen) - next == At(run.oldStart, run.oldLen)
    ensures acc + lines[next..At(run.newStart, run.newLen)] + Trimmed(run.removed) <= before
       <==> acc <= before && Fits(before, |acc|, lines, next, run)
  {
    var newAt, newEnd := At(run.newStart, run.newLen), End(run.newStart, run.newLen);
    HoldsIsTrimmed(lines, newAt, newEnd, run.added);
    var gap, removed := lines[next..newAt], Trimmed(run.removed);
    assert |acc| + |gap| == At(run.oldStart, run.oldLen);
    assert |acc| + |gap| + |removed| == End(run.oldStart, run.oldLen);
    GrownPrefix(before, acc, gap, removed);
    assert Cuts(lines, next, run.newStart, run.newLen, run.added);
    assert Cuts(before, |acc|, run.oldStart, run.oldLen, run.removed)
      <==> End(run.oldStart, run.oldLen) <= |before|
           && before[|acc| + |gap|..|acc| + |gap| + |removed|] == removed;
  }

  lemma RejectedStepDoesNotFit(lines: seq<string>, next: nat, acc: seq<string>, run: HunkText, before: seq<string>)
    requires run.WellFormed() && Fits(before, |acc|, lines, next, run)
    ensures next <= At(run.newStart, run.newLen) && End(run.newStart, run.newLen) <= |lines|
    ensures Holds(lines, At(run.newStart, run.newLen), End(run.newStart, run.newLen), run.added)
    ensures |acc| + At(run.newStart, run.newLen) - next == At(run.oldStart, run.oldLen)
  {
    HoldsIsTrimmed(lines, At(run.newStart, run.newLen), End(run.newStart, run.newLen), run.added);
    assert |before[|acc|..At(run.oldStart, run.oldLen)]| == |lines[next..At(run.newStart, run.newLen)]|;
  }

  lemma {:induction false} RevertFromIsAligned(
    lines: seq<string>, next: nat, acc: seq<string>, runs: seq<HunkText>, before: seq<string>)
    requires next <= |lines| && WellFormedRuns(runs)
    ensures RevertFrom(lines, next, acc, runs) == Some(before)
       <==> acc <= before && Aligned(before, |acc|, lines, next, runs)
    decreases runs
  {
    if runs == [] {
      assert acc <= before ==> before == acc + before[|acc|..];
      assert (acc + lines[next..])[|acc|..] == lines[next..];
    } else {
      var run, rest := runs[0], runs[1..];
      assert run.WellFormed() && WellFormedRuns(rest);
      if acc <= before && Fits(before, |acc|, lines, next, run) {
        RejectedStepDoesNotFit(lines, next, acc, run, before);
      }
      var newAt, newEnd := At(run.newStart, run.newLen), End(run.newStart, run.newLen);
      if next <= newAt && newEnd <= |lines| && Holds(lines, newAt, newEnd, run.added)
         && |acc| + newAt - next == At(run.oldStart, run.oldLen) {
        var grown := acc + lines[next..newAt] + Trimmed(run.removed);
        assert |grown| == End(run.oldStart, run.oldLen);
        RevertFromIsAligned(lines, newEnd, grown, rest, before);
        StepIsFits(lines, next, acc, run, before);
      }
    }
  }

  /** `reverted` accepts exactly the texts the runs are a difference to, and what it returns
      is the one text the runs are a difference from. */
  lemma RevertedIffAligned(after: string, runs: seq<HunkText>, before: seq<string>)
    requires WellFormedRuns(runs)
    ensures RevertFrom(Lines(after), 0, [], runs) == Some(before) <==> Aligned(before, 0, Lines(after), 0, runs)
  {
    RevertFromIsAligned(Lines(after), 0, [], runs, before);
  }

  /** The runs replayed forward on the text before the change. */
  function ReplayFrom(before: seq<string>, next: nat, after: seq<string>, runs: seq<HunkText>): Option<seq<string>>
    requires next <= |before|
    decreases runs
  {
    if runs == [] then Some(after + before[next..])
    else
      var run := runs[0];
      var oldAt := At(run.oldStart, run.oldLen);
      if oldAt < next || oldAt + run.oldLen > |before| then None
      else ReplayFrom(before, oldAt + run.oldLen, after + before[next..oldAt] + Trimmed(run.added), runs[1..])
  }

  lemma {:induction false} AlignedReplays(
    before: seq<string>, i: nat, after: seq<string>, j: nat, runs: seq<HunkText>)
    requires i <= |before| && j <= |after| && Aligned(before, i, after, j, runs)
    ensures ReplayFrom(before, i, after[..j], runs) == Some(after)
    decreases runs
  {
    if runs == [] {
      assert after == after[..j] + after[j..];
    } else {
      var run := runs[0];
      AlignedReplays(before, End(run.oldStart, run.oldLen), after, End(run.newStart, run.newLen), runs[1..]);
      FitsReplays(before, i, after, j, run);
    }
  }

  lemma FitsReplays(before: seq<string>, i: nat, after: seq<string>, j: nat, run: HunkText)
    requires i <= |before| && j <= |after| && Fits(before, i, after, j, run)
    ensures after[..j] + before[i..At(run.oldStart, run.oldLen)] + Trimmed(run.added)
         == after[..End(run.newStart, run.newLen)]
  {
    var newAt, newEnd := At(run.newStart, run.newLen), End(run.newStart, run.newLen);
    SlicesJoin(after, 0, j, newAt);
    SlicesJoin(after, 0, newAt, newEnd);
    assert after[0..j] == after[..j] && after[0..newEnd] == after[..newEnd];
  }

  /** Soundness of the reverse patch: what `reverted` accepts, the same runs take forward again. */
  lemma RevertedReplays(after: string, runs: seq<HunkText>)
    requires WellFormedRuns(runs)
    ensures var r := RevertFrom(Lines(after), 0, [], runs);
            r.Some? ==> ReplayFrom(r.value, 0, [], runs) == Some(Lines(after))
  {
    var r := RevertFrom(Lines(after), 0, [], runs);
    if r.Some? {
      RevertedIffAligned(after, runs, r.value);
      AlignedReplays(r.value, 0, Lines(after), 0, runs);
      assert Lines(after)[..0] == [];
    }
  }

  /** Every run's ranges cut its own lines out of the two texts. */
  lemma {:induction false} AlignedCuts(
    before: seq<string>, i: nat, after: seq<string>, j: nat, runs: seq<HunkText>, run: HunkText)
    requires i <= |before| && j <= |after| && Aligned(before, i, after, j, runs) && run in runs
    ensures Cuts(before, i, run.oldStart, run.oldLen, run.removed)
    ensures Cuts(after, j, run.newStart, run.newLen, run.added)
    decreases runs
  {
    var first := runs[0];
    if run != first {
      AlignedCuts(before, End(first.oldStart, first.oldLen), after, End(first.newStart, first.newLen), runs[1..], run);
    }
  }
}
