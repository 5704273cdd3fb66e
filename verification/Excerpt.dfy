/** The changed lines of a core fragment with a little context, cut out of its own text
    (`excerpt.rs`). */
module Excerpt {
  import opened Text
  import opened Interval

  const CONTEXT_LINES: nat := 3
  const MIN_PARENT_LINES: nat := 12
  const MAX_SHARE_OF_PARENT: real := 0.7
  const MIN_ELIDED_LINES: nat := 2

  datatype DiffHunk = DiffHunk(path: string, newStart: nat, newLen: nat, oldLen: nat) {
    predicate IsDeletion() { newLen == 0 && oldLen > 0 }

    /** The lines a hunk selects; a deletion anchors on the line above it. */
    function CoreSelectionRange(): (r: Span)
      ensures r.0 <= r.1
    {
      if IsDeletion() then
        var anchor := if newStart == 0 then 1 else newStart;
        (anchor, anchor)
      else (newStart, if newLen == 0 then newStart else newStart + newLen - 1)
    }
  }

  /** A hunk selects its new lines; one that only deletes selects the line above, or line 1, and one
      without lines the one it names. */
  lemma SelectionIs(h: DiffHunk, line: nat)
    ensures InSpan(h.CoreSelectionRange(), line)
       <==> if h.newLen > 0 then h.newStart <= line < h.newStart + h.newLen
            else line == if h.oldLen > 0 && h.newStart == 0 then 1 else h.newStart
  {}

  /** `content` is the fragment's text; the source's constructor keeps `start <= end`. */
  datatype Parent = Parent(path: string, start: nat, end: nat, isStub: bool, content: string) {
    function LineCount(): int { end - start + 1 }
  }

  datatype Excerpt = Excerpt(start: nat, end: nat, content: string)

  function Least(a: nat, b: nat): nat { if a <= b then a else b }

  function Most(a: nat, b: nat): nat { if a >= b then a else b }

  function Minus(a: nat, b: nat): nat { if a >= b then a - b else 0 }

  /** Whether a hunk touches the fragment. */
  predicate Hits(parent: Parent, hunk: DiffHunk) {
    && hunk.path == parent.path
    && hunk.CoreSelectionRange().0 <= parent.end
    && hunk.CoreSelectionRange().1 >= parent.start
  }

  // ---------- one window ----------

  /** The span from the first to the last selected line inside the fragment. */
  ghost predicate IsWindow(parent: Parent, hunks: seq<DiffHunk>, w: Span) {
    && (forall h | h in hunks && Hits(parent, h) ::
          && w.0 <= Most(h.CoreSelectionRange().0, parent.start)
          && Least(h.CoreSelectionRange().1, parent.end) <= w.1)
    && (exists h :: h in hunks && Hits(parent, h) && w.0 == Most(h.CoreSelectionRange().0, parent.start))
    && (exists h :: h in hunks && Hits(parent, h) && w.1 == Least(h.CoreSelectionRange().1, parent.end))
  }

  /** One more hunk widens the window if it has lines in the fragment. */
  lemma WindowNext(parent: Parent, hunks: seq<DiffHunk>, lo: Option<nat>, hi: nat, h: DiffHunk)
    requires lo.None? <==> forall g | g in hunks :: !Hits(parent, g)
    requires if lo.Some? then IsWindow(parent, hunks, (lo.value, hi)) else hi == 0
    ensures !Hits(parent, h) && lo.Some? ==> IsWindow(parent, hunks + [h], (lo.value, hi))
    ensures Hits(parent, h) ==>
              var first := Most(h.CoreSelectionRange().0, parent.start);
              var last := Least(h.CoreSelectionRange().1, parent.end);
              IsWindow(parent, hunks + [h], (if lo.None? then first else Least(lo.value, first), Most(hi, last)))
  {
    assert h in hunks + [h] && forall g | g in hunks :: g in hunks + [h];
  }

  method HunkWindow(parent: Parent, hunks: seq<DiffHunk>) returns (w: Option<Span>)
    ensures w.None? <==> forall h | h in hunks :: !Hits(parent, h)
    ensures w.Some? ==> IsWindow(parent, hunks, w.value)
  {
    var lo: Option<nat>, hi := None, 0;
    for i := 0 to |hunks|
      invariant lo.None? <==> forall h | h in hunks[..i] :: !Hits(parent, h)
      invariant lo.Some? ==> IsWindow(parent, hunks[..i], (lo.value, hi))
      invariant lo.None? ==> hi == 0
    {
      assert hunks[..i + 1] == hunks[..i] + [hunks[i]];
      var h := hunks[i];
      WindowNext(parent, hunks[..i], lo, hi, h);
      if Hits(parent, h) {
        var (hStart, hEnd) := h.CoreSelectionRange();
        var from, to_ := Most(hStart, parent.start), Least(hEnd, parent.end);
        lo := Some(if lo.None? then from else Least(lo.value, from));
        hi := Most(hi, to_);
      }
    }
    assert hunks[..|hunks|] == hunks;
    return if lo.None? then None else Some((lo.value, hi));
  }

  // ---------- several windows ----------

  /** A hunk's lines and their context inside the fragment. */
  function Padded(parent: Parent, hunk: DiffHunk): Span {
    var (lo, hi) := hunk.CoreSelectionRange();
    (Most(Minus(lo, CONTEXT_LINES), parent.start), Least(hi + CONTEXT_LINES, parent.end))
  }

  /** The padded windows of the hunks that touch the fragment, sorted. */
  method SortedWindows(parent: Parent, hunks: seq<DiffHunk>) returns (ws: seq<Span>)
    ensures Sorted(ws)
    ensures forall h | h in hunks && Hits(parent, h) :: Padded(parent, h) in ws
    ensures forall w | w in ws :: exists h :: h in hunks && Hits(parent, h) && Padded(parent, h) == w
  {
    ws := [];
    for i := 0 to |hunks|
      invariant Sorted(ws)
      invariant forall h | h in hunks[..i] && Hits(parent, h) :: Padded(parent, h) in ws
      invariant forall w | w in ws :: exists h :: h in hunks && Hits(parent, h) && Padded(parent, h) == w
    {
      assert hunks[..i + 1] == hunks[..i] + [hunks[i]];
      if Hits(parent, hunks[i]) {
        var before, w := ws, Padded(parent, hunks[i]);
        ws := InsertSpan(ws, w);
        forall s
          ensures s in ws <==> s in before || s == w
        {
          assert s in ws <==> s in multiset(ws);
          assert s in before <==> s in multiset(before);
        }
      }
    }
    assert hunks[..|hunks|] == hunks;
  }

  /** The next window, joined to the last one when less than two lines lie between. */
  function Merge(merged: seq<Span>, w: Span): seq<Span> {
    var n := |merged| - 1;
    if n >= 0 && w.0 <= merged[n].1 + MIN_ELIDED_LINES then
      merged[..n] + [(merged[n].0, Most(merged[n].1, w.1))]
    else merged + [w]
  }

  function Merged(ws: seq<Span>): seq<Span> {
    if ws == [] then [] else Merge(Merged(ws[..|ws| - 1]), ws[|ws| - 1])
  }

  /** In order, each non-empty, with at least two lines between one and the next. */
  ghost predicate Apart(merged: seq<Span>) {
    && (forall i | 0 <= i < |merged| :: merged[i].0 <= merged[i].1)
    && forall i | 0 <= i < |merged| - 1 :: merged[i].1 + MIN_ELIDED_LINES < merged[i + 1].0
  }

  predicate InSpan(w: Span, line: nat) { w.0 <= line <= w.1 }

  ghost predicate Covers(ws: seq<Span>, line: nat) {
    exists i :: 0 <= i < |ws| && InSpan(ws[i], line)
  }

  lemma CoversLast(ws: seq<Span>, line: nat)
    requires ws != []
    ensures Covers(ws, line) <==> Covers(ws[..|ws| - 1], line) || InSpan(ws[|ws| - 1], line)
  {
    var n := |ws| - 1;
    assert forall i | 0 <= i < n :: ws[..n][i] == ws[i];
    if Covers(ws[..n], line) {
      var i :| 0 <= i < n && InSpan(ws[..n][i], line);
      assert InSpan(ws[i], line);
    }
    if Covers(ws, line) {
      var i :| 0 <= i < |ws| && InSpan(ws[i], line);
      assert i < n ==> InSpan(ws[..n][i], line);
    }
  }

  ghost predicate Ends(merged: seq<Span>, ws: seq<Span>) {
    && (merged == [] <==> ws == [])
    && (ws != [] ==>
          && merged[|merged| - 1].0 <= ws[|ws| - 1].0
          && (exists i :: 0 <= i < |ws| && ws[i].1 == merged[|merged| - 1].1)
          && merged[0].0 == ws[0].0)
  }

  lemma {:induction false} MergedIsApart(ws: seq<Span>)
    requires Sorted(ws) && forall i | 0 <= i < |ws| :: ws[i].0 <= ws[i].1
    ensures Apart(Merged(ws)) && Ends(Merged(ws), ws)
    decreases |ws|
  {
    if ws != [] {
      var n := |ws| - 1;
      MergedIsApart(ws[..n]);
      MergeKeepsApart(Merged(ws[..n]), ws);
    }
  }

  lemma MergeKeepsApart(before: seq<Span>, ws: seq<Span>)
    requires ws != [] && Sorted(ws) && forall i | 0 <= i < |ws| :: ws[i].0 <= ws[i].1
    requires Apart(before) && Ends(before, ws[..|ws| - 1])
    ensures Apart(Merge(before, ws[|ws| - 1])) && Ends(Merge(before, ws[|ws| - 1]), ws)
  {
    var n := |ws| - 1;
    if n > 0 {
      assert Le(ws[n - 1], ws[n]);
      var m := |before| - 1;
      var i :| 0 <= i < n && ws[..n][i].1 == before[m].1;
      assert ws[i].1 == before[m].1;
    }
    assert ws[n].1 == ws[|ws| - 1].1;
  }

  /** A line is shown when it lies in a window, or alone between two windows. */
  ghost predicate Shows(ws: seq<Span>, line: nat) {
    Covers(ws, line) || (line > 0 && Covers(ws, line - 1) && Covers(ws, line + 1))
  }

  lemma MergeCovers(merged: seq<Span>, w: Span, line: nat)
    requires Apart(merged) && w.0 <= w.1 && (merged != [] ==> merged[|merged| - 1].0 <= w.0)
    ensures Covers(Merge(merged, w), line)
       <==> || Covers(merged, line) || InSpan(w, line)
            || (merged != [] && line == merged[|merged| - 1].1 + 1 && line + 1 == w.0)
  {
    if merged != [] {
      CoversLast(merged, line);
    }
    CoversLast(Merge(merged, w), line);
    var n := |merged| - 1;
    if n >= 0 && w.0 <= merged[n].1 + MIN_ELIDED_LINES {
      assert Merge(merged, w)[..n] == merged[..n];
    } else {
      assert Merge(merged, w)[..|merged|] == merged;
    }
  }

  /** Every line of a window is in a merged one, and no other line is but one that stands alone
      between two windows. */
  lemma {:induction false} MergedCovers(ws: seq<Span>, line: nat)
    requires Sorted(ws) && forall i | 0 <= i < |ws| :: ws[i].0 <= ws[i].1
    ensures Covers(ws, line) ==> Covers(Merged(ws), line)
    ensures Covers(Merged(ws), line) ==> Shows(ws, line)
    decreases |ws|
  {
    if ws != [] {
      var n := |ws| - 1;
      var before, w := Merged(ws[..n]), ws[n];
      MergedCovers(ws[..n], line);
      MergedIsApart(ws[..n]);
      CoversLast(ws, line);
      CoversLast(ws, line + 1);
      if line > 0 {
        CoversLast(ws, line - 1);
      }
      if n > 0 {
        assert Le(ws[n - 1], ws[n]);
        var last := before[|before| - 1];
        var i :| 0 <= i < n && ws[..n][i].1 == last.1;
        assert InSpan(ws[..n][i], last.1);
      }
      MergeCovers(before, w, line);
    }
  }

  // ---------- the text ----------

  datatype Piece = Shown(text: string) | Elided(count: nat)

  function PieceText(p: Piece): string {
    match p
    case Shown(text) => text
    case Elided(count) => "\U{2026} [" + NatText(count) + " unchanged lines]"
  }

  function Texts(pieces: seq<Piece>): string {
    if pieces == [] then "" else Texts(pieces[..|pieces| - 1]) + PieceText(pieces[|pieces| - 1]) + "\n"
  }

  function PieceTexts(pieces: seq<Piece>): (r: seq<string>)
    ensures |r| == |pieces| && forall i | 0 <= i < |pieces| :: r[i] == PieceText(pieces[i])
  {
    seq(|pieces|, i requires 0 <= i < |pieces| => PieceText(pieces[i]))
  }

  lemma {:induction false} TextsAreLines(pieces: seq<Piece>)
    ensures Texts(pieces) == Unlines(PieceTexts(pieces))
    decreases |pieces|
  {
    if pieces != [] {
      var init, last := pieces[..|pieces| - 1], pieces[|pieces| - 1];
      TextsAreLines(init);
      assert PieceTexts(pieces) == PieceTexts(init) + [PieceText(last)];
      LastLine(PieceTexts(init), PieceText(last));
    }
  }

  lemma LastLine(lines: seq<string>, last: string)
    ensures Unlines(lines + [last]) == Unlines(lines) + last + "\n"
  {
    UnlinesConcat(lines, [last]);
    UnlinesCons(last, []);
    assert [last] + [] == [last] && last + "\n" + "" == last + "\n";
    ConcatAssociates(Unlines(lines), last, "\n");
  }

  /** What is written reads back piece by piece. */
  lemma TextsRead(lines: seq<string>, start: nat, merged: seq<Span>)
    requires forall i | 0 <= i < |lines| :: '\n' !in lines[i]
    requires WindowPieces(lines, start, merged) != []
    ensures Split(Popped(Texts(WindowPieces(lines, start, merged)))) == PieceTexts(WindowPieces(lines, start, merged))
  {
    var pieces := WindowPieces(lines, start, merged);
    TextsAreLines(pieces);
    PiecesAreOneLine(lines, start, merged);
    SplitOfJoined(PieceTexts(pieces));
  }

  lemma ElisionIsOneLine(count: nat)
    ensures '\n' !in PieceText(Elided(count))
  {
    assert forall c | c in NatText(count) :: IsDigit(c);
  }

  lemma {:induction false} PiecesAreOneLine(lines: seq<string>, start: nat, merged: seq<Span>)
    requires forall i | 0 <= i < |lines| :: '\n' !in lines[i]
    ensures forall p | p in WindowPieces(lines, start, merged) :: '\n' !in PieceText(p)
    decreases |merged|
  {
    if merged != [] {
      var n := |merged| - 1;
      PiecesAreOneLine(lines, start, merged[..n]);
      forall p | p in GapBefore(merged, n)
        ensures '\n' !in PieceText(p)
      {
        ElisionIsOneLine(p.count);
      }
    }
  }

  /** The pieces with every elision filled by that many lines of the text, from line `at` on. */
  function Filled(pieces: seq<Piece>, lines: seq<string>, at: nat): (seq<string>, nat) {
    if pieces == [] then ([], at)
    else
      var (text, next) := Filled(pieces[..|pieces| - 1], lines, at);
      match pieces[|pieces| - 1]
      case Shown(line) => (text + [line], next + 1)
      case Elided(count) =>
        (text + if next + count <= |lines| then lines[next..next + count] else [], next + count)
  }

  /** The lines from `at` to before `stop`, if there are that many. */
  function LinesBetween(lines: seq<string>, at: int, stop: int): seq<string> {
    if 0 <= at <= stop <= |lines| then lines[at..stop] else []
  }

  function ShownPieces(lines: seq<string>): (pieces: seq<Piece>)
    ensures |pieces| == |lines| && forall i | 0 <= i < |lines| :: pieces[i] == Shown(lines[i])
  {
    seq(|lines|, i requires 0 <= i < |lines| => Shown(lines[i]))
  }

  /** The lines of the windows of a text that starts at line `start`, and the gaps between them. */
  function WindowPieces(lines: seq<string>, start: nat, merged: seq<Span>): seq<Piece> {
    if merged == [] then []
    else
      var n := |merged| - 1;
      WindowPieces(lines, start, merged[..n]) + GapBefore(merged, n) + ShownPieces(OwnLines(lines, start, merged[n]))
  }

  /** The windows lie in a text that starts at line `start`. */
  ghost predicate Within(lines: seq<string>, start: nat, merged: seq<Span>) {
    merged != [] && Apart(merged) && start <= merged[0].0 && merged[|merged| - 1].1 - start < |lines|
  }

  lemma WithinPrefix(lines: seq<string>, start: nat, merged: seq<Span>)
    requires Within(lines, start, merged) && |merged| > 1
    ensures Within(lines, start, merged[..|merged| - 1])
  {
    var n := |merged| - 1;
    LastIsLargest(merged, n - 1);
  }

  lemma {:induction false} FilledShown(pieces: seq<Piece>, more: seq<string>, lines: seq<string>, at: nat)
    ensures Filled(pieces + ShownPieces(more), lines, at)
         == (Filled(pieces, lines, at).0 + more, Filled(pieces, lines, at).1 + |more|)
    decreases |more|
  {
    if more == [] {
      assert pieces + ShownPieces(more) == pieces;
      assert Filled(pieces, lines, at).0 + more == Filled(pieces, lines, at).0;
    } else {
      var init, last := more[..|more| - 1], more[|more| - 1];
      FilledShown(pieces, init, lines, at);
      var filled := Filled(pieces, lines, at);
      FilledNext(pieces, init, last, lines, at, filled.0 + init, filled.1 + |init|);
      ConcatAssociates(filled.0, init, [last]);
      assert more == init + [last];
    }
  }

  lemma FilledNext(
    pieces: seq<Piece>, init: seq<string>, last: string, lines: seq<string>, at: nat, text: seq<string>, next: nat)
    requires Filled(pieces + ShownPieces(init), lines, at) == (text, next)
    ensures Filled(pieces + ShownPieces(init + [last]), lines, at) == (text + [last], next + 1)
  {
    var all := pieces + ShownPieces(init + [last]);
    assert ShownPieces(init + [last]) == ShownPieces(init) + [Shown(last)];
    assert all[..|all| - 1] == pieces + ShownPieces(init) && all[|all| - 1] == Shown(last);
  }

  /** What window `i` adds: the gap before it, and its own lines. */
  function GapBefore(merged: seq<Span>, i: nat): seq<Piece>
    requires i < |merged|
  {
    if i == 0 then [] else [Elided(Minus(merged[i].0, merged[i - 1].1 + 1))]
  }

  function OwnLines(lines: seq<string>, start: nat, w: Span): seq<string> {
    LinesBetween(lines, w.0 - start, w.1 + 1 - start)
  }

  lemma PiecesNext(lines: seq<string>, start: nat, merged: seq<Span>, i: nat)
    requires i < |merged|
    ensures WindowPieces(lines, start, merged[..i + 1])
         == WindowPieces(lines, start, merged[..i]) + GapBefore(merged, i)
            + ShownPieces(OwnLines(lines, start, merged[i]))
  {
    var all := merged[..i + 1];
    assert all[..i] == merged[..i] && all[i] == merged[i];
    if i == 0 {
      assert WindowPieces(lines, start, merged[..0]) + GapBefore(merged, 0) == [];
    }
  }

  /** Filling every elision with the number of lines it names rebuilds the text from the first
      window to the last. */
  lemma {:induction false} PiecesFill(lines: seq<string>, start: nat, merged: seq<Span>)
    requires Within(lines, start, merged)
    ensures Fills(WindowPieces(lines, start, merged), lines, merged[0].0 - start, merged[|merged| - 1].1 + 1 - start)
    decreases |merged|
  {
    var n := |merged| - 1;
    LastIsLargest(merged, 0);
    if n == 0 {
      FirstWindowFills(lines, start, merged);
    } else {
      WithinPrefix(lines, start, merged);
      PiecesFill(lines, start, merged[..n]);
      WindowFillsNext(lines, start, merged, WindowPieces(lines, start, merged[..n]));
    }
  }

  lemma FirstWindowFills(lines: seq<string>, start: nat, merged: seq<Span>)
    requires Within(lines, start, merged) && |merged| == 1
    ensures Fills(WindowPieces(lines, start, merged), lines, merged[0].0 - start, merged[0].1 + 1 - start)
  {
    FirstPieces(lines, start, merged);
    NothingFills(lines, merged[0].0 - start);
    ShownFills([], lines, merged[0].0 - start, merged[0].0 - start, merged[0].1 + 1 - start);
  }

  lemma FirstPieces(lines: seq<string>, start: nat, merged: seq<Span>)
    requires |merged| == 1
    ensures WindowPieces(lines, start, merged) == [] + ShownPieces(OwnLines(lines, start, merged[0]))
  {
    PiecesNext(lines, start, merged, 0);
    assert merged[..1] == merged;
    assert WindowPieces(lines, start, merged[..0]) + GapBefore(merged, 0) == [];
  }

  lemma WindowFillsNext(lines: seq<string>, start: nat, merged: seq<Span>, before: seq<Piece>)
    requires Within(lines, start, merged) && |merged| > 1
    requires Fills(before, lines, merged[0].0 - start, merged[|merged| - 2].1 + 1 - start)
    ensures var n := |merged| - 1;
            Fills(before + GapBefore(merged, n) + ShownPieces(OwnLines(lines, start, merged[n])), lines,
                  merged[0].0 - start, merged[n].1 + 1 - start)
  {
    var n := |merged| - 1;
    WindowAdds(lines, start, merged, n);
    FillNext(before, lines, merged[0].0 - start,
             merged[n - 1].1 + 1 - start, merged[n].0 - start, merged[n].1 + 1 - start);
  }

  lemma WindowAdds(lines: seq<string>, start: nat, merged: seq<Span>, n: nat)
    requires Within(lines, start, merged) && 0 < n == |merged| - 1
    ensures start <= merged[n - 1].1 + 1 <= merged[n].0
    ensures GapBefore(merged, n) == [Elided((merged[n].0 - start) - (merged[n - 1].1 + 1 - start))]
    ensures merged[n].0 <= merged[n].1 + 1 && merged[n].1 + 1 - start <= |lines|
    ensures OwnLines(lines, start, merged[n]) == lines[merged[n].0 - start..merged[n].1 + 1 - start]
  {
    LastIsLargest(merged, n - 1);
    FirstIsLeast(merged, n - 1);
  }

  /** The pieces stand for lines `at..next`. */
  ghost predicate Fills(pieces: seq<Piece>, lines: seq<string>, at: int, next: int) {
    0 <= at <= next <= |lines| && Filled(pieces, lines, at) == (lines[at..next], next)
  }

  lemma NothingFills(lines: seq<string>, at: nat)
    requires at <= |lines|
    ensures Fills([], lines, at, at)
  {
    assert lines[at..at] == [];
  }

  lemma ShownFills(before: seq<Piece>, lines: seq<string>, at: nat, first: nat, stop: nat)
    requires Fills(before, lines, at, first) && first <= stop <= |lines|
    ensures Fills(before + ShownPieces(lines[first..stop]), lines, at, stop)
  {
    SlicesJoin(lines, at, first, stop);
    MoreFills(before, lines[first..stop], lines, at, first, stop);
  }

  lemma MoreFills(before: seq<Piece>, more: seq<string>, lines: seq<string>, at: nat, first: nat, stop: nat)
    requires Fills(before, lines, at, first) && stop == first + |more| <= |lines|
    requires lines[at..first] + more == lines[at..stop]
    ensures Fills(before + ShownPieces(more), lines, at, stop)
  {
    FilledShown(before, more, lines, at);
  }

  lemma FillNext(before: seq<Piece>, lines: seq<string>, at: nat, next: nat, first: nat, stop: nat)
    requires Fills(before, lines, at, next) && next <= first <= stop <= |lines|
    ensures Fills(before + [Elided(first - next)] + ShownPieces(lines[first..stop]), lines, at, stop)
  {
    FilledGap(before, first - next, lines, at, next);
    ShownFills(before + [Elided(first - next)], lines, at, first, stop);
  }

  /** No elision is of fewer than two lines. */
  lemma {:induction false} ElisionsAreWide(lines: seq<string>, start: nat, merged: seq<Span>, p: Piece)
    requires Apart(merged) && p in WindowPieces(lines, start, merged) && p.Elided?
    ensures p.count >= 2
    decreases |merged|
  {
    var n := |merged| - 1;
    if n > 0 {
      var before := WindowPieces(lines, start, merged[..n]);
      if p in before {
        ElisionsAreWide(lines, start, merged[..n], p);
      }
    }
  }

  lemma FilledGap(before: seq<Piece>, gap: nat, lines: seq<string>, at: nat, next: nat)
    requires Fills(before, lines, at, next) && next + gap <= |lines|
    ensures Fills(before + [Elided(gap)], lines, at, next + gap)
  {
    assert (before + [Elided(gap)])[..|before|] == before;
    assert lines[at..next] + lines[next..next + gap] == lines[at..next + gap];
  }

  function TotalShown(merged: seq<Span>): int {
    if merged == [] then 0
    else TotalShown(merged[..|merged| - 1]) + merged[|merged| - 1].1 - merged[|merged| - 1].0 + 1
  }

  /** The lines shown, window by window, are the lines the windows cover. */
  lemma {:induction false} TotalShownCounts(merged: seq<Span>)
    requires Apart(merged)
    ensures TotalShown(merged) == |LinesOf(merged)|
    ensures forall line :: line in LinesOf(merged) <==> Covers(merged, line)
    decreases |merged|
  {
    if merged != [] {
      var n := |merged| - 1;
      TotalShownCounts(merged[..n]);
      forall line
        ensures line in LinesOf(merged) <==> Covers(merged, line)
      {
        CoversLast(merged, line);
      }
      forall line | line in LinesOf(merged[..n])
        ensures line !in SpanLines(merged[n])
      {
        LastIsBehind(merged, line);
      }
      ApartCount(LinesOf(merged[..n]), SpanLines(merged[n]));
    }
  }

  lemma ApartCount(a: set<nat>, b: set<nat>)
    requires forall x | x in a :: x !in b
    ensures |a + b| == |a| + |b|
  {
    assert a !! b;
  }

  lemma LastIsBehind(merged: seq<Span>, line: nat)
    requires Apart(merged) && merged != [] && Covers(merged[..|merged| - 1], line)
    ensures line < merged[|merged| - 1].0
  {
    var n := |merged| - 1;
    var i :| 0 <= i < n && InSpan(merged[..n][i], line);
    GapsAreWide(merged, i, n);
  }

  predicate TooMuch(shown: int, parent: Parent) {
    shown as real > parent.LineCount() as real * MAX_SHARE_OF_PARENT
  }

  ghost predicate Prints(text: string, pieces: seq<Piece>) { text == Texts(pieces) }

  lemma TextsAppend(pieces: seq<Piece>, last: Piece)
    ensures Texts(pieces + [last]) == Texts(pieces) + PieceText(last) + "\n"
  {
    assert (pieces + [last])[..|pieces + [last]| - 1] == pieces;
  }

  /** The lines written behind `text`, one by one. */
  method CutWindow(lines: seq<string>, text: string, ghost pieces: seq<Piece>) returns (text': string)
    requires Prints(text, pieces)
    ensures Prints(text', pieces + ShownPieces(lines))
  {
    text' := text;
    assert pieces + ShownPieces(lines[..0]) == pieces;
    for n := 0 to |lines|
      invariant Prints(text', pieces + ShownPieces(lines[..n]))
    {
      ShownNext(pieces, lines, n);
      text' := text' + lines[n] + "\n";
    }
    assert lines[..|lines|] == lines;
  }

  lemma ShownNext(pieces: seq<Piece>, lines: seq<string>, n: nat)
    requires n < |lines|
    ensures Texts(pieces + ShownPieces(lines[..n + 1])) == Texts(pieces + ShownPieces(lines[..n])) + lines[n] + "\n"
  {
    var before := pieces + ShownPieces(lines[..n]);
    assert pieces + ShownPieces(lines[..n + 1]) == before + [Shown(lines[n])];
    TextsAppend(before, Shown(lines[n]));
  }

  method WriteGap(text: string, gap: nat, ghost pieces: seq<Piece>) returns (text': string)
    requires Prints(text, pieces)
    ensures Prints(text', pieces + [Elided(gap)])
  {
    TextsAppend(pieces, Elided(gap));
    text' := text + PieceText(Elided(gap)) + "\n";
  }

  lemma PrintsNext(text: string, lines: seq<string>, start: nat, merged: seq<Span>, i: nat)
    requires i < |merged|
    requires Prints(text, WindowPieces(lines, start, merged[..i]) + GapBefore(merged, i)
                          + ShownPieces(OwnLines(lines, start, merged[i])))
    ensures Prints(text, WindowPieces(lines, start, merged[..i + 1]))
  {
    PiecesNext(lines, start, merged, i);
  }

  /** A window, behind the pieces before it and the gap that sets it off. */
  method CutOne(lines: seq<string>, start: nat, merged: seq<Span>, i: nat, text: string, ghost pieces: seq<Piece>)
    returns (text': string)
    requires Apart(merged) && i < |merged| && start <= merged[i].0 && merged[i].1 - start < |lines|
    requires Prints(text, pieces)
    ensures Prints(text', pieces + GapBefore(merged, i) + ShownPieces(OwnLines(lines, start, merged[i])))
  {
    text' := text;
    var w := merged[i];
    ghost var before := pieces + GapBefore(merged, i);
    if i > 0 {
      var gap := w.0 - merged[i - 1].1 - 1;
      assert GapBefore(merged, i) == [Elided(gap)];
      text' := WriteGap(text', gap, pieces);
    } else {
      assert before == pieces;
    }
    var own := lines[w.0 - start..w.1 + 1 - start];
    assert own == OwnLines(lines, start, w);
    text' := CutWindow(own, text', before);
  }

  method CutNext(lines: seq<string>, start: nat, merged: seq<Span>, i: nat, text: string) returns (text': string)
    requires Apart(merged) && i < |merged| && start <= merged[0].0 && merged[i].1 - start < |lines|
    requires Prints(text, WindowPieces(lines, start, merged[..i]))
    ensures Prints(text', WindowPieces(lines, start, merged[..i + 1]))
  {
    FirstIsLeast(merged, i);
    text' := CutOne(lines, start, merged, i, text, WindowPieces(lines, start, merged[..i]));
    PrintsNext(text', lines, start, merged, i);
  }

  /** The shown lines and elisions of the merged windows; `None` when the text is too short. */
  method Cut(lines: seq<string>, start: nat, merged: seq<Span>) returns (content: Option<string>)
    requires merged != [] && Apart(merged) && start <= merged[0].0
    ensures content == if Within(lines, start, merged) then Some(Texts(WindowPieces(lines, start, merged))) else None
  {
    var text := "";
    for i := 0 to |merged|
      invariant Prints(text, WindowPieces(lines, start, merged[..i]))
      invariant i > 0 ==> merged[i - 1].1 - start < |lines|
    {
      var w := merged[i];
      if w.1 - start >= |lines| {
        LastIsLargest(merged, i);
        assert !Within(lines, start, merged);
        return None;
      }
      text := CutNext(lines, start, merged, i, text);
    }
    assert merged[..|merged|] == merged;
    assert Within(lines, start, merged) && text == Texts(WindowPieces(lines, start, merged));
    return Some(text);
  }

  lemma {:induction false} LastIsLargest(merged: seq<Span>, i: nat)
    requires Apart(merged) && i < |merged|
    ensures merged[0].0 <= merged[i].0 && merged[i].1 <= merged[|merged| - 1].1
    decreases |merged| - i
  {
    FirstIsLeast(merged, i);
    if i < |merged| - 1 {
      LastIsLargest(merged, i + 1);
    }
  }

  lemma {:induction false} FirstIsLeast(merged: seq<Span>, i: nat)
    requires Apart(merged) && i < |merged|
    ensures merged[0].0 <= merged[i].0
    decreases i
  {
    if i > 0 {
      FirstIsLeast(merged, i - 1);
    }
  }

  /** The windows a sparse excerpt shows: inside the fragment, with at least two lines between any
      two, and holding every line in the context of a hunk and each lone line between such lines,
      and no other. */
  ghost predicate ShowsWindows(parent: Parent, hunks: seq<DiffHunk>, merged: seq<Span>) {
    && merged != [] && Apart(merged)
    && parent.start <= merged[0].0 && merged[|merged| - 1].1 <= parent.end
    && (forall line :: Covers(merged, line) <==> ShownNear(parent, hunks, line))
  }

  /** Within the context of a hunk, or between two lines that are. */
  ghost predicate ShownNear(parent: Parent, hunks: seq<DiffHunk>, line: nat) {
    InContext(parent, hunks, line)
    || (line > 0 && InContext(parent, hunks, line - 1) && InContext(parent, hunks, line + 1))
  }

  ghost predicate InContext(parent: Parent, hunks: seq<DiffHunk>, line: nat) {
    exists h :: h in hunks && Hits(parent, h) && InSpan(Padded(parent, h), line)
  }

  lemma MergedNext(ws: seq<Span>, i: nat)
    requires i < |ws|
    ensures Merged(ws[..i + 1]) == Merge(Merged(ws[..i]), ws[i])
  {
    assert ws[..i + 1][..i] == ws[..i];
  }

  method MergeWindows(ws: seq<Span>) returns (merged: seq<Span>)
    ensures merged == Merged(ws)
  {
    merged := [];
    for i := 0 to |ws|
      invariant merged == Merged(ws[..i])
    {
      MergedNext(ws, i);
      var n := |merged|;
      if n > 0 && ws[i].0 <= merged[n - 1].1 + MIN_ELIDED_LINES {
        merged := merged[n - 1 := (merged[n - 1].0, Most(merged[n - 1].1, ws[i].1))];
      } else {
        merged := merged + [ws[i]];
      }
    }
    assert ws[..|ws|] == ws;
  }

  lemma {:induction false} GapsAreWide(merged: seq<Span>, i: nat, j: nat)
    requires Apart(merged) && i < j < |merged|
    ensures merged[i].1 + MIN_ELIDED_LINES < merged[j].0
    decreases j
  {
    if i < j - 1 {
      GapsAreWide(merged, i, j - 1);
    }
  }

  /** No window ends one line before another starts. */
  lemma LoneLineIsCovered(merged: seq<Span>, line: nat)
    requires Apart(merged) && line > 0 && Covers(merged, line - 1) && Covers(merged, line + 1)
    ensures Covers(merged, line)
  {
    var i :| 0 <= i < |merged| && InSpan(merged[i], line - 1);
    var j :| 0 <= j < |merged| && InSpan(merged[j], line + 1);
    if i < j {
      GapsAreWide(merged, i, j);
    } else if j < i {
      GapsAreWide(merged, j, i);
    }
    assert InSpan(merged[i], line);
  }

  /** Every selected line of the fragment is shown. */
  lemma SelectedLinesAreShown(parent: Parent, hunks: seq<DiffHunk>, merged: seq<Span>, h: DiffHunk, line: nat)
    requires ShowsWindows(parent, hunks, merged) && h in hunks && Hits(parent, h)
    requires InSpan(h.CoreSelectionRange(), line) && parent.start <= line <= parent.end
    ensures Covers(merged, line)
  {
    assert InSpan(Padded(parent, h), line);
    assert InContext(parent, hunks, line);
  }

  /** What the sorted, padded windows become. */
  lemma WindowsAreShown(parent: Parent, hunks: seq<DiffHunk>, ws: seq<Span>)
    requires parent.start <= parent.end && Sorted(ws) && ws != []
    requires forall h | h in hunks && Hits(parent, h) :: Padded(parent, h) in ws
    requires forall w | w in ws :: exists h :: h in hunks && Hits(parent, h) && Padded(parent, h) == w
    ensures ShowsWindows(parent, hunks, Merged(ws))
  {
    forall i | 0 <= i < |ws|
      ensures parent.start <= ws[i].0 <= ws[i].1 <= parent.end
    {
      assert ws[i] in ws;
    }
    MergedIsApart(ws);
    forall line | ShownNear(parent, hunks, line)
      ensures Covers(Merged(ws), line)
    {
      forall x | InContext(parent, hunks, x)
        ensures Covers(Merged(ws), x)
      {
        var h :| h in hunks && Hits(parent, h) && InSpan(Padded(parent, h), x);
        var i :| 0 <= i < |ws| && ws[i] == Padded(parent, h);
        MergedCovers(ws, x);
      }
      if !InContext(parent, hunks, line) {
        LoneLineIsCovered(Merged(ws), line);
      }
    }
    forall line | Covers(Merged(ws), line)
      ensures ShownNear(parent, hunks, line)
    {
      MergedCovers(ws, line);
      forall x | Covers(ws, x)
        ensures InContext(parent, hunks, x)
      {
        var i :| 0 <= i < |ws| && InSpan(ws[i], x);
        assert ws[i] in ws;
      }
    }
  }

  /** The sparse excerpt of these windows: their lines with the gaps between them elided, from the
      first to the last, unless they are fewer than two, save too little, span the whole fragment or
      go beyond its text. */
  ghost predicate IsSparse(parent: Parent, merged: seq<Span>, r: Option<Excerpt>) {
    var lines := Lines(parent.content);
    if || |merged| < 2 || 10 * TotalShown(merged) > 7 * (parent.end - parent.start + 1)
       || (merged[0].0, merged[|merged| - 1].1) == (parent.start, parent.end)
       || |lines| <= merged[|merged| - 1].1 - parent.start
    then r == None
    else
      && r.Some? && r.value.start == merged[0].0 && r.value.end == merged[|merged| - 1].1
      && Split(r.value.content) == PieceTexts(WindowPieces(lines, parent.start, merged))
  }

  /** The changed windows with elisions between them, when they are several, save enough and do
      not span the whole fragment. */
  method SparseExcerpt(parent: Parent, hunks: seq<DiffHunk>) returns (r: Option<Excerpt>)
    requires parent.start <= parent.end
    ensures (forall h | h in hunks :: !Hits(parent, h)) ==> r == None
    ensures (exists h :: h in hunks && Hits(parent, h)) ==>
              exists merged :: ShowsWindows(parent, hunks, merged) && IsSparse(parent, merged, r)
  {
    var ws := SortedWindows(parent, hunks);
    var windows := MergeWindows(ws);
    if ws == [] {
      assert forall h | h in hunks :: !Hits(parent, h);
      return None;
    }
    WindowsAreShown(parent, hunks, ws);
    assert exists h :: h in hunks && Hits(parent, h) by {
      assert ws[0] in ws;
    }
    r := SparseOf(parent, hunks, windows);
    assert ShowsWindows(parent, hunks, windows) && IsSparse(parent, windows, r);
  }

  method SparseOf(parent: Parent, ghost hunks: seq<DiffHunk>, windows: seq<Span>) returns (r: Option<Excerpt>)
    requires ShowsWindows(parent, hunks, windows)
    ensures IsSparse(parent, windows, r)
  {
    if |windows| < 2 || TooMuch(TotalShown(windows), parent) {
      return None;
    }
    var start, end := windows[0].0, windows[|windows| - 1].1;
    if (start, end) == (parent.start, parent.end) {
      return None;
    }
    var text := Cut(Lines(parent.content), parent.start, windows);
    if text.None? {
      return None;
    }
    LinesHoldNoLineFeed(parent.content);
    TextsRead(Lines(parent.content), parent.start, windows);
    return Some(Excerpt(start, end, Popped(text.value)));
  }

  // ---------- the excerpt of a fragment ----------

  /** The window and its context inside the fragment. */
  function Widened(parent: Parent, w: Span): Span {
    (Most(Minus(w.0, CONTEXT_LINES), parent.start), Least(w.1 + CONTEXT_LINES, parent.end))
  }

  /** The contiguous excerpt: split at the line breaks it is the fragment's own lines of the range,
      as far as its text goes, unless that ends before them or they are all blank. */
  ghost predicate IsSlice(parent: Parent, span: Span, r: Option<Excerpt>) {
    var lines := Lines(parent.content);
    && parent.start <= span.0 <= span.1 <= parent.end
    && if |lines| <= span.0 - parent.start then r == None
       else HoldsLines(RangeLines(lines, parent.start, span), span, r)
  }

  /** The lines of a range of a text that starts at line `start`, as far as it goes. */
  function RangeLines(lines: seq<string>, start: nat, span: Span): (own: seq<string>)
    requires start <= span.0 <= span.1 && span.0 - start < |lines|
    ensures |own| == Least(span.1 + 1 - span.0, |lines| - (span.0 - start)) && own != []
    ensures forall i | 0 <= i < |own| :: own[i] == lines[span.0 - start + i]
  {
    lines[span.0 - start..Least(span.1 + 1 - start, |lines|)]
  }

  ghost predicate HoldsLines(own: seq<string>, span: Span, r: Option<Excerpt>) {
    if forall i | 0 <= i < |own| :: Blank(own[i]) then r == None
    else r.Some? && (r.value.start, r.value.end) == span && Split(r.value.content) == own
  }

  /** The excerpt of a window: the slice of it with its context, or the sparse excerpt when that
      would be most of the fragment. */
  ghost predicate FromWindow(parent: Parent, hunks: seq<DiffHunk>, w: Span, r: Option<Excerpt>) {
    var span := Widened(parent, w);
    if 10 * (span.1 - span.0 + 1) > 7 * (parent.end - parent.start + 1) then
      exists merged :: ShowsWindows(parent, hunks, merged) && IsSparse(parent, merged, r)
    else IsSlice(parent, span, r)
  }

  method ExcerptFrom(parent: Parent, hunks: seq<DiffHunk>) returns (r: Option<Excerpt>)
    requires parent.start <= parent.end
    ensures if parent.isStub || parent.end - parent.start + 1 < 12
               || (forall h | h in hunks :: !Hits(parent, h))
            then r == None
            else exists w :: IsWindow(parent, hunks, w) && FromWindow(parent, hunks, w, r)
  {
    if parent.isStub || parent.LineCount() < MIN_PARENT_LINES {
      return None;
    }
    var window := HunkWindow(parent, hunks);
    if window.None? {
      return None;
    }
    r := ExcerptOf(parent, hunks, window.value);
    assert IsWindow(parent, hunks, window.value) && FromWindow(parent, hunks, window.value, r);
  }

  method ExcerptOf(parent: Parent, hunks: seq<DiffHunk>, w: Span) returns (r: Option<Excerpt>)
    requires parent.start <= parent.end && IsWindow(parent, hunks, w)
    ensures FromWindow(parent, hunks, w, r)
  {
    WindowIsInside(parent, hunks, w);
    var start := Most(Minus(w.0, CONTEXT_LINES), parent.start);
    var end := Least(w.1 + CONTEXT_LINES, parent.end);
    assert Widened(parent, w) == (start, end);
    if TooMuch(end - start + 1, parent) {
      r := SparseExcerpt(parent, hunks);
    } else {
      r := Slice(parent, start, end);
    }
  }

  method Slice(parent: Parent, start: nat, end: nat) returns (r: Option<Excerpt>)
    requires parent.start <= start <= end <= parent.end
    ensures IsSlice(parent, (start, end), r)
  {
    var lines := Lines(parent.content);
    var offset := start - parent.start;
    if offset >= |lines| {
      return None;
    }
    var stop := Least(offset + (end - start + 1), |lines|);
    var own := lines[offset..stop];
    assert own == RangeLines(lines, parent.start, (start, end));
    LinesHoldNoLineFeed(parent.content);
    JoinedReads(own);
    var content := Joined(own);
    r := if Blank(content) then None else Some(Excerpt(start, end, content));
    assert HoldsLines(own, (start, end), r);
  }

  lemma JoinedReads(own: seq<string>)
    requires own != [] && forall i | 0 <= i < |own| :: '\n' !in own[i]
    ensures Split(Joined(own)) == own && (Blank(Joined(own)) <==> forall i | 0 <= i < |own| :: Blank(own[i]))
  {
    SplitOfJoined(own);
    BlankJoined(own);
  }

  // ---------- reading an excerpt back ----------

  /** The number an elision names. */
  function ElisionCount(line: string): Option<nat> {
    match StripPrefix(line, "\U{2026} [")
    case None => None
    case Some(rest) =>
      match StripSuffix(rest, " unchanged lines]")
      case None => None
      case Some(n) => ParseNat(n)
  }

  function ReadPiece(line: string): Piece {
    if ElisionCount(line).Some? then Elided(ElisionCount(line).value) else Shown(line)
  }

  function ReadPieces(lines: seq<string>): (r: seq<Piece>)
    ensures |r| == |lines| && forall i | 0 <= i < |lines| :: r[i] == ReadPiece(lines[i])
  {
    seq(|lines|, i requires 0 <= i < |lines| => ReadPiece(lines[i]))
  }

  lemma ElisionReads(count: nat)
    ensures ElisionCount(PieceText(Elided(count))) == Some(count)
  {
    var prefix, n, suffix := "\U{2026} [", NatText(count), " unchanged lines]";
    ParseNatOfNatText(count);
    assert PieceText(Elided(count)) == prefix + n + suffix == prefix + (n + suffix);
    assert StripPrefix(prefix + (n + suffix), prefix) == Some(n + suffix);
    assert StripSuffix(n + suffix, suffix) == Some(n);
  }

  /** Pieces read back exactly when none of the lines shown looks like an elision. */
  lemma PiecesRead(pieces: seq<Piece>)
    ensures ReadPieces(PieceTexts(pieces)) == pieces <==> PiecesTell(pieces)
  {
    forall i | 0 <= i < |pieces|
      ensures ReadPieces(PieceTexts(pieces))[i] == pieces[i]
         <==> (pieces[i].Shown? ==> ElisionCount(pieces[i].text).None?)
    {
      if pieces[i].Elided? {
        ElisionReads(pieces[i].count);
      }
    }
  }

  /** None of the lines shown looks like an elision. */
  ghost predicate Tells(lines: seq<string>, start: nat, merged: seq<Span>) {
    forall i | 0 <= i < |lines| && Covers(merged, start + i) :: ElisionCount(lines[i]).None?
  }

  /** None of the pieces shown looks like an elision. */
  ghost predicate PiecesTell(pieces: seq<Piece>) {
    forall k | 0 <= k < |pieces| && pieces[k].Shown? :: ElisionCount(pieces[k].text).None?
  }

  lemma LinesTell(lines: seq<string>, start: nat, merged: seq<Span>, pieces: seq<Piece>)
    requires Within(lines, start, merged) && pieces == WindowPieces(lines, start, merged) && Tells(lines, start, merged)
    ensures PiecesTell(pieces)
  {
    forall k | 0 <= k < |pieces| && pieces[k].Shown?
      ensures ElisionCount(pieces[k].text).None?
    {
      var i := ShownIsCovered(lines, start, merged, pieces[k]);
    }
  }

  lemma LineTells(lines: seq<string>, start: nat, merged: seq<Span>, pieces: seq<Piece>, i: nat)
    requires Within(lines, start, merged) && pieces == WindowPieces(lines, start, merged) && PiecesTell(pieces)
    requires i < |lines| && Covers(merged, start + i)
    ensures ElisionCount(lines[i]).None?
  {
    CoveredIsShown(lines, start, merged, start + i);
    assert Shown(lines[start + i - start]) in pieces;
    ShownTellsOf(pieces, lines[i]);
  }

  lemma ShownTellsOf(pieces: seq<Piece>, text: string)
    requires PiecesTell(pieces) && Shown(text) in pieces
    ensures ElisionCount(text).None?
  {
    var k :| 0 <= k < |pieces| && pieces[k] == Shown(text);
  }

  lemma ShownTells(lines: seq<string>, start: nat, merged: seq<Span>, pieces: seq<Piece>)
    requires Within(lines, start, merged) && pieces == WindowPieces(lines, start, merged)
    ensures Tells(lines, start, merged) <==> PiecesTell(pieces)
  {
    if Tells(lines, start, merged) {
      LinesTell(lines, start, merged, pieces);
    }
    if PiecesTell(pieces) {
      forall i | 0 <= i < |lines| && Covers(merged, start + i)
        ensures ElisionCount(lines[i]).None?
      {
        LineTells(lines, start, merged, pieces, i);
      }
    }
  }

  /** The lines a sparse excerpt shows are told from its elisions exactly when none of them looks
      like one. */
  lemma SparseReadsIff(parent: Parent, merged: seq<Span>, r: Option<Excerpt>)
    requires IsSparse(parent, merged, r) && r.Some? && Within(Lines(parent.content), parent.start, merged)
    ensures ReadPieces(Split(r.value.content)) == WindowPieces(Lines(parent.content), parent.start, merged)
       <==> Tells(Lines(parent.content), parent.start, merged)
  {
    var pieces := WindowPieces(Lines(parent.content), parent.start, merged);
    PiecesRead(pieces);
    ShownTells(Lines(parent.content), parent.start, merged, pieces);
  }

  /** Then, filled with the numbers of lines its elisions name, it is the fragment's text from its
      first line to its last. */
  lemma SparseReads(parent: Parent, merged: seq<Span>, r: Option<Excerpt>, texts: seq<string>, from: int, to: int)
    requires IsSparse(parent, merged, r) && r.Some? && Within(Lines(parent.content), parent.start, merged)
    requires Tells(Lines(parent.content), parent.start, merged)
    requires texts == Split(r.value.content)
    requires from == r.value.start - parent.start && to == r.value.end + 1 - parent.start
    ensures Fills(ReadPieces(texts), Lines(parent.content), from, to)
  {
    SparseParts(parent, merged, r);
    TextsFill(Lines(parent.content), parent.start, merged, texts, from, to);
  }

  lemma TextsFill(lines: seq<string>, start: nat, merged: seq<Span>, texts: seq<string>, from: int, to: int)
    requires Within(lines, start, merged) && Tells(lines, start, merged)
    requires texts == PieceTexts(WindowPieces(lines, start, merged))
    requires from == merged[0].0 - start && to == merged[|merged| - 1].1 + 1 - start
    ensures Fills(ReadPieces(texts), lines, from, to)
  {
    var pieces := WindowPieces(lines, start, merged);
    PiecesRead(pieces);
    ShownTells(lines, start, merged, pieces);
    ReadFills(lines, start, merged, ReadPieces(texts), from, to);
  }

  lemma ReadFills(lines: seq<string>, start: nat, merged: seq<Span>, pieces: seq<Piece>, from: int, to: int)
    requires Within(lines, start, merged) && pieces == WindowPieces(lines, start, merged)
    requires from == merged[0].0 - start && to == merged[|merged| - 1].1 + 1 - start
    ensures Fills(pieces, lines, from, to)
  {
    PiecesFill(lines, start, merged);
  }

  lemma SparseParts(parent: Parent, merged: seq<Span>, r: Option<Excerpt>)
    requires IsSparse(parent, merged, r) && r.Some?
    ensures merged != [] && r.value.start == merged[0].0 && r.value.end == merged[|merged| - 1].1
    ensures Split(r.value.content) == PieceTexts(WindowPieces(Lines(parent.content), parent.start, merged))
  {}

  lemma SparseIsWithin(parent: Parent, hunks: seq<DiffHunk>, merged: seq<Span>, r: Option<Excerpt>)
    requires ShowsWindows(parent, hunks, merged) && IsSparse(parent, merged, r) && r.Some?
    ensures Within(Lines(parent.content), parent.start, merged)
  {}

  lemma {:induction false} ShownIsCovered(lines: seq<string>, start: nat, merged: seq<Span>, p: Piece) returns (i: nat)
    requires Within(lines, start, merged) && p in WindowPieces(lines, start, merged) && p.Shown?
    ensures i < |lines| && Covers(merged, start + i) && p.text == lines[i]
    decreases |merged|
  {
    var n := |merged| - 1;
    if p in ShownPieces(OwnLines(lines, start, merged[n])) {
      i := OwnIsCovered(lines, start, merged, p);
    } else {
      assert p !in GapBefore(merged, n);
      WithinPrefix(lines, start, merged);
      i := ShownIsCovered(lines, start, merged[..n], p);
      CoversLast(merged, start + i);
    }
  }

  lemma OwnIsCovered(lines: seq<string>, start: nat, merged: seq<Span>, p: Piece) returns (i: nat)
    requires Within(lines, start, merged) && p in ShownPieces(OwnLines(lines, start, merged[|merged| - 1]))
    ensures p.Shown? && i < |lines| && Covers(merged, start + i) && p.text == lines[i]
  {
    var n := |merged| - 1;
    FirstIsLeast(merged, n);
    var own := OwnLines(lines, start, merged[n]);
    var k :| 0 <= k < |own| && ShownPieces(own)[k] == p;
    i := merged[n].0 - start + k;
    assert InSpan(merged[n], start + i);
  }

  /** Every line of a window is shown. */
  lemma {:induction false} CoveredIsShown(lines: seq<string>, start: nat, merged: seq<Span>, line: nat)
    requires Within(lines, start, merged) && Covers(merged, line)
    ensures start <= line && line - start < |lines|
    ensures Shown(lines[line - start]) in WindowPieces(lines, start, merged)
    decreases |merged|
  {
    var n := |merged| - 1;
    LastIsLargest(merged, 0);
    CoversLast(merged, line);
    if InSpan(merged[n], line) {
      FirstIsLeast(merged, n);
      var own := OwnLines(lines, start, merged[n]);
      assert own[line - merged[n].0] == lines[line - start];
      assert ShownPieces(own)[line - merged[n].0] == Shown(lines[line - start]);
    } else {
      WithinPrefix(lines, start, merged);
      CoveredIsShown(lines, start, merged[..n], line);
    }
  }

  /** Every selected line of the fragment, as far as its text goes, is a line of the excerpt. */
  lemma ExcerptHoldsSelection(parent: Parent, hunks: seq<DiffHunk>, w: Span, r: Option<Excerpt>, h: DiffHunk, line: nat)
    requires parent.start <= parent.end && IsWindow(parent, hunks, w) && FromWindow(parent, hunks, w, r) && r.Some?
    requires h in hunks && Hits(parent, h) && InSpan(h.CoreSelectionRange(), line)
    requires parent.start <= line <= parent.end && line - parent.start < |Lines(parent.content)|
    ensures r.value.start <= line <= r.value.end
    ensures Lines(parent.content)[line - parent.start] in Split(r.value.content)
  {
    var lines, span := Lines(parent.content), Widened(parent, w);
    if 10 * (span.1 - span.0 + 1) > 7 * (parent.end - parent.start + 1) {
      var merged :| ShowsWindows(parent, hunks, merged) && IsSparse(parent, merged, r);
      SparseHoldsSelection(parent, hunks, merged, r, h, line);
    } else {
      SliceHoldsSelection(parent, hunks, w, h, line);
      SliceHoldsLine(parent, span, r, line);
    }
  }

  lemma SliceHoldsLine(parent: Parent, span: Span, r: Option<Excerpt>, line: nat)
    requires IsSlice(parent, span, r) && r.Some? && span.0 <= line <= span.1
    requires line - parent.start < |Lines(parent.content)|
    ensures (r.value.start, r.value.end) == span
    ensures line - span.0 < |Split(r.value.content)|
    ensures Split(r.value.content)[line - span.0] == Lines(parent.content)[line - parent.start]
  {
    var own := RangeLines(Lines(parent.content), parent.start, span);
    assert HoldsLines(own, span, r);
  }

  lemma SparseHoldsSelection(
    parent: Parent, hunks: seq<DiffHunk>, merged: seq<Span>, r: Option<Excerpt>, h: DiffHunk, line: nat)
    requires ShowsWindows(parent, hunks, merged) && IsSparse(parent, merged, r) && r.Some?
    requires h in hunks && Hits(parent, h) && InSpan(h.CoreSelectionRange(), line)
    requires parent.start <= line <= parent.end && line - parent.start < |Lines(parent.content)|
    ensures r.value.start <= line <= r.value.end
    ensures Lines(parent.content)[line - parent.start] in Split(r.value.content)
  {
    SelectedLinesAreShown(parent, hunks, merged, h, line);
    SparseIsWithin(parent, hunks, merged, r);
    SparseParts(parent, merged, r);
    SparseHoldsCovered(parent, merged, r.value, line, Split(r.value.content));
  }

  lemma SparseHoldsCovered(parent: Parent, merged: seq<Span>, e: Excerpt, line: nat, texts: seq<string>)
    requires Within(Lines(parent.content), parent.start, merged) && Covers(merged, line)
    requires e.start == merged[0].0 && e.end == merged[|merged| - 1].1
    requires texts == PieceTexts(WindowPieces(Lines(parent.content), parent.start, merged))
    ensures parent.start <= line && line - parent.start < |Lines(parent.content)| && e.start <= line <= e.end
    ensures Lines(parent.content)[line - parent.start] in texts
  {
    CoveredStands(Lines(parent.content), parent.start, merged, line, texts, e.start, e.end);
  }

  lemma CoveredStands(lines: seq<string>, start: nat, merged: seq<Span>, line: nat, texts: seq<string>,
                      first: nat, last: nat)
    requires Within(lines, start, merged) && Covers(merged, line)
    requires first == merged[0].0 && last == merged[|merged| - 1].1
    requires texts == PieceTexts(WindowPieces(lines, start, merged))
    ensures start <= line && line - start < |lines| && lines[line - start] in texts && first <= line <= last
  {
    CoveredIsText(lines, start, merged, line, texts);
    CoveredIsInside(merged, line);
  }

  lemma CoveredIsText(lines: seq<string>, start: nat, merged: seq<Span>, line: nat, texts: seq<string>)
    requires Within(lines, start, merged) && Covers(merged, line)
    requires texts == PieceTexts(WindowPieces(lines, start, merged))
    ensures start <= line && line - start < |lines| && lines[line - start] in texts
  {
    CoveredIsShown(lines, start, merged, line);
    var pieces := WindowPieces(lines, start, merged);
    var i :| 0 <= i < |pieces| && pieces[i] == Shown(lines[line - start]);
    assert texts[i] == lines[line - start];
  }

  lemma CoveredIsInside(merged: seq<Span>, line: nat)
    requires Apart(merged) && Covers(merged, line)
    ensures merged != [] && merged[0].0 <= line <= merged[|merged| - 1].1
  {
    var j :| 0 <= j < |merged| && InSpan(merged[j], line);
    FirstIsLeast(merged, j);
    LastIsLargest(merged, j);
  }

  predicate Near(a: nat, b: nat) { a <= b + 3 && b <= a + 3 }

  /** A hunk meets a fragment when it selects a line of it. */
  lemma HitsInLines(parent: Parent, h: DiffHunk)
    requires parent.start <= parent.end
    ensures Hits(parent, h)
       <==> h.path == parent.path
            && exists line: nat :: InSpan(h.CoreSelectionRange(), line) && parent.start <= line <= parent.end
  {
    if Hits(parent, h) {
      var line := Most(h.CoreSelectionRange().0, parent.start);
      assert InSpan(h.CoreSelectionRange(), line);
    }
  }

  /** The window of a hunk is every line of the fragment near a line of the hunk. */
  lemma PaddedInLines(parent: Parent, h: DiffHunk, line: nat)
    requires parent.start <= parent.end && Hits(parent, h)
    ensures InSpan(Padded(parent, h), line)
       <==> && parent.start <= line <= parent.end
            && exists selected :: InSpan(h.CoreSelectionRange(), selected) && Near(selected, line)
  {
    var (lo, hi) := h.CoreSelectionRange();
    if InSpan(Padded(parent, h), line) {
      var selected := Most(lo, Least(line, hi));
      assert InSpan((lo, hi), selected) && Near(selected, line);
    }
  }

  /** The contiguous excerpt is of the lines of the fragment from near the first line selected to
      near the last. */
  lemma WidenedInLines(parent: Parent, w: Span, line: nat)
    requires parent.start <= w.0 <= w.1 <= parent.end
    ensures InSpan(Widened(parent, w), line)
       <==> parent.start <= line <= parent.end && (Near(w.0, line) || Near(w.1, line) || w.0 <= line <= w.1)
  {}

  /** The contiguous excerpt holds every selected line of the fragment. */
  lemma SliceHoldsSelection(parent: Parent, hunks: seq<DiffHunk>, w: Span, h: DiffHunk, line: nat)
    requires parent.start <= parent.end && IsWindow(parent, hunks, w) && h in hunks && Hits(parent, h)
    requires InSpan(h.CoreSelectionRange(), line) && parent.start <= line <= parent.end
    ensures Widened(parent, w).0 <= line <= Widened(parent, w).1
  {
    WindowIsInside(parent, hunks, w);
  }

  lemma WindowIsInside(parent: Parent, hunks: seq<DiffHunk>, w: Span)
    requires parent.start <= parent.end && IsWindow(parent, hunks, w)
    ensures parent.start <= w.0 <= w.1 <= parent.end
    ensures forall h, line: nat | h in hunks && Hits(parent, h) && InSpan(h.CoreSelectionRange(), line)
              && parent.start <= line <= parent.end :: w.0 <= line <= w.1
  {
    var h :| h in hunks && Hits(parent, h) && w.0 == Most(h.CoreSelectionRange().0, parent.start);
    assert Least(h.CoreSelectionRange().1, parent.end) <= w.1;
  }
}
