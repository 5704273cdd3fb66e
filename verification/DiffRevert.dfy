/** Undoing the canonical runs of an edit script on the text after the change: exactly when it
    succeeds, and what it gives. */
module DiffRevert {
  import opened Text
  import opened ChangeClass
  import opened UnifiedDiff

  // ---------- the canonical runs are the difference of two sides ----------

  const NOTHING := Block(0, 0, [], [])

  lemma {:induction false} BeforeGrows(s: seq<Op>, i: nat, k: nat)
    requires i <= k <= |s|
    ensures Before(s, i) <= Before(s, k) && After(s, i) <= After(s, k)
    decreases k
  {
    if i < k {
      BeforeGrows(s, i, k - 1);
    }
  }

  /** No changed line ends in a carriage return. */
  ghost predicate TrimmedChanges(s: seq<Op>) {
    forall i | 0 <= i < |s| && s[i].Change() :: TrimEndCR(s[i].text) == s[i].text
  }

  /** Of the sides `b` and `a` read so far the block holds the last lines, and the lines between
      positions `bi`, `aj` and the block are the same on both. */
  ghost predicate Laid(b: seq<string>, a: seq<string>, block: Block, bi: nat, aj: nat) {
    && bi <= block.o <= |b| && b[block.o..] == block.removed
    && aj <= block.n <= |a| && a[block.n..] == block.added
    && b[bi..block.o] == a[aj..block.n]
    && Trimmed(block.removed) == block.removed && Trimmed(block.added) == block.added
  }

  /** A part of a list from `at` on, when the list has one line more. */
  lemma PartGrows(lines: seq<string>, l: string, from: nat, at: nat)
    requires from <= at <= |lines|
    ensures (lines + [l])[from..at] == lines[from..at] && (lines + [l])[at..] == lines[at..] + [l]
    ensures (lines + [l])[|lines|..|lines| + 1] == [l] && (lines + [l])[|lines| + 1..] == []
  {
  }

  lemma LaidKept(b: seq<string>, a: seq<string>, block: Block, bi: nat, aj: nat, l: string)
    requires Laid(b, a, block, bi, aj) && block.Empty()
    ensures Laid(b + [l], a + [l], Block(|b| + 1, |a| + 1, [], []), bi, aj)
  {
    assert |b| == block.o && |a| == block.n;
    assert (b + [l])[bi..block.o + 1] == b[bi..block.o] + [l];
    assert (a + [l])[aj..block.n + 1] == a[aj..block.n] + [l];
  }

  lemma LaidSide(lines: seq<string>, l: string, from: nat, at: nat, part: seq<string>)
    requires from <= at <= |lines| && lines[at..] == part && Trimmed(part) == part && TrimEndCR(l) == l
    ensures (lines + [l])[from..at] == lines[from..at]
    ensures (lines + [l])[at..] == part + [l] && Trimmed(part + [l]) == part + [l]
  {
    PartGrows(lines, l, from, at);
    TrimmedAppend(part, l);
  }

  lemma LaidRemoved(b: seq<string>, a: seq<string>, block: Block, bi: nat, aj: nat, l: string)
    requires Laid(b, a, block, bi, aj) && TrimEndCR(l) == l
    ensures Laid(b + [l], a, block.(removed := block.removed + [l]), bi, aj)
  {
    LaidSide(b, l, bi, block.o, block.removed);
  }

  lemma LaidAdded(b: seq<string>, a: seq<string>, block: Block, bi: nat, aj: nat, l: string)
    requires Laid(b, a, block, bi, aj) && TrimEndCR(l) == l
    ensures Laid(b, a + [l], block.(added := block.added + [l]), bi, aj)
  {
    LaidSide(a, l, aj, block.n, block.added);
  }

  lemma LaidAfresh(b: seq<string>, a: seq<string>, l: string)
    ensures Laid(b + [l], a + [l], Block(|b| + 1, |a| + 1, [], []), |b|, |a|)
  {
    PartGrows(b, l, |b|, |b|);
    PartGrows(a, l, |a|, |a|);
  }

  lemma SidesNext(s: seq<Op>, i: nat)
    requires i < |s|
    ensures Before(s, i + 1) == if s[i].Old() then Before(s, i) + [s[i].text] else Before(s, i)
    ensures After(s, i + 1) == if s[i].New() then After(s, i) + [s[i].text] else After(s, i)
  {
    assert Before(s, i) + [] == Before(s, i) && After(s, i) + [] == After(s, i);
  }

  lemma LaidNext(s: seq<Op>, i: nat, block: Block, bi: nat, aj: nat)
    requires i < |s| && TrimmedChanges(s) && Laid(Before(s, i), After(s, i), block, bi, aj)
    requires s[i].Change() || block.Empty()
    ensures Laid(Before(s, i + 1), After(s, i + 1), block.Next(s[i]), bi, aj)
  {
    SidesNext(s, i);
    match s[i].kind
    case Keep =>
      assert |Before(s, i)| == block.o && |After(s, i)| == block.n;
      LaidKept(Before(s, i), After(s, i), block, bi, aj, s[i].text);
    case Del => LaidRemoved(Before(s, i), After(s, i), block, bi, aj, s[i].text);
    case Add => LaidAdded(Before(s, i), After(s, i), block, bi, aj, s[i].text);
  }

  /** A kept line after a block starts afresh behind the block. */
  lemma LaidAfterBlock(s: seq<Op>, i: nat, block: Block, bi: nat, aj: nat)
    requires i < |s| && Laid(Before(s, i), After(s, i), block, bi, aj) && s[i].kind == Keep
    ensures Laid(Before(s, i + 1), After(s, i + 1), block.Next(s[i]), |Before(s, i)|, |After(s, i)|)
  {
    var b, a := Before(s, i), After(s, i);
    SidesNext(s, i);
    assert |b| == block.o + |block.removed| && |a| == block.n + |block.added|;
    assert block.Next(s[i]) == Block(|b| + 1, |a| + 1, [], []);
    LaidAfresh(b, a, s[i].text);
  }

  /** One side of a block: its lines are the last ones of the part read so far. */
  lemma LaidCuts(text: seq<string>, part: seq<string>, from: nat, above: nat, lines: seq<string>)
    requires part <= text && from <= above <= |part| && part[above..] == lines && Trimmed(lines) == lines
    ensures var start := if lines == [] then above else above + 1;
      && At(start, |lines|) == above && End(start, |lines|) == |part|
      && Cuts(text, from, start, |lines|, lines)
    ensures text[from..above] == part[from..above]
  {
    SliceOfPrefix(part, text, above, |part|);
    SliceOfPrefix(part, text, from, above);
    assert part[above..|part|] == part[above..];
  }

  lemma LaidFits(path: string, b: seq<string>, a: seq<string>, before: seq<string>, after: seq<string>,
                 block: Block, bi: nat, aj: nat)
    requires Laid(b, a, block, bi, aj) && !block.Empty() && b <= before && a <= after
    ensures var run := block.Run(path);
      && End(run.oldStart, run.oldLen) == |b| && End(run.newStart, run.newLen) == |a|
      && Fits(before, bi, after, aj, run)
  {
    LaidCuts(before, b, bi, block.o, block.removed);
    LaidCuts(after, a, aj, block.n, block.added);
  }

  /** The runs from line `i` on, in terms of those from the next line on. */
  lemma BlocksNext(path: string, s: seq<Op>, i: nat, block: Block)
    requires i < |s|
    ensures var rest := BlocksFrom(path, s, i + 1, block.Next(s[i]));
            BlocksFrom(path, s, i, block) == if s[i].Change() || block.Empty() then rest else [block.Run(path)] + rest
  {
  }

  lemma {:induction false} BlocksAligned(path: string, s: seq<Op>, i: nat, block: Block, bi: nat, aj: nat,
                                         before: seq<string>, after: seq<string>)
    requires i <= |s| && TrimmedChanges(s) && Laid(Before(s, i), After(s, i), block, bi, aj)
    requires before == Before(s, |s|) && after == After(s, |s|)
    ensures bi <= |before| && aj <= |after| && Aligned(before, bi, after, aj, BlocksFrom(path, s, i, block))
    decreases |s| - i
  {
    if i == |s| {
      LastBlockAligned(path, s, before, after, block, bi, aj);
    } else if s[i].Change() || block.Empty() {
      LaidNext(s, i, block, bi, aj);
      BlocksNext(path, s, i, block);
      BlocksAligned(path, s, i + 1, block.Next(s[i]), bi, aj, before, after);
    } else {
      var rest := BlocksFrom(path, s, i + 1, block.Next(s[i]));
      LaidAfterBlock(s, i, block, bi, aj);
      BlocksAligned(path, s, i + 1, block.Next(s[i]), |Before(s, i)|, |After(s, i)|, before, after);
      BlocksNext(path, s, i, block);
      BeforeGrows(s, i, |s|);
      ClosedAligned(path, Before(s, i), After(s, i), before, after, block, bi, aj, rest);
    }
  }

  lemma ClosedAligned(path: string, b: seq<string>, a: seq<string>, before: seq<string>, after: seq<string>,
                      block: Block, bi: nat, aj: nat, rest: seq<HunkText>)
    requires Laid(b, a, block, bi, aj) && !block.Empty() && b <= before && a <= after
    requires Aligned(before, |b|, after, |a|, rest)
    ensures bi <= |before| && aj <= |after| && Aligned(before, bi, after, aj, [block.Run(path)] + rest)
  {
    LaidFits(path, b, a, before, after, block, bi, aj);
    AlignedCons(before, bi, after, aj, block.Run(path), rest);
  }

  lemma LastBlockAligned(path: string, s: seq<Op>, before: seq<string>, after: seq<string>,
                         block: Block, bi: nat, aj: nat)
    requires Laid(before, after, block, bi, aj)
    ensures Aligned(before, bi, after, aj, BlocksFrom(path, s, |s|, block))
  {
    if block.Empty() {
      assert before[bi..] == before[bi..block.o] && after[aj..] == after[aj..block.n];
    } else {
      LaidFits(path, before, after, before, after, block, bi, aj);
      AlignedCons(before, bi, after, aj, block.Run(path), []);
      assert [block.Run(path)] + [] == [block.Run(path)];
    }
  }

  lemma AlignedCons(before: seq<string>, i: nat, after: seq<string>, j: nat, run: HunkText, rest: seq<HunkText>)
    requires i <= |before| && j <= |after| && Fits(before, i, after, j, run)
    requires End(run.oldStart, run.oldLen) <= |before| && End(run.newStart, run.newLen) <= |after|
    requires Aligned(before, End(run.oldStart, run.oldLen), after, End(run.newStart, run.newLen), rest)
    ensures Aligned(before, i, after, j, [run] + rest)
  {
    assert ([run] + rest)[1..] == rest;
  }

  /** The canonical runs are the difference between the two sides of their script. */
  lemma CanonicalAligned(path: string, s: seq<Op>)
    requires TrimmedChanges(s)
    ensures Aligned(Before(s, |s|), 0, After(s, |s|), 0, CanonicalRuns(path, s))
  {
    BlocksAligned(path, s, 0, NOTHING, 0, 0, Before(s, |s|), After(s, |s|));
  }

  lemma {:induction false} BlocksWellFormed(path: string, s: seq<Op>, i: nat, block: Block)
    requires i <= |s|
    ensures forall run | run in BlocksFrom(path, s, i, block) :: run.WellFormed() && run.path == path
    decreases |s| - i
  {
    if i < |s| {
      BlocksWellFormed(path, s, i + 1, block.Next(s[i]));
    }
  }

  // ---------- a script and the text it is undone on ----------

  /** Every added line stands in `lines` where the script puts it, without the carriage returns at
      its end. */
  ghost predicate Takes(s: seq<Op>, lines: seq<string>) {
    forall i | 0 <= i < |s| && s[i].kind == Add ::
      |After(s, i)| < |lines| && lines[|After(s, i)|] == TrimEndCR(s[i].text)
  }

  function RestoredOp(s: seq<Op>, lines: seq<string>, i: nat): Op
    requires i < |s|
  {
    if s[i].Change() then s[i].(text := TrimEndCR(s[i].text))
    else s[i].(text := if |After(s, i)| < |lines| then lines[|After(s, i)|] else "")
  }

  /** The script with the kept lines as `lines` has them and the changed ones trimmed. */
  function Restored(s: seq<Op>, lines: seq<string>): (t: seq<Op>)
    ensures |t| == |s| && forall i | 0 <= i < |s| :: t[i] == RestoredOp(s, lines, i)
  {
    seq(|s|, i requires 0 <= i < |s| => RestoredOp(s, lines, i))
  }

  lemma {:induction false} RestoredAfter(s: seq<Op>, lines: seq<string>, i: nat)
    requires i <= |s| && |After(s, |s|)| == |lines| && Takes(s, lines)
    ensures |After(s, i)| <= |lines| && After(Restored(s, lines), i) == lines[..|After(s, i)|]
    decreases i
  {
    BeforeGrows(s, i, |s|);
    if i > 0 {
      RestoredAfter(s, lines, i - 1);
      RestoredNew(s, lines, i - 1);
    }
  }

  lemma RestoredNew(s: seq<Op>, lines: seq<string>, i: nat)
    requires i < |s| && Takes(s, lines)
    ensures |After(s, i + 1)| <= |lines| ==>
              lines[..|After(s, i + 1)|]
              == lines[..|After(s, i)|] + if s[i].New() then [Restored(s, lines)[i].text] else []
    ensures Restored(s, lines)[i].New() == s[i].New()
  {
    assert Restored(s, lines)[i] == RestoredOp(s, lines, i);
    var n := |After(s, i)|;
    if s[i].New() && n < |lines| {
      assert lines[..n + 1] == lines[..n] + [lines[n]];
    }
  }

  // ---------- runs that differ at line ends ----------

  predicate SameRun(a: HunkText, b: HunkText) {
    && a.oldStart == b.oldStart && a.oldLen == b.oldLen && a.newStart == b.newStart && a.newLen == b.newLen
    && Trimmed(a.removed) == Trimmed(b.removed) && Trimmed(a.added) == Trimmed(b.added)
  }

  predicate SameRuns(a: seq<HunkText>, b: seq<HunkText>) {
    |a| == |b| && forall k | 0 <= k < |a| :: SameRun(a[k], b[k])
  }

  predicate SameBlock(a: Block, b: Block) {
    a.o == b.o && a.n == b.n && Trimmed(a.removed) == Trimmed(b.removed) && Trimmed(a.added) == Trimmed(b.added)
  }

  /** The same edits, the changed lines apart from their ends. */
  predicate SameChanges(s: seq<Op>, t: seq<Op>) {
    && |s| == |t|
    && forall i | 0 <= i < |s| ::
         s[i].kind == t[i].kind && (s[i].Change() ==> TrimEndCR(s[i].text) == TrimEndCR(t[i].text))
  }

  lemma SameNext(a: Block, b: Block, x: Op, y: Op)
    requires SameBlock(a, b) && x.kind == y.kind && (x.Change() ==> TrimEndCR(x.text) == TrimEndCR(y.text))
    ensures SameBlock(a.Next(x), b.Next(y))
  {
    TrimmedAppend(a.removed, x.text);
    TrimmedAppend(b.removed, y.text);
    TrimmedAppend(a.added, x.text);
    TrimmedAppend(b.added, y.text);
    assert |a.removed| == |Trimmed(a.removed)| && |a.added| == |Trimmed(a.added)|;
    assert |b.removed| == |Trimmed(b.removed)| && |b.added| == |Trimmed(b.added)|;
  }

  lemma TrimmedAppend(ls: seq<string>, l: string)
    ensures Trimmed(ls + [l]) == Trimmed(ls) + [TrimEndCR(l)]
  {
  }

  lemma SameClosed(path: string, a: Block, b: Block)
    requires SameBlock(a, b)
    ensures a.Empty() == b.Empty() && SameRun(a.Run(path), b.Run(path))
  {
    assert |a.removed| == |Trimmed(a.removed)| && |a.added| == |Trimmed(a.added)|;
    assert |b.removed| == |Trimmed(b.removed)| && |b.added| == |Trimmed(b.added)|;
  }

  lemma {:induction false} SameBlocks(path: string, s: seq<Op>, t: seq<Op>, i: nat, a: Block, b: Block)
    requires SameChanges(s, t) && i <= |s| && SameBlock(a, b)
    ensures SameRuns(BlocksFrom(path, s, i, a), BlocksFrom(path, t, i, b))
    decreases |s| - i
  {
    SameClosed(path, a, b);
    if i < |s| {
      SameNext(a, b, s[i], t[i]);
      SameBlocks(path, s, t, i + 1, a.Next(s[i]), b.Next(t[i]));
      SameRunsCons(a.Run(path), b.Run(path),
                   BlocksFrom(path, s, i + 1, a.Next(s[i])), BlocksFrom(path, t, i + 1, b.Next(t[i])));
    }
  }

  lemma SameRunsCons(a: HunkText, b: HunkText, x: seq<HunkText>, y: seq<HunkText>)
    requires SameRun(a, b) && SameRuns(x, y)
    ensures SameRuns([a] + x, [b] + y) && SameRuns([] + x, [] + y)
  {
    assert [] + x == x && [] + y == y;
  }

  lemma {:induction false} SameAligned(
    before: seq<string>, i: nat, after: seq<string>, j: nat, a: seq<HunkText>, b: seq<HunkText>)
    requires SameRuns(a, b) && i <= |before| && j <= |after|
    ensures Aligned(before, i, after, j, a) ==> Aligned(before, i, after, j, b)
    decreases |a|
  {
    if a != [] && Aligned(before, i, after, j, a) {
      assert SameRun(a[0], b[0]);
      SameRunsRest(a, b);
      SameFits(before, i, after, j, a[0], b[0]);
      SameAligned(before, End(a[0].oldStart, a[0].oldLen), after, End(a[0].newStart, a[0].newLen), a[1..], b[1..]);
    }
  }

  lemma SameRunsRest(a: seq<HunkText>, b: seq<HunkText>)
    requires SameRuns(a, b) && a != []
    ensures SameRuns(a[1..], b[1..])
  {
    assert forall k | 0 <= k < |a| - 1 :: a[1..][k] == a[k + 1] && b[1..][k] == b[k + 1];
  }

  lemma SameFits(before: seq<string>, i: nat, after: seq<string>, j: nat, a: HunkText, b: HunkText)
    requires SameRun(a, b) && Fits(before, i, after, j, a)
    ensures Fits(before, i, after, j, b)
  {}

  // ---------- undoing the canonical runs ----------

  lemma RestoredChanges(s: seq<Op>, lines: seq<string>)
    ensures TrimmedChanges(Restored(s, lines)) && SameChanges(Restored(s, lines), s)
  {
    forall i | 0 <= i < |s|
      ensures Restored(s, lines)[i].kind == s[i].kind
      ensures s[i].Change() ==> Restored(s, lines)[i].text == TrimEndCR(s[i].text)
    {
      assert Restored(s, lines)[i] == RestoredOp(s, lines, i);
    }
  }

  lemma TakenReverts(path: string, s: seq<Op>, lines: seq<string>)
    requires |lines| == |After(s, |s|)| && Takes(s, lines)
    ensures RevertFrom(lines, 0, [], CanonicalRuns(path, s)) == Some(Before(Restored(s, lines), |s|))
  {
    var t := Restored(s, lines);
    var before := Before(t, |s|);
    RestoredChanges(s, lines);
    CanonicalAligned(path, t);
    RestoredAfter(s, lines, |s|);
    assert lines[..|lines|] == lines;
    SameBlocks(path, t, s, 0, NOTHING, NOTHING);
    SameAligned(before, 0, lines, 0, CanonicalRuns(path, t), CanonicalRuns(path, s));
    BlocksWellFormed(path, s, 0, NOTHING);
    RevertFromIsAligned(lines, 0, [], CanonicalRuns(path, s), before);
  }

  /** The block's added lines, as far as it goes, stand in `lines`. */
  ghost predicate BlockTaken(block: Block, lines: seq<string>) {
    block.n <= |lines| && Trimmed(block.added) <= lines[block.n..]
  }

  ghost predicate TakenFrom(s: seq<Op>, i: nat, lines: seq<string>) {
    forall k | i <= k < |s| && s[k].kind == Add ::
      |After(s, k)| < |lines| && lines[|After(s, k)|] == TrimEndCR(s[k].text)
  }

  lemma {:induction false} AlignedTakes(
    path: string, s: seq<Op>, i: nat, block: Block, before: seq<string>, bi: nat, lines: seq<string>, aj: nat)
    requires i <= |s| && bi <= |before| && aj <= |lines| && block.n + |block.added| == |After(s, i)|
    requires Aligned(before, bi, lines, aj, BlocksFrom(path, s, i, block))
    ensures block.added != [] ==> BlockTaken(block, lines)
    ensures TakenFrom(s, i, lines)
    decreases |s| - i
  {
    if i == |s| {
      LastTaken(path, s, block, before, bi, lines, aj);
    } else {
      var bi', aj' := Onward(path, s, i, block, before, bi, lines, aj);
      AlignedTakes(path, s, i + 1, block.Next(s[i]), before, bi', lines, aj');
      TakenNext(s, i, block, lines);
    }
  }

  /** From where on the texts are aligned by the runs from the next line on. */
  lemma Onward(path: string, s: seq<Op>, i: nat, block: Block, before: seq<string>, bi: nat,
               lines: seq<string>, aj: nat) returns (bi': nat, aj': nat)
    requires i < |s| && bi <= |before| && aj <= |lines|
    requires Aligned(before, bi, lines, aj, BlocksFrom(path, s, i, block))
    ensures bi' <= |before| && aj' <= |lines|
    ensures Aligned(before, bi', lines, aj', BlocksFrom(path, s, i + 1, block.Next(s[i])))
    ensures !s[i].Change() && block.added != [] ==> BlockTaken(block, lines)
  {
    BlocksNext(path, s, i, block);
    if s[i].Change() || block.Empty() {
      bi', aj' := bi, aj;
    } else {
      bi', aj' := ClosedTaken(path, block, before, bi, lines, aj, BlocksFrom(path, s, i + 1, block.Next(s[i])));
    }
  }

  lemma LastTaken(path: string, s: seq<Op>, block: Block, before: seq<string>, bi: nat, lines: seq<string>, aj: nat)
    requires bi <= |before| && aj <= |lines| && Aligned(before, bi, lines, aj, BlocksFrom(path, s, |s|, block))
    ensures block.added != [] ==> BlockTaken(block, lines)
  {
    if !block.Empty() {
      assert BlocksFrom(path, s, |s|, block) == [block.Run(path)];
      ClosedTakes(path, block, before, bi, lines, aj);
    }
  }

  lemma ClosedTaken(path: string, block: Block, before: seq<string>, bi: nat, lines: seq<string>, aj: nat,
                    rest: seq<HunkText>) returns (bi': nat, aj': nat)
    requires bi <= |before| && aj <= |lines| && Aligned(before, bi, lines, aj, [block.Run(path)] + rest)
    ensures block.added != [] ==> BlockTaken(block, lines)
    ensures bi' <= |before| && aj' <= |lines| && Aligned(before, bi', lines, aj', rest)
  {
    var run := block.Run(path);
    AlignedRest(before, bi, lines, aj, run, rest);
    ClosedTakes(path, block, before, bi, lines, aj);
    bi', aj' := End(run.oldStart, run.oldLen), End(run.newStart, run.newLen);
  }

  lemma AlignedRest(before: seq<string>, i: nat, after: seq<string>, j: nat, run: HunkText, rest: seq<HunkText>)
    requires i <= |before| && j <= |after| && Aligned(before, i, after, j, [run] + rest)
    ensures Fits(before, i, after, j, run)
    ensures Aligned(before, End(run.oldStart, run.oldLen), after, End(run.newStart, run.newLen), rest)
  {
    assert ([run] + rest)[0] == run && ([run] + rest)[1..] == rest;
  }

  lemma TakenNext(s: seq<Op>, i: nat, block: Block, lines: seq<string>)
    requires i < |s| && block.n + |block.added| == |After(s, i)| && TakenFrom(s, i + 1, lines)
    requires s[i].Change() && block.Next(s[i]).added != [] ==> BlockTaken(block.Next(s[i]), lines)
    ensures TakenFrom(s, i, lines)
    ensures s[i].Change() && block.added != [] ==> BlockTaken(block, lines)
  {
    if s[i].kind == Add {
      NextTaken(block, s[i].text, lines);
    }
  }

  lemma ClosedTakes(path: string, block: Block, before: seq<string>, bi: nat, lines: seq<string>, aj: nat)
    requires Fits(before, bi, lines, aj, block.Run(path))
    ensures block.added != [] ==> BlockTaken(block, lines)
  {
    if block.added != [] {
      var n, m := block.n, |block.added|;
      assert At(n + 1, m) == n && End(n + 1, m) == n + m;
      SliceStarts(lines, n, n + m);
    }
  }

  lemma SliceStarts<T>(s: seq<T>, a: nat, b: nat)
    requires a <= b <= |s|
    ensures s[a..b] <= s[a..]
  {
    assert s[a..][..b - a] == s[a..b];
  }

  lemma StartsWithMore<T>(p: seq<T>, x: T, s: seq<T>)
    requires p + [x] <= s
    ensures p <= s && |p| < |s| && s[|p|] == x
  {
    assert s[..|p| + 1] == p + [x];
    assert s[..|p|] == s[..|p| + 1][..|p|] == p;
    assert s[|p|] == s[..|p| + 1][|p|];
  }

  lemma NextTaken(block: Block, text: string, lines: seq<string>)
    requires BlockTaken(block.(added := block.added + [text]), lines)
    ensures BlockTaken(block, lines)
    ensures block.n + |block.added| < |lines| && lines[block.n + |block.added|] == TrimEndCR(text)
  {
    TrimmedAppend(block.added, text);
    StartsWithMore(Trimmed(block.added), TrimEndCR(text), lines[block.n..]);
    assert lines[block.n..][|block.added|] == lines[block.n + |block.added|];
  }

  /** Undoing the canonical runs on as many lines as the script's new side has: it succeeds
      exactly when every added line is found without the carriage returns at its end, and gives
      the kept lines as they are there and the removed ones without carriage returns at the end. */
  lemma CanonicalRevertsIff(path: string, s: seq<Op>, newText: string)
    requires |Lines(newText)| == |After(s, |s|)|
    ensures RevertedText(newText, CanonicalRuns(path, s))
         == if Takes(s, Lines(newText)) then Some(JoinLines(Before(Restored(s, Lines(newText)), |s|))) else None
  {
    var lines, runs := Lines(newText), CanonicalRuns(path, s);
    if Takes(s, lines) {
      TakenReverts(path, s, lines);
    } else {
      var r := RevertFrom(lines, 0, [], runs);
      if r.Some? {
        BlocksWellFormed(path, s, 0, NOTHING);
        RevertFromIsAligned(lines, 0, [], runs, r.value);
        AlignedTakes(path, s, 0, NOTHING, r.value, 0, lines, 0);
        assert false;
      }
    }
  }

  lemma {:induction false} TrimmedSides(s: seq<Op>, t: seq<Op>, i: nat)
    requires i <= |s| == |t|
    requires forall k | 0 <= k < |s| :: t[k].kind == s[k].kind && t[k].text == TrimEndCR(s[k].text)
    ensures Before(t, i) == Trimmed(Before(s, i))
    decreases i
  {
    if i > 0 {
      TrimmedSides(s, t, i - 1);
      TrimmedNext(s, t, i - 1, Before(s, i - 1));
    }
  }

  lemma TrimmedNext(s: seq<Op>, t: seq<Op>, i: nat, b: seq<string>)
    requires i < |s| == |t| && t[i].kind == s[i].kind && t[i].text == TrimEndCR(s[i].text)
    requires b == Before(s, i) && Before(t, i) == Trimmed(b)
    ensures Before(t, i + 1) == Trimmed(Before(s, i + 1))
  {
    SidesNext(s, i);
    SidesNext(t, i);
    TrimmedAppend(b, s[i].text);
  }

  lemma AfterAt(s: seq<Op>, i: nat)
    requires i < |s| && s[i].New()
    ensures |After(s, i)| < |After(s, |s|)| && After(s, |s|)[|After(s, i)|] == s[i].text
  {
    BeforeGrows(s, i + 1, |s|);
    assert After(s, i + 1)[|After(s, i)|] == s[i].text;
  }

  /** Undoing the canonical runs on the new lines, with no carriage return left at their ends,
      gives the old lines without theirs. */
  lemma CanonicalReverts(path: string, s: seq<Op>, newText: string)
    requires Lines(newText) == Trimmed(After(s, |s|))
    ensures RevertedText(newText, CanonicalRuns(path, s)) == Some(JoinLines(Trimmed(Before(s, |s|))))
  {
    var lines := Lines(newText);
    forall i | 0 <= i < |s| && s[i].New()
      ensures |After(s, i)| < |lines| && lines[|After(s, i)|] == TrimEndCR(s[i].text)
    {
      AfterAt(s, i);
    }
    CanonicalRevertsIff(path, s, newText);
    forall k | 0 <= k < |s|
      ensures Restored(s, lines)[k].kind == s[k].kind && Restored(s, lines)[k].text == TrimEndCR(s[k].text)
    {
      assert Restored(s, lines)[k] == RestoredOp(s, lines, k);
    }
    TrimmedSides(s, Restored(s, lines), |s|);
  }
}
