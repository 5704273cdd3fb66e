/** The unified diffs the reader is for: an edit script, which of its lines are shown and how
    they are grouped into hunks, and the text git prints for them ("Diff -u or -U Output
    Format" of the POSIX `diff` utility, with git's file headers). */
module UnifiedDiff {
  import opened Text
  import opened ChangeClass

  datatype Kind = Keep | Del | Add

  /** One line of an edit script; `bare` when the no-newline marker follows it in the diff. */
  datatype Op = Op(kind: Kind, text: string, bare: bool) {
    predicate Change() { kind != Keep }
    predicate Old() { kind != Add }
    predicate New() { kind != Del }
  }

  /** The lines before the change among the first `i` of the script. */
  function Before(s: seq<Op>, i: nat): seq<string>
    requires i <= |s|
  {
    if i == 0 then [] else Before(s, i - 1) + if s[i - 1].Old() then [s[i - 1].text] else []
  }

  /** The lines after the change among the first `i` of the script. */
  function After(s: seq<Op>, i: nat): seq<string>
    requires i <= |s|
  {
    if i == 0 then [] else After(s, i - 1) + if s[i - 1].New() then [s[i - 1].text] else []
  }

  // ---------- the canonical runs of a script ----------

  /** A maximal block of changes so far: the lines before it on each side, its own lines. */
  datatype Block = Block(o: nat, n: nat, removed: seq<string>, added: seq<string>) {
    predicate Empty() { removed == [] && added == [] }

    /** The run `-U0` would print: a side without lines names the line above it. */
    function Run(path: string): HunkText {
      HunkText(path,
               if removed == [] then o else o + 1, |removed|,
               if added == [] then n else n + 1, |added|,
               removed, added)
    }

    function Next(op: Op): Block {
      match op.kind
      case Keep => Block(o + |removed| + 1, n + |added| + 1, [], [])
      case Del => this.(removed := removed + [op.text])
      case Add => this.(added := added + [op.text])
    }
  }

  /** The maximal change blocks of the script from line `i` on, `block` being open. */
  function BlocksFrom(path: string, s: seq<Op>, i: nat, block: Block): seq<HunkText>
    requires i <= |s|
    decreases |s| - i
  {
    var closed := if block.Empty() then [] else [block.Run(path)];
    if i == |s| then closed
    else if s[i].Change() then BlocksFrom(path, s, i + 1, block.Next(s[i]))
    else closed + BlocksFrom(path, s, i + 1, block.Next(s[i]))
  }

  function CanonicalRuns(path: string, s: seq<Op>): seq<HunkText> {
    BlocksFrom(path, s, 0, Block(0, 0, [], []))
  }

  // ---------- the printer ----------

  /** How one line of the script is shown: not at all, as the first of a hunk, or inside one. */
  datatype Mark = Hidden | Start(section: string) | In

  predicate InAt(marks: seq<Mark>, i: nat) {
    i < |marks| && marks[i].In?
  }

  /** Every change is shown, a hunk has a first line, and no hunk starts inside a block. */
  ghost predicate Legal(s: seq<Op>, marks: seq<Mark>) {
    && |marks| == |s|
    && (forall i | 0 <= i < |s| :: s[i].Change() ==> !marks[i].Hidden?)
    && (forall i | 0 <= i < |s| :: marks[i].In? ==> i > 0 && !marks[i - 1].Hidden?)
    && (forall i | 0 < i < |s| :: marks[i].Start? && s[i].Change() ==> !s[i - 1].Change())
  }

  /** The lines of the rest of the hunk on the old side, line `i` included. */
  function HunkOld(s: seq<Op>, marks: seq<Mark>, i: nat): nat
    requires i < |s| == |marks|
    decreases |s| - i
  {
    (if s[i].Old() then 1 else 0) + if InAt(marks, i + 1) then HunkOld(s, marks, i + 1) else 0
  }

  function HunkNew(s: seq<Op>, marks: seq<Mark>, i: nat): nat
    requires i < |s| == |marks|
    decreases |s| - i
  {
    (if s[i].New() then 1 else 0) + if InAt(marks, i + 1) then HunkNew(s, marks, i + 1) else 0
  }

  /** `start,length`, the length left out when it is 1; an empty range names the line above. */
  function Range(above: nat, len: nat): string {
    NatText(if len == 0 then above else above + 1) + if len == 1 then "" else "," + NatText(len)
  }

  function Header(s: seq<Op>, marks: seq<Mark>, i: nat): string
    requires i < |s| == |marks| && marks[i].Start?
  {
    "@@ -" + Range(|Before(s, i)|, HunkOld(s, marks, i))
    + " +" + Range(|After(s, i)|, HunkNew(s, marks, i))
    + (" @@" + marks[i].section)
  }

  const NO_NEWLINE := "\\ No newline at end of file"

  function OpLines(op: Op): seq<string> {
    [(match op.kind case Keep => " " case Del => "-" case Add => "+") + op.text]
    + if op.bare then [NO_NEWLINE] else []
  }

  function PrintOps(s: seq<Op>, marks: seq<Mark>, i: nat): seq<string>
    requires i <= |s| == |marks|
    decreases |s| - i
  {
    if i == |s| then []
    else
      match marks[i]
      case Hidden => PrintOps(s, marks, i + 1)
      case Start(_) => [Header(s, marks, i)] + (OpLines(s[i]) + PrintOps(s, marks, i + 1))
      case In => OpLines(s[i]) + PrintOps(s, marks, i + 1)
  }

  // ---------- reading one printed line ----------

  lemma RangeReads(above: nat, len: nat)
    ensures IsWord(Range(above, len)) && Range(above, len)[0] != '+'
    ensures HunkStart(Range(above, len)) == Some(if len == 0 then above else above + 1)
  {
    var start := if len == 0 then above else above + 1;
    var text := NatText(start);
    ParseNatOfNatText(start);
    if len == 1 {
      assert Range(above, len) == text;
      IndexOfUnique(text, ',', |text|);
      assert text[..|text|] == text;
    } else {
      assert Range(above, len) == text + [','] + NatText(len);
      IndexOfPart(text, ',', NatText(len));
    }
  }

  lemma HeaderWordsRead(a: string, b: string, tail: string)
    requires IsWord(a) && IsWord(b) && tail != "" && IsWhitespace(tail[0])
    ensures HeaderStarts(a + (" " + ("+" + b) + tail))
         == match (HunkStart(a), HunkStart(b)) case (Some(o), Some(n)) => Some((o, n)) case _ => None
  {
    var word := "+" + b;
    NextWordOf(a, " " + word + tail);
    NextWordOf(word, tail);
    assert word[1..] == b;
  }

  /** The line opens a hunk at these numbers. */
  ghost predicate Opens(line: string, oldNo: nat, newNo: nat) {
    "@@ -" <= line && HeaderStarts(line[4..]) == Some((oldNo, newNo))
  }

  lemma HeaderTextReads(a: string, b: string, tail: string, oldNo: nat, newNo: nat)
    requires IsWord(a) && IsWord(b) && tail != "" && IsWhitespace(tail[0])
    requires HunkStart(a) == Some(oldNo) && HunkStart(b) == Some(newNo)
    ensures Opens("@@ -" + a + " +" + b + tail, oldNo, newNo)
  {
    HeaderWordsRead(a, b, tail);
    HeaderParts(a, b, tail);
  }

  lemma HeaderReads(s: seq<Op>, marks: seq<Mark>, i: nat)
    requires i < |s| == |marks| && marks[i].Start?
    ensures Opens(Header(s, marks, i),
                  |Before(s, i)| + (if HunkOld(s, marks, i) == 0 then 0 else 1),
                  |After(s, i)| + (if HunkNew(s, marks, i) == 0 then 0 else 1))
  {
    var (o, n) := (HunkOld(s, marks, i), HunkNew(s, marks, i));
    RangeReads(|Before(s, i)|, o);
    RangeReads(|After(s, i)|, n);
    HeaderTextReads(Range(|Before(s, i)|, o), Range(|After(s, i)|, n), " @@" + marks[i].section,
                    |Before(s, i)| + (if o == 0 then 0 else 1), |After(s, i)| + (if n == 0 then 0 else 1));
  }

  lemma HeaderParts(a: string, b: string, tail: string)
    ensures "@@ -" <= "@@ -" + a + " +" + b + tail
    ensures ("@@ -" + a + " +" + b + tail)[4..] == a + (" " + ("+" + b) + tail)
  {
  }

  function ReadOp(r: Reader, op: Op): (r': Reader)
    requires r.Ok()
    ensures r'.Ok()
  {
    match op.kind
    case Keep => r.(oldNo := r.oldNo + 1, newNo := r.newNo + 1, open := false)
    case Del => ReadChange(r, true, op.text)
    case Add => ReadChange(r, false, op.text)
  }

  lemma OpLineRead(r: Reader, op: Op, unquote: string -> string)
    requires r.Ok() && r.inHunk
    ensures ReadLine(r, OpLines(op)[0], unquote) == ReadOp(r, op) && ReadOp(r, op).inHunk
  {
    var line := OpLines(op)[0];
    assert line[1..] == op.text;
    assert line[0] == match op.kind case Keep => ' ' case Del => '-' case Add => '+';
  }

  /** The line that says there is no newline changes nothing. */
  lemma MarkerRead(r: Reader, unquote: string -> string)
    requires r.Ok() && r.inHunk
    ensures ReadLines(r, [NO_NEWLINE], unquote) == r
  {
    assert NO_NEWLINE[0] == '\\';
    assert ReadLine(r, NO_NEWLINE, unquote) == r;
    assert [NO_NEWLINE][1..] == [];
  }

  lemma OpLinesRead(r: Reader, op: Op, unquote: string -> string)
    requires r.Ok() && r.inHunk
    ensures ReadLines(r, OpLines(op), unquote) == ReadOp(r, op)
    ensures ReadOp(r, op).inHunk
  {
    var line := OpLines(op)[0];
    OpLineRead(r, op, unquote);
    var r' := ReadOp(r, op);
    var others := OpLines(op)[1..];
    assert others == if op.bare then [NO_NEWLINE] else [];
    if op.bare {
      MarkerRead(r', unquote);
    }
  }

  // ---------- reading the hunks of one file ----------

  /** What the reader makes of a block in a hunk that has no line on the old side (`noOld`) or
      on the new side (`noNew`), where the header's number already names the line above. */
  function RawRun(path: string, block: Block, noOld: bool, noNew: bool): HunkText {
    HunkText(path,
             if noOld then block.o else block.o + 1, |block.removed|,
             if noNew then block.n else block.n + 1, |block.added|,
             block.removed, block.added)
  }

  function Flags(s: seq<Op>, marks: seq<Mark>, i: nat, noOld: bool, noNew: bool): (bool, bool)
    requires i < |s| == |marks|
  {
    if marks[i].Start? then (HunkOld(s, marks, i) == 0, HunkNew(s, marks, i) == 0) else (noOld, noNew)
  }

  /** The runs the reader returns for the script from line `i` on, whatever the hunks. */
  function SeenFrom(path: string, s: seq<Op>, marks: seq<Mark>, i: nat, block: Block, noOld: bool, noNew: bool)
    : seq<HunkText>
    requires i <= |s| == |marks|
    decreases |s| - i
  {
    var closed := if block.Empty() then [] else [FixUp(RawRun(path, block, noOld, noNew))];
    if i == |s| then closed
    else
      var flags := Flags(s, marks, i, noOld, noNew);
      var rest := SeenFrom(path, s, marks, i + 1, block.Next(s[i]), flags.0, flags.1);
      if s[i].Change() then rest else closed + rest
  }

  /** What `block`, `noOld` and `noNew` say about the script read up to line `i`. */
  ghost predicate Placed(s: seq<Op>, marks: seq<Mark>, i: nat, block: Block, noOld: bool, noNew: bool)
    requires i <= |s| == |marks|
  {
    && block.o + |block.removed| == |Before(s, i)|
    && block.n + |block.added| == |After(s, i)|
    && (block.Empty() <==> i == 0 || !s[i - 1].Change())
    && (noOld ==> block.removed == [])
    && (noNew ==> block.added == [])
    && (InAt(marks, i) ==>
          && (noOld ==> HunkOld(s, marks, i) == 0 && !block.Empty())
          && (noNew ==> HunkNew(s, marks, i) == 0 && !block.Empty()))
  }

  lemma PlacedNext(s: seq<Op>, marks: seq<Mark>, i: nat, block: Block, noOld: bool, noNew: bool)
    requires i < |s| && Legal(s, marks) && Placed(s, marks, i, block, noOld, noNew)
    ensures var f := Flags(s, marks, i, noOld, noNew);
            Placed(s, marks, i + 1, block.Next(s[i]), f.0, f.1)
  {
  }

  /** The reader before line `i`: the runs before the block, then the block, still raw. */
  ghost predicate Reads(r: Reader, done: seq<HunkText>, path: string, s: seq<Op>, marks: seq<Mark>, i: nat,
                        block: Block, noOld: bool, noNew: bool)
    requires i <= |s| == |marks|
  {
    && r.Ok() && PathOf(r.oldPath, r.newPath) == path
    && r.out == done + (if block.Empty() then [] else [RawRun(path, block, noOld, noNew)])
    && (InAt(marks, i) ==>
          && r.inHunk && (r.open <==> !block.Empty())
          && r.oldNo == |Before(s, i)| + (if noOld then 0 else 1)
          && r.newNo == |After(s, i)| + (if noNew then 0 else 1))
  }

  /** A change line inside a hunk extends the block or opens it. */
  lemma ReadChangeOp(r: Reader, done: seq<HunkText>, path: string, block: Block, noOld: bool, noNew: bool, op: Op)
    requires r.Ok() && op.Change() && PathOf(r.oldPath, r.newPath) == path
    requires r.open <==> !block.Empty()
    requires r.out == done + (if block.Empty() then [] else [RawRun(path, block, noOld, noNew)])
    requires r.oldNo == block.o + |block.removed| + (if noOld then 0 else 1)
    requires r.newNo == block.n + |block.added| + (if noNew then 0 else 1)
    requires (op.Old() ==> !noOld) && (op.New() ==> !noNew)
    requires (noOld ==> block.removed == []) && (noNew ==> block.added == [])
    ensures ReadOp(r, op).out == done + [RawRun(path, block.Next(op), noOld, noNew)]
    ensures ReadOp(r, op).open
  {
    var ready := if r.open then r.out
                  else r.out + [HunkText(PathOf(r.oldPath, r.newPath), r.oldNo, 0, r.newNo, 0, [], [])];
    assert ready == done + [RawRun(path, block, noOld, noNew)];
    assert ready[..|ready| - 1] == done;
  }

  /** The reader inside the hunk of line `i`, that line still to be read. */
  ghost predicate Ready(r: Reader, done: seq<HunkText>, path: string, s: seq<Op>, i: nat,
                        block: Block, noOld: bool, noNew: bool, flags: (bool, bool))
    requires i < |s|
  {
    && r.Ok() && PathOf(r.oldPath, r.newPath) == path && r.inHunk
    && r.out == done + (if block.Empty() then [] else [RawRun(path, block, noOld, noNew)])
    && (s[i].Change() ==> (r.open <==> !block.Empty()))
    && (!block.Empty() && s[i].Change() ==> flags == (noOld, noNew))
    && r.oldNo == |Before(s, i)| + (if flags.0 then 0 else 1)
    && r.newNo == |After(s, i)| + (if flags.1 then 0 else 1)
  }

  lemma ReadHeader(r: Reader, done: seq<HunkText>, path: string, s: seq<Op>, marks: seq<Mark>, i: nat,
                   block: Block, noOld: bool, noNew: bool, unquote: string -> string)
    requires i < |s| && Legal(s, marks) && marks[i].Start?
    requires Placed(s, marks, i, block, noOld, noNew)
    requires Reads(r, done, path, s, marks, i, block, noOld, noNew)
    ensures ReadLine(r, Header(s, marks, i), unquote).Ok()
    ensures Ready(ReadLine(r, Header(s, marks, i), unquote), done, path, s, i, block, noOld, noNew,
                  Flags(s, marks, i, noOld, noNew))
  {
    HeaderReads(s, marks, i);
  }

  lemma ReadReady(r: Reader, done: seq<HunkText>, path: string, s: seq<Op>, marks: seq<Mark>, i: nat,
                  block: Block, noOld: bool, noNew: bool)
    requires i < |s| && Legal(s, marks) && !marks[i].Hidden?
    requires Placed(s, marks, i, block, noOld, noNew)
    requires Ready(r, done, path, s, i, block, noOld, noNew, Flags(s, marks, i, noOld, noNew))
    ensures var f := Flags(s, marks, i, noOld, noNew);
            Reads(ReadOp(r, s[i]), done + Closed(path, s[i], block, noOld, noNew), path, s, marks, i + 1,
                  block.Next(s[i]), f.0, f.1)
  {
    var f := Flags(s, marks, i, noOld, noNew);
    PlacedNext(s, marks, i, block, noOld, noNew);
    if s[i].Change() {
      assert block.Empty() ==> RawRun(path, block, noOld, noNew).removed == [];
      ReadChangeOp(r, done, path, block, f.0, f.1, s[i]);
    }
  }

  /** The run a line closes. */
  function Closed(path: string, op: Op, block: Block, noOld: bool, noNew: bool): seq<HunkText> {
    if op.Change() || block.Empty() then [] else [RawRun(path, block, noOld, noNew)]
  }

  function ShownLines(s: seq<Op>, marks: seq<Mark>, i: nat): seq<string>
    requires i < |s| == |marks|
  {
    match marks[i]
    case Hidden => []
    case Start(_) => [Header(s, marks, i)] + OpLines(s[i])
    case In => OpLines(s[i])
  }

  lemma ReadShown(r: Reader, done: seq<HunkText>, path: string, s: seq<Op>, marks: seq<Mark>, i: nat,
                  block: Block, noOld: bool, noNew: bool, unquote: string -> string)
    requires i < |s| && Legal(s, marks)
    requires Placed(s, marks, i, block, noOld, noNew)
    requires Reads(r, done, path, s, marks, i, block, noOld, noNew)
    ensures var f := Flags(s, marks, i, noOld, noNew);
            Reads(ReadLines(r, ShownLines(s, marks, i), unquote), done + Closed(path, s[i], block, noOld, noNew),
                  path, s, marks, i + 1, block.Next(s[i]), f.0, f.1)
  {
    match marks[i]
    case Hidden =>
    case Start(_) =>
      ReadHeader(r, done, path, s, marks, i, block, noOld, noNew, unquote);
      var ready := ReadLine(r, Header(s, marks, i), unquote);
      ReadReady(ready, done, path, s, marks, i, block, noOld, noNew);
      OpLinesRead(ready, s[i], unquote);
      assert ShownLines(s, marks, i)[1..] == OpLines(s[i]);
    case In =>
      ReadReady(r, done, path, s, marks, i, block, noOld, noNew);
      OpLinesRead(r, s[i], unquote);
  }

  lemma PrintOpsStep(s: seq<Op>, marks: seq<Mark>, i: nat)
    requires i < |s| == |marks|
    ensures PrintOps(s, marks, i) == ShownLines(s, marks, i) + PrintOps(s, marks, i + 1)
  {
  }

  lemma SeenStep(done: seq<HunkText>, path: string, s: seq<Op>, marks: seq<Mark>, i: nat,
                 block: Block, noOld: bool, noNew: bool)
    requires i < |s| == |marks|
    ensures var f := Flags(s, marks, i, noOld, noNew);
            (FixUpAll(done + Closed(path, s[i], block, noOld, noNew))
             + SeenFrom(path, s, marks, i + 1, block.Next(s[i]), f.0, f.1)
             == FixUpAll(done) + SeenFrom(path, s, marks, i, block, noOld, noNew))
  {
    if s[i].Change() || block.Empty() {
      assert done + [] == done;
    } else {
      FixUpAllAppend(done, RawRun(path, block, noOld, noNew));
    }
  }

  lemma ReadEnd(
    r: Reader, done: seq<HunkText>, path: string, s: seq<Op>, marks: seq<Mark>,
    block: Block, noOld: bool, noNew: bool, unquote: string -> string)
    requires Legal(s, marks)
    requires Reads(r, done, path, s, marks, |s|, block, noOld, noNew)
    ensures FixUpAll(ReadLines(r, PrintOps(s, marks, |s|), unquote).out)
         == FixUpAll(done) + SeenFrom(path, s, marks, |s|, block, noOld, noNew)
  {
    if block.Empty() {
      assert r.out == done;
    } else {
      FixUpAllAppend(done, RawRun(path, block, noOld, noNew));
    }
  }

  /** Reading what one operation shows, then the rest. */
  lemma ReadNext(r: Reader, s: seq<Op>, marks: seq<Mark>, i: nat, unquote: string -> string)
    requires i < |s| && Legal(s, marks) && r.Ok()
    ensures ReadLines(r, PrintOps(s, marks, i), unquote)
         == ReadLines(ReadLines(r, ShownLines(s, marks, i), unquote), PrintOps(s, marks, i + 1), unquote)
  {
    PrintOpsStep(s, marks, i);
    ReadLinesConcat(r, ShownLines(s, marks, i), PrintOps(s, marks, i + 1), unquote);
  }

  lemma {:induction false} ReadOps(
    r: Reader, done: seq<HunkText>, path: string, s: seq<Op>, marks: seq<Mark>, i: nat,
    block: Block, noOld: bool, noNew: bool, unquote: string -> string)
    requires i <= |s| && Legal(s, marks)
    requires Placed(s, marks, i, block, noOld, noNew)
    requires Reads(r, done, path, s, marks, i, block, noOld, noNew)
    ensures FixUpAll(ReadLines(r, PrintOps(s, marks, i), unquote).out)
         == FixUpAll(done) + SeenFrom(path, s, marks, i, block, noOld, noNew)
    decreases |s| - i
  {
    if i == |s| {
      ReadEnd(r, done, path, s, marks, block, noOld, noNew, unquote);
    } else {
      var f := Flags(s, marks, i, noOld, noNew);
      var next := block.Next(s[i]);
      var closed := Closed(path, s[i], block, noOld, noNew);
      ReadShown(r, done, path, s, marks, i, block, noOld, noNew, unquote);
      var r' := ReadLines(r, ShownLines(s, marks, i), unquote);
      PlacedNext(s, marks, i, block, noOld, noNew);
      ReadOps(r', done + closed, path, s, marks, i + 1, next, f.0, f.1, unquote);
      ReadNext(r, s, marks, i, unquote);
      SeenStep(done, path, s, marks, i, block, noOld, noNew);
    }
  }
}
