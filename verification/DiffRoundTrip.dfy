/** What the reader returns for a printed diff, and what undoing it returns. */
module DiffRoundTrip {
  import opened Text
  import opened ChangeClass
  import opened UnifiedDiff
  import opened DiffRevert

  // ---------- the runs read are the canonical runs ----------

  /** A hunk with no line on one side, below the first line of that side: what zero context prints. */
  ghost predicate EmptySideMidFile(s: seq<Op>, marks: seq<Mark>, i: nat)
    requires i < |s| == |marks|
  {
    && marks[i].Start?
    && (|| (HunkOld(s, marks, i) == 0 && Before(s, i) != [])
        || (HunkNew(s, marks, i) == 0 && After(s, i) != []))
  }

  ghost predicate Sided(s: seq<Op>, marks: seq<Mark>, from: nat)
    requires |s| == |marks|
  {
    forall i | from <= i < |s| :: !EmptySideMidFile(s, marks, i)
  }

  /** The header's numbers are those `-U0` would give the block. */
  predicate Numbered(block: Block, noOld: bool, noNew: bool) {
    !block.Empty() ==> (noOld ==> block.o == 0) && (noNew ==> block.n == 0)
  }

  lemma {:induction false} SeenIffSided(
    path: string, s: seq<Op>, marks: seq<Mark>, i: nat, block: Block, noOld: bool, noNew: bool)
    requires i <= |s| && Legal(s, marks) && Placed(s, marks, i, block, noOld, noNew)
    ensures |SeenFrom(path, s, marks, i, block, noOld, noNew)| == |BlocksFrom(path, s, i, block)|
    ensures SeenFrom(path, s, marks, i, block, noOld, noNew) == BlocksFrom(path, s, i, block)
       <==> Numbered(block, noOld, noNew) && Sided(s, marks, i)
    decreases |s| - i
  {
    assert Numbered(block, noOld, noNew)
      <==> block.Empty() || FixUp(RawRun(path, block, noOld, noNew)) == block.Run(path);
    if i < |s| {
      var f := Flags(s, marks, i, noOld, noNew);
      var next := block.Next(s[i]);
      PlacedNext(s, marks, i, block, noOld, noNew);
      SeenIffSided(path, s, marks, i + 1, next, f.0, f.1);
      SidedStep(s, marks, i);
      NumberedStep(s, marks, i, block, noOld, noNew);
      var seen := SeenFrom(path, s, marks, i + 1, next, f.0, f.1);
      var blocks := BlocksFrom(path, s, i + 1, next);
      BlocksNext(path, s, i, block);
      assert [] + seen == seen;
      if !s[i].Change() && !block.Empty() {
        SameCons(FixUp(RawRun(path, block, noOld, noNew)), seen, block.Run(path), blocks);
      }
    }
  }

  lemma SidedStep(s: seq<Op>, marks: seq<Mark>, i: nat)
    requires i < |s| == |marks|
    ensures Sided(s, marks, i) <==> !EmptySideMidFile(s, marks, i) && Sided(s, marks, i + 1)
  {
  }

  lemma NumberedStep(s: seq<Op>, marks: seq<Mark>, i: nat, block: Block, noOld: bool, noNew: bool)
    requires i < |s| && Legal(s, marks) && Placed(s, marks, i, block, noOld, noNew)
    ensures var f := Flags(s, marks, i, noOld, noNew);
            var next := Numbered(block.Next(s[i]), f.0, f.1);
            (if s[i].Change() then
               (next <==> Numbered(block, noOld, noNew) && !EmptySideMidFile(s, marks, i))
             else
               next && !EmptySideMidFile(s, marks, i))
  {
  }

  // ---------- context of a given width ----------

  /** Line `i` lies within `width` lines of a change. */
  ghost predicate Near(s: seq<Op>, width: nat, i: int) {
    exists j :: 0 <= j < |s| && s[j].Change() && j - width <= i <= j + width
  }

  ghost function LayoutMark(s: seq<Op>, width: nat, section: nat -> string, i: nat): Mark {
    if !Near(s, width, i) then Hidden
    else if i > 0 && Near(s, width, i - 1) then In
    else Start(section(i))
  }

  /** The hunks `diff -U width` prints. */
  ghost function Layout(s: seq<Op>, width: nat, section: nat -> string): seq<Mark> {
    seq(|s|, i requires 0 <= i < |s| => LayoutMark(s, width, section, i))
  }

  lemma ChangeIsNear(s: seq<Op>, width: nat, j: nat, i: int)
    requires j < |s| && s[j].Change() && j - width <= i <= j + width
    ensures Near(s, width, i)
  {
  }

  lemma LayoutIsLegal(s: seq<Op>, width: nat, section: nat -> string)
    ensures Legal(s, Layout(s, width, section))
  {
    var marks := Layout(s, width, section);
    forall i | 0 <= i < |s|
      ensures s[i].Change() ==> !marks[i].Hidden?
      ensures marks[i].In? ==> i > 0 && !marks[i - 1].Hidden?
      ensures marks[i].Start? && i > 0 && s[i].Change() ==> !s[i - 1].Change()
    {
      assert marks[i] == LayoutMark(s, width, section, i);
      if s[i].Change() {
        ChangeIsNear(s, width, i, i);
      }
      if i > 0 {
        assert marks[i - 1] == LayoutMark(s, width, section, i - 1);
        if s[i - 1].Change() {
          ChangeIsNear(s, width, i - 1, i - 1);
        }
      }
    }
  }

  /** With at least one line of context no hunk below the first line has an empty side. */
  lemma LayoutIsSided(s: seq<Op>, width: nat, section: nat -> string)
    requires width >= 1
    ensures Sided(s, Layout(s, width, section), 0)
  {
    var marks := Layout(s, width, section);
    forall i | 0 <= i < |s| && marks[i].Start? && i > 0
      ensures HunkOld(s, marks, i) > 0 && HunkNew(s, marks, i) > 0
    {
      assert marks[i] == LayoutMark(s, width, section, i);
      assert !Near(s, width, i - 1);
    }
  }

  // ---------- whole diffs ----------

  /** What git prints about one file: `diff` line, extended headers, the two names as spelled
      (a name with a blank is followed by a tab), the hunks. */
  datatype FileRecord = FileRecord(
    command: string, extra: seq<string>,
    oldName: Option<string>, newName: Option<string>,
    oldSpelled: string, newSpelled: string,
    script: seq<Op>, marks: seq<Mark>
  ) {
    /** The path that survives: the new name, or the old one of a deleted file. */
    function Path(): string {
      if newName.Some? then newName.value else if oldName.Some? then oldName.value else ""
    }

    predicate Shown() { exists m :: m in marks && !m.Hidden? }

    function HeaderLines(): seq<string> {
      ["diff " + command] + (extra + if Shown() then ["--- " + oldSpelled, "+++ " + newSpelled] else [])
    }

    function FileLines(): seq<string>
      requires |marks| == |script|
    {
      HeaderLines() + PrintOps(script, marks, 0)
    }

    function OldLines(): seq<string> { Before(script, |script|) }

    function NewLines(): seq<string> { After(script, |script|) }

    /** The old side, with the kept lines as `lines` has them and the removed ones trimmed. */
    function Restores(lines: seq<string>): seq<string> { Before(Restored(script, lines), |script|) }
  }

  type FileDiff = f: FileRecord | |f.marks| == |f.script|
    witness FileRecord("", [], None, None, "", "", [], [])

  predicate PlainHeader(l: string) {
    !("@@ -" <= l) && !("diff " <= l) && !("--- " <= l) && !("+++ " <= l)
  }

  /** The names read back, the extended headers are no others, the layout is legal. */
  ghost predicate Printable(f: FileDiff, unquote: string -> string) {
    && (forall l | l in f.extra :: PlainHeader(l))
    && Side(f.oldSpelled, "a/", unquote) == f.oldName
    && Side(f.newSpelled, "b/", unquote) == f.newName
    && Legal(f.script, f.marks)
  }

  /** A name reads back as what it is quoted from, without its prefix if it has one; the name of no
      file reads as none. */
  lemma QuotedNameReads(spelled: string, tail: string, prefix: string, unquote: string -> string)
    requires '\t' !in spelled && (tail == "" || tail[0] == '\t')
    ensures Side(spelled + tail, prefix, unquote).None? <==> unquote(spelled) == "/dev/null"
    ensures unquote(spelled) != "/dev/null" ==>
              var name := Side(spelled + tail, prefix, unquote).value;
              (name == unquote(spelled) && !(prefix <= name)) || prefix + name == unquote(spelled)
  {
    IndexOfUnique(spelled + tail, '\t', |spelled|);
    assert (spelled + tail)[..|spelled|] == spelled;
  }

  /** A name git prints without quotes reads back, the tab after a blank included. */
  lemma PlainNameReads(name: string, prefix: string, tail: string, unquote: string -> string)
    requires prefix == "a/" || prefix == "b/"
    requires '\t' !in name && unquote(prefix + name) == prefix + name
    requires tail == "" || tail[0] == '\t'
    ensures Side(prefix + name + tail, prefix, unquote) == Some(name)
  {
    var shown := prefix + name;
    IndexOfUnique(shown + tail, '\t', |shown|);
    assert (shown + tail)[..|shown|] == shown;
    assert shown[0] == prefix[0] && shown[..2] == prefix;
    assert shown[2..] == name;
  }

  lemma {:induction false} ExtraRead(r: Reader, extra: seq<string>, unquote: string -> string)
    requires r.Ok() && !r.inHunk && forall l | l in extra :: PlainHeader(l)
    ensures ReadLines(r, extra, unquote) == r
    decreases |extra|
  {
    if extra != [] {
      assert extra[0] in extra;
      ExtraRead(r, extra[1..], unquote);
    }
  }

  lemma NamesRead(r: Reader, f: FileDiff, unquote: string -> string)
    requires r.Ok() && !r.inHunk && Printable(f, unquote) && f.Shown()
    ensures ReadLines(r, ["--- " + f.oldSpelled, "+++ " + f.newSpelled], unquote)
         == r.(oldPath := f.oldName, newPath := f.newName)
  {
    var a, b := "--- " + f.oldSpelled, "+++ " + f.newSpelled;
    assert a[0] == '-' && b[0] == '+';
    assert a[4..] == f.oldSpelled && b[4..] == f.newSpelled;
    var next := r.(oldPath := f.oldName);
    assert ReadLine(r, a, unquote) == next;
    assert ReadLine(next, b, unquote) == next.(newPath := f.newName);
    assert [a, b][1..] == [b] && [b][1..] == [];
    assert ReadLines(next, [b], unquote) == next.(newPath := f.newName);
  }

  lemma HeaderLinesRead(r: Reader, f: FileDiff, unquote: string -> string)
    requires r.Ok() && Printable(f, unquote)
    ensures var r' := ReadLines(r, f.HeaderLines(), unquote);
      r' == r.(inHunk := false,
               oldPath := if f.Shown() then f.oldName else None,
               newPath := if f.Shown() then f.newName else None)
  {
    var r1 := r.(oldPath := None, newPath := None, inHunk := false);
    var first := "diff " + f.command;
    assert first[0] == 'd';
    assert ReadLine(r, first, unquote) == r1;
    var names := if f.Shown() then ["--- " + f.oldSpelled, "+++ " + f.newSpelled] else [];
    assert f.HeaderLines()[1..] == f.extra + names;
    ReadLinesConcat(r1, f.extra, names, unquote);
    ExtraRead(r1, f.extra, unquote);
    if f.Shown() {
      NamesRead(r1, f, unquote);
    }
  }

  lemma {:induction false} NothingShown(path: string, s: seq<Op>, marks: seq<Mark>, i: nat, block: Block)
    requires i <= |s| && Legal(s, marks) && block.Empty() && forall m | m in marks :: m.Hidden?
    ensures PrintOps(s, marks, i) == [] && SeenFrom(path, s, marks, i, block, false, false) == []
    decreases |s| - i
  {
    if i < |s| {
      assert marks[i] in marks;
      NothingShown(path, s, marks, i + 1, block.Next(s[i]));
    }
  }

  lemma FirstOpensHunk(s: seq<Op>, marks: seq<Mark>)
    requires Legal(s, marks)
    ensures !InAt(marks, 0)
  {
  }

  /** What the reader returns for one file. */
  function Seen(f: FileDiff): seq<HunkText>
  {
    SeenFrom(f.Path(), f.script, f.marks, 0, NOTHING, false, false)
  }

  lemma FileReads(r: Reader, f: FileDiff, unquote: string -> string)
    requires r.Ok() && Printable(f, unquote)
    ensures FixUpAll(ReadLines(r, f.FileLines(), unquote).out) == FixUpAll(r.out) + Seen(f)
  {
    HeaderLinesRead(r, f, unquote);
    var r' := ReadLines(r, f.HeaderLines(), unquote);
    ReadLinesConcat(r, f.HeaderLines(), PrintOps(f.script, f.marks, 0), unquote);
    if f.Shown() {
      assert r.out == r.out + [];
      FirstOpensHunk(f.script, f.marks);
      ReadOps(r', r.out, f.Path(), f.script, f.marks, 0, NOTHING, false, false, unquote);
    } else {
      NothingShown(f.Path(), f.script, f.marks, 0, NOTHING);
    }
  }

  function DiffLines(files: seq<FileDiff>): seq<string>
  {
    if files == [] then [] else files[0].FileLines() + DiffLines(files[1..])
  }

  function AllSeen(files: seq<FileDiff>): seq<HunkText>
  {
    if files == [] then [] else Seen(files[0]) + AllSeen(files[1..])
  }

  function AllCanonical(files: seq<FileDiff>): seq<HunkText> {
    if files == [] then []
    else CanonicalRuns(files[0].Path(), files[0].script) + AllCanonical(files[1..])
  }

  lemma {:induction false} FilesRead(r: Reader, files: seq<FileDiff>, unquote: string -> string)
    requires r.Ok() && forall f | f in files :: Printable(f, unquote)
    ensures FixUpAll(ReadLines(r, DiffLines(files), unquote).out) == FixUpAll(r.out) + AllSeen(files)
    decreases |files|
  {
    if files != [] {
      FileReads(r, files[0], unquote);
      var r' := ReadLines(r, files[0].FileLines(), unquote);
      ReadLinesConcat(r, files[0].FileLines(), DiffLines(files[1..]), unquote);
      FilesRead(r', files[1..], unquote);
      ConcatAssociates(FixUpAll(r.out), Seen(files[0]), AllSeen(files[1..]));
    }
  }

  lemma {:induction false} AllSeenIffSided(files: seq<FileDiff>)
    requires forall f | f in files :: Legal(f.script, f.marks)
    ensures |AllSeen(files)| == |AllCanonical(files)|
    ensures AllSeen(files) == AllCanonical(files) <==> forall f | f in files :: Sided(f.script, f.marks, 0)
    decreases |files|
  {
    if files != [] {
      var f, rest := files[0], files[1..];
      assert f in files;
      SeenIffSided(f.Path(), f.script, f.marks, 0, NOTHING, false, false);
      AllSeenIffSided(rest);
      var a, b := Seen(f), CanonicalRuns(f.Path(), f.script);
      assert |a| == |b|;
      assert (a + AllSeen(rest))[..|a|] == a && (a + AllSeen(rest))[|a|..] == AllSeen(rest);
      assert (b + AllCanonical(rest))[..|a|] == b && (b + AllCanonical(rest))[|a|..] == AllCanonical(rest);
      assert forall g :: g in files <==> g == f || g in rest;
    }
  }

  // ---------- a script as it is read ----------

  /** The script without one carriage return at the end of each line: `str::lines` takes it off. */
  function StripScript(s: seq<Op>): (t: seq<Op>)
    ensures |t| == |s| && forall i | 0 <= i < |s| :: t[i] == s[i].(text := StripCR(s[i].text))
  {
    seq(|s|, i requires 0 <= i < |s| => s[i].(text := StripCR(s[i].text)))
  }

  lemma {:induction false} StrippedBefore(s: seq<Op>, i: nat)
    requires i <= |s|
    ensures Before(StripScript(s), i) == Stripped(Before(s, i))
    decreases i
  {
    if i > 0 {
      StrippedBefore(s, i - 1);
      StrippedIf(Before(s, i - 1), s[i - 1].text, s[i - 1].Old());
    }
  }

  lemma {:induction false} StrippedAfter(s: seq<Op>, i: nat)
    requires i <= |s|
    ensures After(StripScript(s), i) == Stripped(After(s, i))
    decreases i
  {
    if i > 0 {
      StrippedAfter(s, i - 1);
      StrippedIf(After(s, i - 1), s[i - 1].text, s[i - 1].New());
    }
  }

  lemma StrippedSides(s: seq<Op>, i: nat)
    requires i <= |s|
    ensures Before(StripScript(s), i) == Stripped(Before(s, i)) && After(StripScript(s), i) == Stripped(After(s, i))
  {
    StrippedBefore(s, i);
    StrippedAfter(s, i);
  }

  lemma StrippedIf(lines: seq<string>, l: string, there: bool)
    ensures Stripped(lines + if there then [l] else []) == Stripped(lines) + if there then [StripCR(l)] else []
  {
    StrippedAppend(lines, l);
    assert lines + [] == lines;
  }

  lemma {:induction false} StrippedHunks(s: seq<Op>, marks: seq<Mark>, i: nat)
    requires i < |s| == |marks|
    ensures HunkOld(StripScript(s), marks, i) == HunkOld(s, marks, i)
    ensures HunkNew(StripScript(s), marks, i) == HunkNew(s, marks, i)
    decreases |s| - i
  {
    if InAt(marks, i + 1) {
      StrippedHunks(s, marks, i + 1);
    }
  }

  lemma StrippedIsSided(s: seq<Op>, marks: seq<Mark>)
    requires |s| == |marks|
    ensures Sided(StripScript(s), marks, 0) <==> Sided(s, marks, 0)
  {
    forall i | 0 <= i < |s|
      ensures EmptySideMidFile(StripScript(s), marks, i) <==> EmptySideMidFile(s, marks, i)
    {
      StrippedSides(s, i);
      StrippedHunks(s, marks, i);
      assert |Stripped(Before(s, i))| == |Before(s, i)| && |Stripped(After(s, i))| == |After(s, i)|;
    }
  }

  lemma StrippedHeader(s: seq<Op>, marks: seq<Mark>, i: nat)
    requires i < |s| == |marks| && marks[i].Start?
    ensures Header(StripScript(s), marks, i) == Header(s, marks, i)
  {
    StrippedSides(s, i);
    StrippedHunks(s, marks, i);
  }

  // ---------- the diff as text ----------

  /** The headers are clean; the lines of the script may end in carriage returns. */
  ghost predicate CleanFile(f: FileDiff) {
    && CleanLine(f.command) && CleanLines(f.extra)
    && CleanLine(f.oldSpelled) && CleanLine(f.newSpelled)
    && (forall i | 0 <= i < |f.script| :: '\n' !in f.script[i].text)
    && forall m | m in f.marks && m.Start? :: CleanLine(m.section)
  }

  lemma CleanAppend(a: string, b: string)
    requires '\n' !in a && a != "" && a[|a| - 1] != '\r' && CleanLine(b)
    ensures CleanLine(a + b)
  {
  }

  lemma LeadIsClean(a: string, b: string)
    requires IsWord(a) && IsWord(b)
    ensures var lead := "@@ -" + a + " +" + b;
      '\n' !in lead && lead != "" && lead[|lead| - 1] != '\r'
  {
    var lead := "@@ -" + a + " +" + b;
    assert lead[|lead| - 1] == b[|b| - 1] && b[|b| - 1] in b;
    assert forall c | c in lead :: c in "@@ -" || c in a || c in " +" || c in b;
  }

  lemma HeaderIsClean(s: seq<Op>, marks: seq<Mark>, i: nat)
    requires i < |s| == |marks| && marks[i].Start? && CleanLine(marks[i].section)
    ensures CleanLine(Header(s, marks, i))
  {
    var a, b := Range(|Before(s, i)|, HunkOld(s, marks, i)), Range(|After(s, i)|, HunkNew(s, marks, i));
    RangeReads(|Before(s, i)|, HunkOld(s, marks, i));
    RangeReads(|After(s, i)|, HunkNew(s, marks, i));
    LeadIsClean(a, b);
    CleanAppend(" @@", marks[i].section);
    CleanAppend("@@ -" + a + " +" + b, " @@" + marks[i].section);
  }

  /** Lines that, written and read back, are `read`. */
  ghost predicate ReadAs(lines: seq<string>, read: seq<string>) {
    (forall i | 0 <= i < |lines| :: '\n' !in lines[i]) && Stripped(lines) == read
  }

  lemma CleanReads(lines: seq<string>)
    requires CleanLines(lines)
    ensures ReadAs(lines, lines)
  {
    assert forall i | 0 <= i < |lines| :: lines[i] in lines;
  }

  lemma ReadTogether(a: seq<string>, x: seq<string>, b: seq<string>, y: seq<string>)
    requires ReadAs(a, x) && ReadAs(b, y)
    ensures ReadAs(a + b, x + y)
  {
    StrippedConcat(a, b);
  }

  lemma OpLineReads(op: Op)
    requires '\n' !in op.text
    ensures ReadAs([OpLines(op)[0]], [OpLines(op.(text := StripCR(op.text)))[0]])
  {
    var lead := match op.kind case Keep => " " case Del => "-" case Add => "+";
    assert StripCR(lead + op.text) == lead + StripCR(op.text);
  }

  lemma OpTextReads(op: Op)
    requires '\n' !in op.text
    ensures ReadAs(OpLines(op), OpLines(op.(text := StripCR(op.text))))
  {
    OpLineReads(op);
    var more := if op.bare then [NO_NEWLINE] else [];
    assert CleanLine(NO_NEWLINE);
    CleanReads(more);
    ReadTogether([OpLines(op)[0]], [OpLines(op.(text := StripCR(op.text)))[0]], more, more);
  }

  lemma {:induction false} PrintedOpsRead(s: seq<Op>, marks: seq<Mark>, i: nat)
    requires i <= |s| == |marks| && forall k | 0 <= k < |s| :: '\n' !in s[k].text
    requires forall m | m in marks && m.Start? :: CleanLine(m.section)
    ensures ReadAs(PrintOps(s, marks, i), PrintOps(StripScript(s), marks, i))
    decreases |s| - i
  {
    if i < |s| {
      var t := StripScript(s);
      PrintedOpsRead(s, marks, i + 1);
      OpTextReads(s[i]);
      ReadTogether(OpLines(s[i]), OpLines(t[i]), PrintOps(s, marks, i + 1), PrintOps(t, marks, i + 1));
      if marks[i].Start? {
        assert marks[i] in marks;
        HeaderReadsFirst(s, marks, i,
                         OpLines(s[i]) + PrintOps(s, marks, i + 1), OpLines(t[i]) + PrintOps(t, marks, i + 1));
      }
    }
  }

  lemma HeaderReadsFirst(s: seq<Op>, marks: seq<Mark>, i: nat, rest: seq<string>, read: seq<string>)
    requires i < |s| == |marks| && marks[i].Start? && CleanLine(marks[i].section) && ReadAs(rest, read)
    ensures ReadAs([Header(s, marks, i)] + rest, [Header(StripScript(s), marks, i)] + read)
  {
    StrippedHeader(s, marks, i);
    HeaderIsClean(s, marks, i);
    CleanReads([Header(s, marks, i)]);
    ReadTogether([Header(s, marks, i)], [Header(s, marks, i)], rest, read);
  }

  function StripFile(f: FileDiff): FileDiff { f.(script := StripScript(f.script)) }

  function StripFiles(files: seq<FileDiff>): seq<FileDiff> {
    if files == [] then [] else [StripFile(files[0])] + StripFiles(files[1..])
  }

  lemma HeaderLinesAreClean(f: FileDiff)
    requires CleanFile(f)
    ensures CleanLines(f.HeaderLines())
  {
    CleanAppend("diff ", f.command);
    CleanAppend("--- ", f.oldSpelled);
    CleanAppend("+++ ", f.newSpelled);
  }

  lemma FileLinesRead(f: FileDiff)
    requires CleanFile(f)
    ensures ReadAs(f.FileLines(), StripFile(f).FileLines())
  {
    HeaderLinesAreClean(f);
    CleanReads(f.HeaderLines());
    PrintedOpsRead(f.script, f.marks, 0);
    assert StripFile(f).HeaderLines() == f.HeaderLines();
    ReadTogether(f.HeaderLines(), f.HeaderLines(),
                 PrintOps(f.script, f.marks, 0), PrintOps(StripScript(f.script), f.marks, 0));
  }

  lemma {:induction false} DiffLinesRead(files: seq<FileDiff>)
    requires forall f | f in files :: CleanFile(f)
    ensures ReadAs(DiffLines(files), DiffLines(StripFiles(files)))
    decreases |files|
  {
    if files != [] {
      var rest := StripFiles(files[1..]);
      assert StripFiles(files)[0] == StripFile(files[0]) && StripFiles(files)[1..] == rest;
      FileLinesRead(files[0]);
      DiffLinesRead(files[1..]);
      ReadTogether(files[0].FileLines(), StripFile(files[0]).FileLines(), DiffLines(files[1..]), DiffLines(rest));
    }
  }

  function DiffText(files: seq<FileDiff>): string {
    Unlines(DiffLines(files))
  }

  ghost predicate PrintableDiff(files: seq<FileDiff>, unquote: string -> string) {
    forall f | f in files :: Printable(f, unquote) && CleanFile(f)
  }

  /** The canonical runs of a section, of its lines as they are read. */
  function Runs(f: FileDiff): seq<HunkText> { CanonicalRuns(f.Path(), StripScript(f.script)) }

  function AllRuns(files: seq<FileDiff>): seq<HunkText> {
    if files == [] then [] else Runs(files[0]) + AllRuns(files[1..])
  }

  lemma {:induction false} StrippedFiles(files: seq<FileDiff>)
    ensures |StripFiles(files)| == |files|
    ensures forall i | 0 <= i < |files| :: StripFiles(files)[i] == StripFile(files[i])
    ensures AllCanonical(StripFiles(files)) == AllRuns(files)
    decreases |files|
  {
    if files != [] {
      var rest := StripFiles(files[1..]);
      StrippedFiles(files[1..]);
      assert StripFiles(files) == [StripFile(files[0])] + rest && StripFiles(files)[1..] == rest;
    }
  }

  lemma StrippedIsPrintable(f: FileDiff, unquote: string -> string)
    requires Printable(f, unquote)
    ensures Printable(StripFile(f), unquote)
  {}

  lemma StrippedArePrintable(files: seq<FileDiff>, unquote: string -> string)
    requires PrintableDiff(files, unquote)
    ensures forall f | f in StripFiles(files) :: Printable(f, unquote)
  {
    StrippedFiles(files);
    forall i | 0 <= i < |files|
      ensures Printable(StripFiles(files)[i], unquote)
    {
      assert files[i] in files;
      StrippedIsPrintable(files[i], unquote);
    }
  }

  lemma StrippedAreSided(files: seq<FileDiff>)
    ensures (forall f | f in StripFiles(files) :: Sided(f.script, f.marks, 0))
       <==> forall f | f in files :: Sided(f.script, f.marks, 0)
  {
    StrippedFiles(files);
    var read := StripFiles(files);
    forall i | 0 <= i < |files|
      ensures files[i] in files && read[i] in read
      ensures Sided(read[i].script, read[i].marks, 0) <==> Sided(files[i].script, files[i].marks, 0)
    {
      StrippedIsSided(files[i].script, files[i].marks);
    }
  }

  /** Reading a printed diff: the runs are the canonical runs of the scripts, in order, of their
      lines without one carriage return at the end, exactly when no hunk below the first line of
      its file has a side without lines. */
  lemma DiffReads(files: seq<FileDiff>, unquote: string -> string)
    requires PrintableDiff(files, unquote)
    ensures RunsIn(DiffText(files), unquote) == AllRuns(files)
       <==> forall f | f in files :: Sided(f.script, f.marks, 0)
  {
    var read := StripFiles(files);
    DiffLinesRead(files);
    LinesOfAny(DiffLines(files));
    StrippedFiles(files);
    StrippedArePrintable(files, unquote);
    StrippedAreSided(files);
    FilesRead(START, read, unquote);
    AllSeenIffSided(read);
    assert [] + AllSeen(read) == AllSeen(read);
  }

  /** With context of any width of at least one line the runs are the canonical ones, so they
      do not depend on the width. */
  lemma ContextDoesNotMatter(files: seq<FileDiff>, width: FileDiff -> nat, section: FileDiff -> nat -> string,
                             unquote: string -> string)
    requires PrintableDiff(files, unquote)
    requires forall f | f in files :: width(f) >= 1 && f.marks == Layout(f.script, width(f), section(f))
    ensures RunsIn(DiffText(files), unquote) == AllRuns(files)
  {
    forall f | f in files
      ensures Sided(f.script, f.marks, 0)
    {
      LayoutIsSided(f.script, width(f), section(f));
    }
    DiffReads(files, unquote);
  }

  const SHORT_DIFF := ["diff --git a/f b/f", "--- a/f", "+++ b/f", "@@ -2,0 +3 @@", "+c"]

  /** Zero context: an insertion below line 2 is read as standing below line 1. */
  lemma ZeroContextMisplaces(unquote: string -> string)
    requires unquote("a/f") == "a/f" && unquote("b/f") == "b/f"
    ensures var s := [Op(Keep, "a", false), Op(Keep, "b", false), Op(Add, "c", false)];
            && RunsIn(Unlines(SHORT_DIFF), unquote) == [HunkText("f", 1, 0, 3, 1, [], ["c"])]
            && CanonicalRuns("f", s) == [HunkText("f", 2, 0, 3, 1, [], ["c"])]
  {
    var s := [Op(Keep, "a", false), Op(Keep, "b", false), Op(Add, "c", false)];
    var marks := [Hidden, Hidden, Start("")];
    var f: FileDiff := FileRecord("--git a/f b/f", [], Some("f"), Some("f"), "a/f", "b/f", s, marks);
    ShortDiffIsPrinted(s, marks, f);
    ShortLinesAreClean();
    assert "a/" + "f" == "a/f" && "b/" + "f" == "b/f" && "a/f" + "" == "a/f" && "b/f" + "" == "b/f";
    PlainNameReads("f", "a/", "", unquote);
    PlainNameReads("f", "b/", "", unquote);
    SectionReads(f, unquote);
    ZeroContextSeen(s, marks);
  }

  /** A diff of one section. */
  lemma SectionReads(f: FileDiff, unquote: string -> string)
    requires Printable(f, unquote) && CleanLines(f.FileLines())
    ensures RunsIn(Unlines(f.FileLines()), unquote) == Seen(f)
  {
    LinesRoundTrip(f.FileLines());
    FileReads(START, f, unquote);
    assert [] + Seen(f) == Seen(f);
  }

  lemma ShortHunkIsPrinted(s: seq<Op>, marks: seq<Mark>)
    requires s == [Op(Keep, "a", false), Op(Keep, "b", false), Op(Add, "c", false)]
    requires marks == [Hidden, Hidden, Start("")]
    ensures PrintOps(s, marks, 0) == ["@@ -2,0 +3 @@", "+c"]
  {
    assert Before(s, 0) == [] && After(s, 0) == [];
    assert Before(s, 1) == [] + ["a"] && After(s, 1) == [] + ["a"];
    assert Before(s, 2) == ["a"] + ["b"] && After(s, 2) == ["a"] + ["b"];
    assert HunkOld(s, marks, 2) == 0 && HunkNew(s, marks, 2) == 1;
    assert Range(2, 0) == "2,0" && Range(2, 1) == "3";
    assert Header(s, marks, 2) == "@@ -2,0 +3 @@";
    assert "+" + "c" == "+c" && OpLines(s[2]) == ["+c"] + [];
    assert PrintOps(s, marks, 3) == [] && OpLines(s[2]) + [] == ["+c"];
    assert PrintOps(s, marks, 2) == ["@@ -2,0 +3 @@"] + ["+c"] == ["@@ -2,0 +3 @@", "+c"];
    assert PrintOps(s, marks, 0) == PrintOps(s, marks, 1) == PrintOps(s, marks, 2);
  }

  lemma ShortLinesAreClean()
    ensures CleanLines(SHORT_DIFF)
  {
    assert CleanLine("diff --git a/f b/f") && CleanLine("--- a/f") && CleanLine("+++ b/f");
    assert CleanLine("@@ -2,0 +3 @@") && CleanLine("+c");
  }

  lemma ShortDiffIsPrinted(s: seq<Op>, marks: seq<Mark>, f: FileDiff)
    requires s == [Op(Keep, "a", false), Op(Keep, "b", false), Op(Add, "c", false)]
    requires marks == [Hidden, Hidden, Start("")]
    requires f == FileRecord("--git a/f b/f", [], Some("f"), Some("f"), "a/f", "b/f", s, marks)
    ensures f.FileLines() == SHORT_DIFF && Legal(s, marks)
  {
    ShortHunkIsPrinted(s, marks);
    assert marks[2] in marks && f.Shown();
    assert "diff " + f.command == "diff --git a/f b/f";
    assert "--- " + f.oldSpelled == "--- a/f" && "+++ " + f.newSpelled == "+++ b/f";
    assert f.HeaderLines() == ["diff --git a/f b/f"] + ([] + ["--- a/f", "+++ b/f"]);
    assert f.FileLines() == ["diff --git a/f b/f", "--- a/f", "+++ b/f", "@@ -2,0 +3 @@", "+c"];
  }

  lemma ZeroContextSeen(s: seq<Op>, marks: seq<Mark>)
    requires s == [Op(Keep, "a", false), Op(Keep, "b", false), Op(Add, "c", false)]
    requires marks == [Hidden, Hidden, Start("")]
    ensures SeenFrom("f", s, marks, 0, NOTHING, false, false) == [HunkText("f", 1, 0, 3, 1, [], ["c"])]
    ensures CanonicalRuns("f", s) == [HunkText("f", 2, 0, 3, 1, [], ["c"])]
  {
    var b1, b2 := NOTHING.Next(s[0]), NOTHING.Next(s[0]).Next(s[1]);
    var b3 := b2.Next(s[2]);
    assert b2 == Block(2, 2, [], []) && b3 == Block(2, 2, [], ["c"]);
    assert Before(s, 1) == ["a"] && Before(s, 2) == ["a", "b"];
    assert HunkOld(s, marks, 2) == 0 && HunkNew(s, marks, 2) == 1;
    assert SeenFrom("f", s, marks, 3, b3, true, false) == [HunkText("f", 1, 0, 3, 1, [], ["c"])];
    assert SeenFrom("f", s, marks, 2, b2, false, false) == SeenFrom("f", s, marks, 3, b3, true, false);
    assert SeenFrom("f", s, marks, 1, b1, false, false) == SeenFrom("f", s, marks, 2, b2, false, false);
    assert BlocksFrom("f", s, 3, b3) == [HunkText("f", 2, 0, 3, 1, [], ["c"])];
    assert BlocksFrom("f", s, 1, b1) == BlocksFrom("f", s, 2, b2) == BlocksFrom("f", s, 3, b3);
  }
}
