/** The one-line path list of the text artifact (`artifact.rs`): a path and its mark on one
    line, so written that the line says which path and which mark. */
module PathLine {
  import opened Text
  import opened Budget
  import opened BudgetRuns

  datatype Mark = Unmarked | Omitted | NoFragments

  const OMITTED_TEXT_MARK := " (omitted)"
  const NO_FRAGMENTS_TEXT_MARK := " (no fragments)"

  function MarkText(mark: Mark): string {
    match mark
    case Unmarked => ""
    case Omitted => OMITTED_TEXT_MARK
    case NoFragments => NO_FRAGMENTS_TEXT_MARK
  }

  // ---------- which mark ----------

  /** Changed files no fragment of which is in the document, and those that yielded none. */
  function ChangedFileMarks(d: Doc, changedFiles: seq<string>): (set<string>, set<string>) {
    var changes := if d.changes.Some? then d.changes.value else [];
    var represented := Paths(FragmentsOf(d));
    (if changes == [] then set p | p in changedFiles && p !in represented
     else set c | c in changes && c.represented == Some(false) && !c.noFragments :: PathOr(c),
     set c | c in changes && c.noFragments :: PathOr(c))
  }

  function MarkOf(path: string, marks: (set<string>, set<string>)): Mark {
    if path in marks.1 then NoFragments else if path in marks.0 then Omitted else Unmarked
  }

  // ---------- the line ----------

  /** `str::replace` of one character. */
  function Replace(s: string, c: char, with: string): string {
    if s == "" then "" else (if s[0] == c then with else [s[0]]) + Replace(s[1..], c, with)
  }

  function EscapeMark(text: string, mark: string): string
    requires mark != ""
  {
    match StripSuffix(text, mark)
    case Some(stem) => stem + " \\" + mark[1..]
    case None => text
  }

  function EscapeTextPath(path: string): string {
    var text := Replace(Replace(Replace(path, '\\', "\\\\"), '\n', "\\n"), '\r', "\\r");
    EscapeMark(EscapeMark(text, OMITTED_TEXT_MARK), NO_FRAGMENTS_TEXT_MARK)
  }

  function Line(path: string, mark: Mark): string {
    EscapeTextPath(path) + MarkText(mark)
  }

  // ---------- reading a line ----------

  function Unescape(text: string): string
    decreases |text|
  {
    if text == "" then ""
    else if text[0] == '\\' && |text| > 1 then
      [if text[1] == 'n' then '\n' else if text[1] == 'r' then '\r' else text[1]] + Unescape(text[2..])
    else [text[0]] + Unescape(text[1..])
  }

  function ReadPathLine(line: string): (string, Mark) {
    match StripSuffix(line, OMITTED_TEXT_MARK)
    case Some(text) => (Unescape(text), Omitted)
    case None =>
      match StripSuffix(line, NO_FRAGMENTS_TEXT_MARK)
      case Some(text) => (Unescape(text), NoFragments)
      case None => (Unescape(line), Unmarked)
  }

  // ---------- the three replacements, character by character ----------

  function CharText(c: char): string {
    if c == '\\' then "\\\\" else if c == '\n' then "\\n" else if c == '\r' then "\\r" else [c]
  }

  function Escaped(path: string): string {
    if path == "" then "" else Escaped(path[..|path| - 1]) + CharText(path[|path| - 1])
  }

  lemma {:induction false} ReplaceConcat(a: string, b: string, c: char, with: string)
    ensures Replace(a + b, c, with) == Replace(a, c, with) + Replace(b, c, with)
    decreases |a|
  {
    if a == "" {
      assert a + b == b;
    } else {
      assert (a + b)[1..] == a[1..] + b;
      ReplaceConcat(a[1..], b, c, with);
    }
  }

  lemma ReplaceShort(s: string, c: char, with: string)
    requires |s| == 1 || |s| == 2
    ensures Replace(s, c, with)
         == (if s[0] == c then with else [s[0]]) + (if |s| == 1 then "" else if s[1] == c then with else [s[1]])
  {
    if |s| == 2 {
      assert s[1..] == [s[1]] && s[1..][1..] == "";
    }
  }

  function Replaced(s: string): string {
    Replace(Replace(Replace(s, '\\', "\\\\"), '\n', "\\n"), '\r', "\\r")
  }

  lemma ReplacedConcat(a: string, b: string)
    ensures Replaced(a + b) == Replaced(a) + Replaced(b)
  {
    ReplaceConcat(a, b, '\\', "\\\\");
    var a1, b1 := Replace(a, '\\', "\\\\"), Replace(b, '\\', "\\\\");
    ReplaceConcat(a1, b1, '\n', "\\n");
    ReplaceConcat(Replace(a1, '\n', "\\n"), Replace(b1, '\n', "\\n"), '\r', "\\r");
  }

  lemma ReplacedChar(c: char)
    ensures Replaced([c]) == CharText(c)
  {
    var s1 := Replace([c], '\\', "\\\\");
    ReplaceShort([c], '\\', "\\\\");
    ReplaceShort(s1, '\n', "\\n");
    ReplaceShort(Replace(s1, '\n', "\\n"), '\r', "\\r");
  }

  lemma {:induction false} ReplacedIsEscaped(path: string)
    ensures Replaced(path) == Escaped(path)
  {
    if path != "" {
      var init, last := path[..|path| - 1], path[|path| - 1];
      assert path == init + [last];
      ReplacedConcat(init, [last]);
      ReplacedChar(last);
      ReplacedIsEscaped(init);
    }
  }

  // ---------- unescaping ----------

  lemma {:induction false} UnescapeOfEscaped(path: string, rest: string)
    ensures Unescape(Escaped(path) + rest) == path + Unescape(rest)
    decreases |path|
  {
    if path == "" {
      assert Escaped(path) + rest == rest;
    } else {
      var init, last := path[..|path| - 1], path[|path| - 1];
      var e := CharText(last);
      UnescapeOfEscaped(init, e + rest);
      ConcatAssociates(Escaped(init), e, rest);
      UnescapeChar(last, rest);
      assert path == init + [last];
      ConcatAssociates(init, [last], Unescape(rest));
    }
  }

  lemma UnescapeChar(c: char, rest: string)
    ensures Unescape(CharText(c) + rest) == [c] + Unescape(rest)
  {
    var e := CharText(c);
    if |e| == 1 {
      assert (e + rest)[1..] == rest;
    } else {
      assert (e + rest)[2..] == rest;
    }
  }

  lemma {:induction false} UnescapePlain(text: string)
    requires '\\' !in text
    ensures Unescape(text) == text
    decreases |text|
  {
    if text != "" {
      UnescapePlain(text[1..]);
    }
  }

  /** The last character of an escaped path, no escape's last character unless a backslash
      precedes it. */
  lemma EscapedLast(path: string, c: char) returns (init: string)
    requires Escaped(path) != "" && Escaped(path)[|Escaped(path)| - 1] == c && c != '\\'
    requires c == 'n' || c == 'r' ==> |Escaped(path)| > 1 && Escaped(path)[|Escaped(path)| - 2] != '\\'
    ensures path == init + [c] && Escaped(path) == Escaped(init) + [c]
  {
    init := path[..|path| - 1];
    var last := path[|path| - 1];
    var e := CharText(last);
    TailOf(Escaped(init), e);
    assert |e| == 1;
  }

  lemma TailOf(front: string, e: string)
    requires 1 <= |e| <= 2
    ensures (front + e)[|front + e| - 1] == e[|e| - 1]
    ensures |e| == 2 ==> (front + e)[|front + e| - 2] == e[0]
  {}

  lemma LastOf(x: string, front: string, last: char)
    ensures x + (front + [last]) == (x + front) + [last]
  {
  }

  /** An escaped path that ends like a mark is that of a path that ends like it. */
  lemma {:induction false} EscapedSuffix(path: string, x: string, mark: string) returns (stem: string)
    requires Escaped(path) == x + mark
    requires '\\' !in mark && (mark != "" ==> mark[0] != 'n' && mark[0] != 'r')
    ensures path == stem + mark && Escaped(stem) == x
    decreases |mark|
  {
    if mark == "" {
      stem := path;
      assert x + mark == x && stem + mark == stem;
    } else {
      var m := |mark| - 1;
      var front, last := mark[..m], mark[m];
      assert mark == front + [last] && last in mark;
      assert forall c | c in front :: c in mark;
      LastOf(x, front, last);
      assert m > 0 ==> (x + front)[|x + front| - 1] == front[m - 1] && front[m - 1] in front;
      var init := EscapedLast(path, last);
      SameFront(Escaped(init), x + front, last);
      stem := EscapedSuffix(init, x, front);
      LastOf(stem, front, last);
    }
  }

  lemma SameFront(a: string, b: string, last: char)
    requires a + [last] == b + [last]
    ensures a == b
  {
    assert a == (a + [last])[..|a|] && b == (b + [last])[..|b|];
  }

  // ---------- the line says which path and which mark ----------

  /** A text that stands for a path and looks like no mark. */
  ghost predicate Stands(text: string, path: string) {
    && Unescape(text) == path && '\n' !in text && '\r' !in text
    && !EndsWith(text, OMITTED_TEXT_MARK) && !EndsWith(text, NO_FRAGMENTS_TEXT_MARK)
  }

  lemma {:induction false} EscapedHasNoBreak(path: string)
    ensures '\n' !in Escaped(path) && '\r' !in Escaped(path)
  {
    if path != "" {
      EscapedHasNoBreak(path[..|path| - 1]);
    }
  }

  lemma MarksArePlain()
    ensures '\\' !in OMITTED_TEXT_MARK && '\\' !in NO_FRAGMENTS_TEXT_MARK
  {
    assert forall i | 0 <= i < |OMITTED_TEXT_MARK| :: OMITTED_TEXT_MARK[i] != '\\';
    assert forall i | 0 <= i < |NO_FRAGMENTS_TEXT_MARK| :: NO_FRAGMENTS_TEXT_MARK[i] != '\\';
  }

  /** The mark at the end of an escaped path is set off by a backslash. */
  lemma MarkSetOff(path: string, mark: string)
    requires mark == OMITTED_TEXT_MARK || mark == NO_FRAGMENTS_TEXT_MARK
    requires EndsWith(Escaped(path), mark)
    ensures Stands(EscapeMark(Escaped(path), mark), path)
  {
    var text := Escaped(path);
    var x := text[..|text| - |mark|];
    assert text == x + mark;
    MarksArePlain();
    var stem := EscapedSuffix(path, x, mark);
    StemOf(x, mark);
    UnescapeSetOff(mark[1..]);
    UnescapeOfEscaped(stem, " \\" + mark[1..]);
    assert mark == " " + mark[1..];
    EndsSetOff(x, mark);
    EscapedHasNoBreak(path);
    assert forall c | c in mark[1..] :: c in mark;
  }

  lemma StemOf(stem: string, mark: string)
    requires mark != ""
    ensures EscapeMark(stem + mark, mark) == stem + " \\" + mark[1..] == stem + (" \\" + mark[1..])
  {
    assert (stem + mark)[|stem|..] == mark;
    assert (stem + mark)[..|stem|] == stem;
  }

  lemma UnescapeSetOff(tail: string)
    requires tail != "" && tail[0] == '(' && '\\' !in tail
    ensures Unescape(" \\" + tail) == " " + tail
  {
    var text := "\\" + tail;
    assert (" \\" + tail)[1..] == text;
    assert text[2..] == tail[1..];
    UnescapePlain(tail[1..]);
    assert tail == ['('] + tail[1..];
  }

  lemma EndsDiffer(text: string, mark: string, k: nat)
    requires 1 <= k <= |mark| && k <= |text| && text[|text| - k] != mark[|mark| - k]
    ensures !EndsWith(text, mark)
  {
    if |mark| <= |text| {
      assert text[|text| - |mark|..][|mark| - k] == text[|text| - k];
    }
  }

  lemma EndsSetOff(stem: string, mark: string)
    requires mark == OMITTED_TEXT_MARK || mark == NO_FRAGMENTS_TEXT_MARK
    ensures var text := stem + (" \\" + mark[1..]);
      !EndsWith(text, OMITTED_TEXT_MARK) && !EndsWith(text, NO_FRAGMENTS_TEXT_MARK)
  {
    var text := stem + (" \\" + mark[1..]);
    EndsDiffer(text, mark, |mark|);
    if mark == OMITTED_TEXT_MARK {
      EndsDiffer(text, NO_FRAGMENTS_TEXT_MARK, 2);
    } else {
      EndsDiffer(text, OMITTED_TEXT_MARK, 2);
    }
  }

  lemma PathStands(path: string)
    ensures Stands(EscapeTextPath(path), path)
  {
    ReplacedIsEscaped(path);
    EscapedHasNoBreak(path);
    var text := Escaped(path);
    if EndsWith(text, OMITTED_TEXT_MARK) {
      MarkSetOff(path, OMITTED_TEXT_MARK);
    } else if EndsWith(text, NO_FRAGMENTS_TEXT_MARK) {
      MarkSetOff(path, NO_FRAGMENTS_TEXT_MARK);
    } else {
      UnescapeOfEscaped(path, "");
      assert text + "" == text;
    }
  }

  /** Neither break is in the text. */
  ghost predicate OneLine(text: string) { '\n' !in text && '\r' !in text }

  lemma MarkedIsOneLine(text: string, mark: Mark)
    requires OneLine(text)
    ensures OneLine(text + MarkText(mark))
  {
    assert OneLine(MarkText(mark));
  }

  /** A mark after text that ends in none is read off. */
  lemma MarkReads(text: string, path: string, mark: Mark)
    requires Stands(text, path)
    ensures OneLine(text + MarkText(mark)) && ReadPathLine(text + MarkText(mark)) == (path, mark)
  {
    MarkedIsOneLine(text, mark);
    match mark
    case Unmarked =>
      assert text + "" == text;
    case Omitted =>
      assert (text + OMITTED_TEXT_MARK)[|text|..] == OMITTED_TEXT_MARK;
    case NoFragments =>
      var line := text + NO_FRAGMENTS_TEXT_MARK;
      assert line[|text|..] == NO_FRAGMENTS_TEXT_MARK;
      EndsDiffer(line, OMITTED_TEXT_MARK, 2);
  }

  /** Every line is one line and reads back as its path and its mark. */
  lemma LineReads(path: string, mark: Mark)
    ensures '\n' !in Line(path, mark) && '\r' !in Line(path, mark)
    ensures ReadPathLine(Line(path, mark)) == (path, mark)
  {
    PathStands(path);
    MarkReads(EscapeTextPath(path), path, mark);
  }

  /** No two pairs of a path and a mark share a line. */
  lemma LinesAreUnambiguous(path: string, mark: Mark, path': string, mark': Mark)
    requires Line(path, mark) == Line(path', mark')
    ensures path == path' && mark == mark'
  {
    LineReads(path, mark);
    LineReads(path', mark');
  }

  /** A path some change yielded no fragments of is marked so; of the others, one some change of
      which is left unrepresented is omitted, or one listed without a fragment when there are no
      changes. */
  lemma MarksStand(d: Doc, changedFiles: seq<string>, path: string)
    ensures var mark := MarkOf(path, ChangedFileMarks(d, changedFiles));
            var changes := if d.changes.Some? then d.changes.value else [];
            var bare := exists c :: c in changes && c.noFragments && IsOf(c, path);
      && (mark == NoFragments <==> bare)
      && (mark == Omitted <==>
            && !bare
            && (if changes == [] then path in changedFiles && !exists f :: f in FragmentsOf(d) && f.path == path
                else exists c :: c in changes && c.represented == Some(false) && !c.noFragments && IsOf(c, path)))
  {
    var changes := if d.changes.Some? then d.changes.value else [];
    assert forall c: Change :: IsOf(c, path) <==> PathOr(c) == path;
  }

  /** In a document whose book is right a changed file that yielded fragments is marked omitted
      exactly when none of them is left. */
  lemma OmittedMeansNoneLeft(d: Doc, changedFiles: seq<string>, c: Change)
    requires Honest(d) && d.changes.Some? && c in d.changes.value
    requires forall x | x in d.changes.value :: x.path.Some?
    requires forall x | x in d.changes.value && x.path == c.path :: !x.noFragments
    ensures MarkOf(c.path.value, ChangedFileMarks(d, changedFiles)) == Omitted
       <==> !exists f :: f in FragmentsOf(d) && f.path == c.path.value
  {
    var marks := ChangedFileMarks(d, changedFiles);
    var p := c.path.value;
    assert p !in marks.1;
    if p in marks.0 {
      var x :| x in d.changes.value && x.represented == Some(false) && !x.noFragments && PathOr(x) == p;
      assert x.path == c.path && HonestChange(d, x);
    } else {
      assert PathOr(c) == p && !c.noFragments;
      assert HonestChange(d, c);
      assert c.represented == Some(false) ==> PathOr(c) in marks.0;
      assert c.represented.value;
      var f :| f in d.fragments.value && f.path == p;
    }
  }
}
