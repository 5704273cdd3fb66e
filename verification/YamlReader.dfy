/** A YAML reader's side of a block entry's value, by YAML 1.2.2: double-quoted scalars on one
    line (sections 5.7 and 7.3.1), literal blocks with an explicit indentation and any chomping
    (sections 8.1.1 and 8.1.2). */
module YamlReader {
  import opened Text
  import opened Yaml

  // ---------- double-quoted scalars ----------

  function HexValue(c: char): Option<nat> {
    if '0' <= c <= '9' then Some(c as nat - '0' as nat)
    else if 'a' <= c <= 'f' then Some(c as nat - 'a' as nat + 10)
    else if 'A' <= c <= 'F' then Some(c as nat - 'A' as nat + 10)
    else None
  }

  function HexNumber(s: string): Option<nat> {
    if s == "" then Some(0)
    else
      match (HexNumber(s[..|s| - 1]), HexValue(s[|s| - 1]))
      case (Some(n), Some(d)) => Some(16 * n + d)
      case _ => None
  }

  /** The character of a `\x`, `\u` or `\U` escape of `width` digits. */
  function HexChar(s: string, width: nat): Option<char> {
    if |s| < width then None
    else
      match HexNumber(s[..width])
      case Some(n) => if n < 0xD800 || 0xE000 <= n < 0x11_0000 then Some(n as char) else None
      case None => None
  }

  /** The escapes of one character. */
  function NamedEscape(c: char): Option<char> {
    if c == '0' then Some('\0')
    else if c == 'a' then Some('\U{07}')
    else if c == 'b' then Some('\U{08}')
    else if c == 't' || c == '\t' then Some('\t')
    else if c == 'n' then Some('\n')
    else if c == 'v' then Some('\U{0B}')
    else if c == 'f' then Some('\U{0C}')
    else if c == 'r' then Some('\r')
    else if c == 'e' then Some('\U{1B}')
    else if c == ' ' || c == '"' || c == '/' || c == '\\' then Some(c)
    else if c == 'N' then Some('\U{85}')
    else if c == '_' then Some('\U{A0}')
    else if c == 'L' then Some('\U{2028}')
    else if c == 'P' then Some('\U{2029}')
    else None
  }

  function HexWidth(c: char): nat {
    if c == 'x' then 2 else if c == 'u' then 4 else if c == 'U' then 8 else 0
  }

  /** One character of a double-quoted scalar and what follows it. */
  function QuotedChar(text: string): (r: Option<(char, string)>)
    ensures r.Some? ==> |r.value.1| < |text|
  {
    if text == "" then None
    else if text[0] != '\\' then
      if text[0] == '\t' || text[0] >= ' ' then Some((text[0], text[1..])) else None
    else if |text| == 1 then None
    else
      var width := HexWidth(text[1]);
      if width > 0 then
        match HexChar(text[2..], width)
        case Some(c) => Some((c, text[2 + width..]))
        case None => None
      else
        match NamedEscape(text[1])
        case Some(c) => Some((c, text[2..]))
        case None => None
  }

  /** The scalar whose opening quote precedes `text`, and what follows its closing quote. */
  function ReadQuoted(text: string): Option<(string, string)>
    decreases |text|
  {
    if text == "" then None
    else if text[0] == '"' then Some(("", text[1..]))
    else
      match QuotedChar(text)
      case None => None
      case Some((c, rest)) =>
        match ReadQuoted(rest)
        case None => None
        case Some((s, tail)) => Some(([c] + s, tail))
  }

  // ---------- literal blocks ----------

  /** `nb-char`: printable, not a line break, not a byte order mark. */
  predicate NbChar(c: char) {
    Printable(c) && c != '\n' && c != '\r' && c != '\U{FEFF}'
  }

  predicate AllSpaces(s: string) {
    forall i | 0 <= i < |s| :: s[i] == ' '
  }

  datatype Chomping = Strip | Clip | KeepAll

  /** The lines of a block indented by `width`, up to the first line that is not one of them. */
  function ReadBlockLines(text: string, width: nat): Option<(seq<string>, string)>
    decreases |text|
  {
    if text == "" then Some(([], ""))
    else
      var e := IndexOf(text, '\n');
      var line := text[..e];
      var next := if e < |text| then text[e + 1..] else "";
      if |line| <= width && AllSpaces(line) then
        match ReadBlockLines(next, width)
        case None => None
        case Some((lines, rest)) => Some(([""] + lines, rest))
      else if |line| > width && AllSpaces(line[..width]) then
        if exists i :: width <= i < |line| && !NbChar(line[i]) then None
        else
          match ReadBlockLines(next, width)
          case None => None
          case Some((lines, rest)) => Some(([line[width..]] + lines, rest))
      else Some(([], text))
  }

  function DropTrailingEmpty(lines: seq<string>): seq<string> {
    if lines != [] && lines[|lines| - 1] == "" then DropTrailingEmpty(lines[..|lines| - 1]) else lines
  }

  /** The content of a block: the final break and trailing empty lines by the chomping. */
  function Content(lines: seq<string>, chomping: Chomping): string {
    var body := DropTrailingEmpty(lines);
    match chomping
    case KeepAll => Unlines(lines)
    case Clip => Unlines(body)
    case Strip =>
      var text := Unlines(body);
      if text == "" then "" else text[..|text| - 1]
  }

  /** What follows the `|` of a block header: an indentation digit and a chomping indicator in
      either order, then the line break. */
  function BlockHeader(text: string): Option<(nat, Chomping, string)> {
    var (digitFirst, mark) := (|text| > 0 && '1' <= text[0] <= '9', (c: char) => c == '-' || c == '+');
    if !digitFirst && |text| > 2 && mark(text[0]) && '1' <= text[1] <= '9' && text[2] == '\n' then
      Some((text[1] as nat - '0' as nat, if text[0] == '-' then Strip else KeepAll, text[3..]))
    else if digitFirst && |text| > 2 && mark(text[1]) && text[2] == '\n' then
      Some((text[0] as nat - '0' as nat, if text[1] == '-' then Strip else KeepAll, text[3..]))
    else if digitFirst && |text| > 1 && text[1] == '\n' then
      Some((text[0] as nat - '0' as nat, Clip, text[2..]))
    else None
  }

  /** The value of an entry indented by `indent`, and what follows it. */
  function ReadValue(text: string, indent: nat): Option<(string, string)> {
    if text == "" then None
    else if text[0] == '"' then
      match ReadQuoted(text[1..])
      case Some((s, rest)) => if rest != "" && rest[0] == '\n' then Some((s, rest[1..])) else None
      case None => None
    else if text[0] == '|' then
      match BlockHeader(text[1..])
      case None => None
      case Some((digit, chomping, rest)) =>
        match ReadBlockLines(rest, indent + digit)
        case None => None
        case Some((lines, tail)) => Some((Content(lines, chomping), tail))
    else None
  }

  // ---------- reading what the escape writes ----------

  function Pow16(k: nat): nat {
    if k == 0 then 1 else 16 * Pow16(k - 1)
  }

  lemma {:induction false} HexReads(n: nat, width: nat)
    requires n < Pow16(width)
    ensures HexNumber(Hex(n, width)) == Some(n)
  {
    if width > 0 {
      HexReads(n / 16, width - 1);
      var h := Hex(n, width);
      assert h[..|h| - 1] == Hex(n / 16, width - 1);
      assert HexValue(HexDigit(n % 16)) == Some(n % 16);
    }
  }

  /** A hexadecimal escape reads back. */
  lemma HexEscapeReads(c: char, kind: char, digits: string, rest: string)
    requires kind == 'x' || kind == 'u'
    requires c as nat < Pow16(HexWidth(kind)) && digits == Hex(c as nat, HexWidth(kind))
    ensures QuotedChar("\\" + [kind] + digits + rest) == Some((c, rest))
  {
    var width := HexWidth(kind);
    var text := "\\" + [kind] + digits + rest;
    HexReads(c as nat, width);
    assert |text| >= 2 && text[0] == '\\' && text[1] == kind;
    assert text[2..] == digits + rest;
    assert text[2..][..width] == digits;
    assert text[2 + width..] == rest;
    assert HexChar(text[2..], width) == Some(c);
  }

  lemma Widths()
    ensures Pow16(HexWidth('x')) == 0x100 && Pow16(HexWidth('u')) == 0x1_0000
    ensures Hex(0x2028, 4) == "2028" && Hex(0x2029, 4) == "2029"
  {
    assert Pow16(1) == 16 && Pow16(2) == 256 && Pow16(3) == 4096;
    assert Hex(0x20, 2) == "20" && Hex(0x202, 3) == "202";
  }

  lemma ShortEscapeReads(c: char, namedTab: bool, rest: string)
    requires |EscapeChar(c, namedTab)| <= 2
    ensures QuotedChar(EscapeChar(c, namedTab) + rest) == Some((c, rest))
  {
    var e := EscapeChar(c, namedTab);
    if |e| == 1 {
      assert (e + rest)[1..] == rest;
    } else {
      assert (e + rest)[2..] == rest;
    }
  }

  lemma EscapeCharReads(c: char, namedTab: bool, rest: string)
    ensures EscapeChar(c, namedTab) != "" && EscapeChar(c, namedTab)[0] != '"'
    ensures QuotedChar(EscapeChar(c, namedTab) + rest) == Some((c, rest))
  {
    var e := EscapeChar(c, namedTab);
    Widths();
    if |e| <= 2 {
      ShortEscapeReads(c, namedTab, rest);
    } else if c != '\U{2028}' && c != '\U{2029}' && IsControl(c) {
      HexEscapeReads(c, 'x', Hex(c as nat, 2), rest);
      assert "\\x" == "\\" + ['x'];
    } else {
      HexEscapeReads(c, 'u', Hex(c as nat, 4), rest);
      assert e == "\\" + ['u'] + Hex(c as nat, 4);
    }
  }

  /** Every string, escaped and quoted, reads back. */
  lemma {:induction false} EscapeReads(s: string, namedTab: bool, rest: string)
    ensures ReadQuoted(Escape(s, namedTab) + "\"" + rest) == Some((s, rest))
    decreases |s|
  {
    if s == "" {
      assert (Escape(s, namedTab) + "\"" + rest)[1..] == rest;
    } else {
      var head, tail := EscapeChar(s[0], namedTab), Escape(s[1..], namedTab) + "\"" + rest;
      assert Escape(s, namedTab) + "\"" + rest == head + tail;
      EscapeCharReads(s[0], namedTab, tail);
      EscapeReads(s[1..], namedTab, rest);
      assert s == [s[0]] + s[1..];
    }
  }

  // ---------- reading what the block writes ----------

  /** What follows the entry is less indented than the block, or nothing. */
  ghost predicate Stops(tail: string, width: nat) {
    tail == ""
    || exists j :: 0 <= j < width && j < |tail| && AllSpaces(tail[..j]) && tail[j] != ' ' && tail[j] != '\n'
  }

  lemma StopsReading(tail: string, width: nat)
    requires Stops(tail, width)
    ensures ReadBlockLines(tail, width) == Some(([], tail))
  {
    if tail != "" {
      var j :| 0 <= j < width && j < |tail| && AllSpaces(tail[..j]) && tail[j] != ' ' && tail[j] != '\n';
      var e := IndexOf(tail, '\n');
      assert forall i | 0 <= i < j :: tail[i] == tail[..j][i];
      assert e > j;
      assert tail[..e][j] == tail[j];
      assert |tail[..e]| > width ==> tail[..e][..width][j] == tail[j];
    }
  }

  /** A line a block can hold. */
  predicate Plain(line: string) {
    forall i | 0 <= i < |line| :: line[i] != '\n' && !Problematic(line[i])
  }

  predicate MarkFree(line: string) {
    forall i | 0 <= i < |line| :: line[i] != '\U{FEFF}'
  }

  lemma EmptyLineReads(rest: string, width: nat)
    ensures ReadBlockLines("\n" + rest, width)
         == match ReadBlockLines(rest, width) case None => None case Some((lines, t)) => Some(([""] + lines, t))
  {
    var text := "\n" + rest;
    IndexOfUnique(text, '\n', 0);
    assert text[..0] == "" && text[1..] == rest;
  }

  lemma TextLineReads(line: string, rest: string, width: nat)
    requires line != "" && Plain(line)
    ensures ReadBlockLines(Spaces(width) + line + "\n" + rest, width)
         == if !MarkFree(line) then None
            else match ReadBlockLines(rest, width) case None => None case Some((lines, t)) => Some(([line] + lines, t))
  {
    var shown := Spaces(width) + line;
    var text := shown + "\n" + rest;
    assert text == shown + ['\n'] + rest;
    assert forall i | 0 <= i < |line| :: shown[width + i] == line[i];
    assert '\n' !in shown;
    IndexOfPart(shown, '\n', rest);
    assert shown[..width] == Spaces(width) && shown[width..] == line;
    assert MarkFree(line) <==> !exists i :: width <= i < |shown| && !NbChar(shown[i]) by {
      if i :| width <= i < |shown| && !NbChar(shown[i]) {
        assert shown[i] == line[i - width];
      }
    }
  }

  ghost predicate AllPlain(lines: seq<string>) {
    forall i | 0 <= i < |lines| :: Plain(lines[i])
  }

  ghost predicate AllMarkFree(lines: seq<string>) {
    forall i | 0 <= i < |lines| :: MarkFree(lines[i])
  }

  lemma PlainUpTo(s: string, k: nat)
    requires k <= |s| && '\n' !in s[..k] && forall i | 0 <= i < |s| :: !Problematic(s[i])
    ensures Plain(s[..k])
  {
    assert forall i | 0 <= i < k :: s[i] == s[..k][i];
  }

  lemma AllPlainCons(lines: seq<string>)
    requires lines != []
    ensures AllPlain(lines) <==> Plain(lines[0]) && AllPlain(lines[1..])
  {
    if Plain(lines[0]) && AllPlain(lines[1..]) {
      assert forall i | 1 <= i < |lines| :: lines[i] == lines[1..][i - 1];
    }
  }

  lemma AllMarkFreeCons(lines: seq<string>)
    requires lines != []
    ensures AllMarkFree(lines) <==> MarkFree(lines[0]) && AllMarkFree(lines[1..])
  {
    if MarkFree(lines[0]) && AllMarkFree(lines[1..]) {
      assert forall i | 1 <= i < |lines| :: lines[i] == lines[1..][i - 1];
    }
  }

  /** A block reads back line by line exactly when no line holds a byte order mark. */
  lemma BlockLineReads(line: string, rest: string, indent: nat)
    requires Plain(line)
    ensures ReadBlockLines(BlockLine(line, indent) + rest, indent + 2)
         == if !MarkFree(line) then None
            else match ReadBlockLines(rest, indent + 2)
                 case None => None
                 case Some((lines, t)) => Some(([line] + lines, t))
  {
    if line == "" {
      EmptyLineReads(rest, indent + 2);
    } else {
      assert Spaces(indent) + "  " == Spaces(indent + 2);
      TextLineReads(line, rest, indent + 2);
    }
  }

  lemma {:induction false} BlockLinesRead(lines: seq<string>, indent: nat, tail: string)
    requires AllPlain(lines) && Stops(tail, indent + 2)
    ensures ReadBlockLines(BlockLines(lines, indent) + tail, indent + 2)
         == if AllMarkFree(lines) then Some((lines, tail)) else None
    decreases |lines|
  {
    if lines == [] {
      assert BlockLines(lines, indent) + tail == tail;
      StopsReading(tail, indent + 2);
    } else {
      BlockLinesRead(lines[1..], indent, tail);
      NextBlockLineReads(lines, BlockLines(lines[1..], indent) + tail, indent, tail);
      ConcatAssociates(BlockLine(lines[0], indent), BlockLines(lines[1..], indent), tail);
    }
  }

  lemma NextBlockLineReads(lines: seq<string>, rest: string, indent: nat, tail: string)
    requires lines != [] && Plain(lines[0])
    requires ReadBlockLines(rest, indent + 2) == if AllMarkFree(lines[1..]) then Some((lines[1..], tail)) else None
    ensures ReadBlockLines(BlockLine(lines[0], indent) + rest, indent + 2)
         == if AllMarkFree(lines) then Some((lines, tail)) else None
  {
    BlockLineReads(lines[0], rest, indent);
    AllMarkFreeCons(lines);
    assert [lines[0]] + lines[1..] == lines;
  }

  // ---------- chomping ----------

  lemma {:induction false} UnlinesOfSplit(s: string)
    ensures Unlines(Split(s)) == s + "\n"
    decreases |s|
  {
    var k := IndexOf(s, '\n');
    if k < |s| {
      var first, others := s[..k], Split(s[k + 1..]);
      UnlinesOfSplit(s[k + 1..]);
      UnlinesCons(first, others);
      ConcatAssociates(first + "\n", s[k + 1..], "\n");
      assert s == first + "\n" + s[k + 1..];
    } else {
      assert Unlines([s]) == s + "\n" + Unlines([]);
    }
  }

  lemma LastOfCons<T>(x: T, ys: seq<T>)
    requires ys != []
    ensures ([x] + ys)[|[x] + ys| - 1] == ys[|ys| - 1]
  {
  }

  lemma {:induction false} LastOfSplit(s: string)
    ensures (Split(s)[|Split(s)| - 1] == "") <==> (s == "" || s[|s| - 1] == '\n')
    decreases |s|
  {
    var k := IndexOf(s, '\n');
    if k < |s| {
      LastOfSplit(s[k + 1..]);
      LastOfCons(s[..k], Split(s[k + 1..]));
    } else {
      assert s[..k] == s;
    }
  }

  lemma {:induction false} SplitIsPlain(s: string)
    requires forall i | 0 <= i < |s| :: !Problematic(s[i])
    ensures AllPlain(Split(s))
    ensures AllMarkFree(Split(s)) <==> MarkFree(s)
    decreases |s|
  {
    var k := IndexOf(s, '\n');
    if k == |s| {
      assert s[..k] == s;
      assert forall i | 0 <= i < |s| :: s[i] == s[..k][i];
      assert AllMarkFree([s]) <==> MarkFree([s][0]);
    } else {
      SplitIsPlain(s[k + 1..]);
      PlainUpTo(s, k);
      var pieces := Split(s);
      assert pieces[0] == s[..k] && pieces[1..] == Split(s[k + 1..]);
      AllPlainCons(pieces);
      AllMarkFreeCons(pieces);
      MarkFreeParts(s, k);
    }
  }

  lemma MarkFreeParts(s: string, k: nat)
    requires k < |s| && s[k] == '\n'
    ensures MarkFree(s) <==> MarkFree(s[..k]) && MarkFree(s[k + 1..])
  {
    if MarkFree(s[..k]) && MarkFree(s[k + 1..]) {
      forall i | 0 <= i < |s|
        ensures s[i] != '\U{FEFF}'
      {
        assert i < k ==> s[i] == s[..k][i];
        assert i > k ==> s[i] == s[k + 1..][i - k - 1];
      }
    }
  }

  function ChompingOf(s: string): Chomping {
    match TrailingBreaks(s) case 0 => Strip case 1 => Clip case _ => KeepAll
  }

  /** The chomping the printer chooses gives the tail of the string back. */
  lemma ChompingRestores(s: string)
    requires !Blank(s)
    ensures Content(Split(Body(s)), ChompingOf(s)) == s
  {
    var body := Body(s);
    var lines := Split(body);
    UnlinesOfSplit(body);
    LastOfSplit(body);
    assert IsWhitespace('\n');
    if TrailingBreaks(s) == 0 {
      assert DropTrailingEmpty(lines) == lines;
    } else {
      assert s == body + "\n";
      if TrailingBreaks(s) == 1 {
        assert TrailingBreaks(body) == 0;
        assert body != "" by {
          assert body == "" ==> Blank(s);
        }
        assert DropTrailingEmpty(lines) == lines;
      }
    }
  }

  lemma HeaderReads(s: string, rest: string)
    ensures BlockHeader("2" + Chomp(s) + "\n" + rest) == Some((2, ChompingOf(s), rest))
  {
    var text := "2" + Chomp(s) + "\n" + rest;
    if TrailingBreaks(s) == 1 {
      assert text[2..] == rest;
    } else {
      assert text[3..] == rest;
    }
  }

  /** Whether a YAML reader takes the value back: the escaped form always, the block unless the
      string holds a byte order mark, which the block does not escape and YAML does not admit. */
  predicate Readable(s: string) {
    NeedsEscape(s) || MarkFree(s)
  }

  /** The round trip, at every indent and whatever less indented text follows. */
  lemma BlockValueReads(s: string, indent: nat, tail: string)
    requires Stops(tail, indent + 2)
    ensures ReadValue(BlockValue(s, indent) + tail, indent) == if Readable(s) then Some((s, tail)) else None
  {
    if NeedsEscape(s) {
      QuotedValueReads(s, indent, tail);
    } else {
      LiteralValueReads(s, indent, tail);
    }
  }

  /** A literal block that does not read back, at any indent: YAML admits no byte order mark in it. */
  lemma MarkIsUnreadable(indent: nat, tail: string)
    requires Stops(tail, indent + 2)
    ensures var s := "a\U{FEFF}";
            !NeedsEscape(s) && ReadValue(BlockValue(s, indent) + tail, indent) == None
  {
    var s := "a\U{FEFF}";
    assert s[0] == 'a' && s[1] == '\U{FEFF}' && !IsWhitespace(s[0]);
    assert forall i | 0 <= i < |s| :: !Problematic(s[i]);
    assert !MarkFree(s);
    BlockValueReads(s, indent, tail);
  }

  lemma QuotedValueReads(s: string, indent: nat, tail: string)
    ensures ReadValue("\"" + Escape(s, true) + "\"\n" + tail, indent) == Some((s, tail))
  {
    var text := "\"" + Escape(s, true) + "\"\n" + tail;
    var rest := "\n" + tail;
    assert text[1..] == Escape(s, true) + "\"" + rest;
    EscapeReads(s, true, rest);
    assert rest[1..] == tail;
  }

  /** A literal value is read once its header and its lines are. */
  lemma LiteralReads(header: string, rest: string, indent: nat, chomping: Chomping, read: Option<(seq<string>, string)>)
    requires BlockHeader(header) == Some((2, chomping, rest)) && ReadBlockLines(rest, indent + 2) == read
    ensures ReadValue("|" + header, indent)
         == if read.Some? then Some((Content(read.value.0, chomping), read.value.1)) else None
  {
    assert ("|" + header)[1..] == header;
  }

  lemma BarStands(chomp: string, block: string, tail: string)
    ensures "|2" + chomp + "\n" + block + tail == "|" + ("2" + chomp + "\n" + (block + tail))
  {
    assert "|2" == "|" + "2";
    assert "|2" + chomp + "\n" == "|" + ("2" + chomp + "\n");
  }

  lemma LiteralValueReads(s: string, indent: nat, tail: string)
    requires !NeedsEscape(s) && Stops(tail, indent + 2)
    ensures ReadValue("|2" + Chomp(s) + "\n" + BlockLines(Split(Body(s)), indent) + tail, indent)
         == if MarkFree(s) then Some((s, tail)) else None
  {
    var lines := Split(Body(s));
    SplitIsPlain(Body(s));
    BodyMarkFree(s);
    var header := "2" + Chomp(s) + "\n" + (BlockLines(lines, indent) + tail);
    BarStands(Chomp(s), BlockLines(lines, indent), tail);
    LiteralHeaderReads(s, lines, header, indent, tail);
  }

  lemma LiteralHeaderReads(s: string, lines: seq<string>, header: string, indent: nat, tail: string)
    requires !NeedsEscape(s) && Stops(tail, indent + 2) && lines == Split(Body(s)) && AllPlain(lines)
    requires header == "2" + Chomp(s) + "\n" + (BlockLines(lines, indent) + tail)
    ensures ReadValue("|" + header, indent) == if AllMarkFree(lines) then Some((s, tail)) else None
  {
    var read := if AllMarkFree(lines) then Some((lines, tail)) else None;
    HeaderReads(s, BlockLines(lines, indent) + tail);
    BlockLinesRead(lines, indent, tail);
    LiteralReads(header, BlockLines(lines, indent) + tail, indent, ChompingOf(s), read);
    ChompingRestores(s);
  }

  lemma BodyMarkFree(s: string)
    ensures MarkFree(Body(s)) <==> MarkFree(s)
  {
    if MarkFree(Body(s)) {
      forall i | 0 <= i < |s|
        ensures s[i] != '\U{FEFF}'
      {
        assert i < |Body(s)| ==> s[i] == Body(s)[i];
      }
    }
  }
}
