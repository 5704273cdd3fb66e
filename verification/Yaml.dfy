/** Multi-line strings as the YAML artifact holds them (`artifact.rs`): a literal block whose
    chomping keeps the tail exactly, or an escaped double-quoted scalar. */
module Yaml {
  import opened Text

  predicate Printable(c: char) {
    || c == '\t' || c == '\n' || c == '\r' || ' ' <= c <= '~' || c == '\U{85}'
    || '\U{A0}' <= c <= '\U{D7FF}' || '\U{E000}' <= c <= '\U{FFFD}' || c >= '\U{10000}'
  }

  /** A character a literal block cannot carry as itself. */
  predicate Problematic(c: char) {
    c == '\r' || c == '\U{85}' || c == '\U{2028}' || c == '\U{2029}' || !Printable(c)
  }

  predicate IsControl(c: char) {
    c < ' ' || '\U{7F}' <= c <= '\U{9F}'
  }

  function HexDigit(d: nat): (c: char)
    requires d < 16
  {
    if d < 10 then ('0' as int + d) as char else ('a' as int + d - 10) as char
  }

  /** `n` in `width` hexadecimal digits. */
  function Hex(n: nat, width: nat): (h: string)
    ensures |h| == width
  {
    if width == 0 then "" else Hex(n / 16, width - 1) + [HexDigit(n % 16)]
  }

  function EscapeChar(c: char, namedTab: bool): string {
    if c == '\\' then "\\\\"
    else if c == '"' then "\\\""
    else if c == '\n' then "\\n"
    else if c == '\r' then "\\r"
    else if c == '\0' then "\\0"
    else if c == '\U{08}' then "\\b"
    else if c == '\U{0C}' then "\\f"
    else if c == '\t' && namedTab then "\\t"
    else if c == '\U{2028}' then "\\" + "u2028"
    else if c == '\U{2029}' then "\\" + "u2029"
    else if IsControl(c) then "\\x" + Hex(c as nat, 2)
    else if !Printable(c) then "\\" + "u" + Hex(c as nat, 4)
    else [c]
  }

  function Escape(s: string, namedTab: bool): string {
    if s == "" then "" else EscapeChar(s[0], namedTab) + Escape(s[1..], namedTab)
  }

  method YamlEscape(s: string, namedTab: bool) returns (out: string)
    ensures out == Escape(s, namedTab)
  {
    out := "";
    for i := 0 to |s|
      invariant out + Escape(s[i..], namedTab) == Escape(s, namedTab)
    {
      assert s[i..][0] == s[i] && s[i..][1..] == s[i + 1..];
      ConcatAssociates(out, EscapeChar(s[i], namedTab), Escape(s[i + 1..], namedTab));
      out := out + EscapeChar(s[i], namedTab);
    }
    assert s[|s|..] == "";
  }

  // ---------- the block ----------

  function Spaces(n: nat): (s: string)
    ensures |s| == n && forall i | 0 <= i < n :: s[i] == ' '
  {
    seq(n, _ => ' ')
  }

  predicate NeedsEscape(s: string) {
    (exists i :: 0 <= i < |s| && Problematic(s[i])) || Blank(s)
  }

  /** What a literal block is used for: tabs, line feeds and the printable characters but for the
      other line breaks, some of them no white space. */
  lemma LiteralIs(s: string)
    ensures !NeedsEscape(s)
       <==> && (exists i :: 0 <= i < |s| && !IsWhitespace(s[i]))
            && forall i | 0 <= i < |s| ::
                 || s[i] in {'\t', '\n'} || ' ' <= s[i] <= '~' || '\U{A0}' <= s[i] <= '\U{2027}'
                 || '\U{202A}' <= s[i] <= '\U{D7FF}' || '\U{E000}' <= s[i] <= '\U{FFFD}' || '\U{10000}' <= s[i]
  {
    forall i | 0 <= i < |s|
      ensures !Problematic(s[i])
         <==> || s[i] in {'\t', '\n'} || ' ' <= s[i] <= '~' || '\U{A0}' <= s[i] <= '\U{2027}'
              || '\U{202A}' <= s[i] <= '\U{D7FF}' || '\U{E000}' <= s[i] <= '\U{FFFD}' || '\U{10000}' <= s[i]
    {
    }
  }

  function TrailingBreaks(s: string): (n: nat)
    ensures n <= |s|
  {
    if s != "" && s[|s| - 1] == '\n' then 1 + TrailingBreaks(s[..|s| - 1]) else 0
  }

  function Body(s: string): string {
    if s != "" && s[|s| - 1] == '\n' then s[..|s| - 1] else s
  }

  function Chomp(s: string): string {
    match TrailingBreaks(s)
    case 0 => "-"
    case 1 => ""
    case _ => "+"
  }

  function BlockLine(line: string, indent: nat): string {
    if line == "" then "\n" else Spaces(indent) + "  " + line + "\n"
  }

  function BlockLines(lines: seq<string>, indent: nat): string {
    if lines == [] then "" else BlockLine(lines[0], indent) + BlockLines(lines[1..], indent)
  }

  /** What follows `key: `. */
  function BlockValue(s: string, indent: nat): string {
    if NeedsEscape(s) then "\"" + Escape(s, true) + "\"\n"
    else "|2" + Chomp(s) + "\n" + BlockLines(Split(Body(s)), indent)
  }

  method CountTrailingBreaks(s: string) returns (n: nat)
    ensures n == TrailingBreaks(s)
  {
    n := 0;
    assert s[..|s|] == s;
    while n < |s| && s[|s| - 1 - n] == '\n'
      invariant 0 <= n <= |s|
      invariant TrailingBreaks(s) == n + TrailingBreaks(s[..|s| - n])
    {
      assert s[..|s| - n][..|s| - n - 1] == s[..|s| - (n + 1)];
      n := n + 1;
    }
  }

  method WriteLines(lines: seq<string>, indent: nat) returns (written: string)
    ensures written == BlockLines(lines, indent)
  {
    written := "";
    for i := 0 to |lines|
      invariant written + BlockLines(lines[i..], indent) == BlockLines(lines, indent)
    {
      var line := if lines[i] == "" then "\n" else Spaces(indent) + "  " + lines[i] + "\n";
      ConcatAssociates(written, line, BlockLines(lines[i + 1..], indent));
      assert lines[i..][0] == lines[i] && lines[i..][1..] == lines[i + 1..];
      written := written + line;
    }
    assert lines[|lines|..] == [];
  }

  method YamlBlock(out: string, key: string, s: string, indent: nat) returns (out': string)
    ensures out' == out + Spaces(indent) + key + ": " + BlockValue(s, indent)
  {
    if NeedsEscape(s) {
      var escaped := YamlEscape(s, true);
      return out + Spaces(indent) + key + ": " + ("\"" + escaped + "\"\n");
    }
    var body := Body(s);
    var n := CountTrailingBreaks(s);
    var chomp := match n case 0 => "-" case 1 => "" case _ => "+";
    var head := "|2" + chomp + "\n";
    var written := WriteLines(Split(body), indent);
    return out + Spaces(indent) + key + ": " + (head + written);
  }
}
