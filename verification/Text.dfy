/** Text as the program's string library reads it: lines, words, decimal numbers. */
module Text {

  datatype Option<+T> = None | Some(value: T)

  lemma ConcatAssociates<T>(a: seq<T>, b: seq<T>, c: seq<T>)
    ensures a + b + c == a + (b + c)
  {
  }

  lemma SlicesJoin<T>(s: seq<T>, a: nat, b: nat, c: nat)
    requires a <= b <= c <= |s|
    ensures s[a..b] + s[b..c] == s[a..c]
  {
  }

  lemma SliceOfPrefix<T>(p: seq<T>, s: seq<T>, a: nat, b: nat)
    requires p <= s && a <= b <= |p|
    ensures s[a..b] == p[a..b]
  {
  }

  lemma SplitAt<T>(s: seq<T>, i: nat, x: T)
    requires i < |s|
    ensures s[i..] == [s[i]] + s[i + 1..]
    ensures s[i := x] == s[..i] + ([x] + s[i + 1..])
  {
  }

  /** Lists with the same head are the same when their tails are. */
  lemma SameHead<T>(a: seq<T>, b: seq<T>, tail: seq<T>)
    requires b != [] && a == [b[0]] + tail
    ensures a == b <==> tail == b[1..]
  {
    assert a[1..] == tail && b == [b[0]] + b[1..];
  }

  lemma SameCons<T>(a: T, x: seq<T>, b: T, y: seq<T>)
    ensures [a] + x == [b] + y <==> a == b && x == y
  {
    assert ([a] + x)[0] == a && ([a] + x)[1..] == x;
    assert ([b] + y)[0] == b && ([b] + y)[1..] == y;
  }

  /** The index of the first `c` in `s`, or `|s|`. */
  function IndexOf(s: string, c: char): (k: nat)
    ensures k <= |s|
    ensures c !in s[..k]
    ensures k < |s| ==> s[k] == c
  {
    if s == "" then 0
    else if s[0] == c then 0
    else
      var k := IndexOf(s[1..], c);
      assert s[..k + 1] == [s[0]] + s[1..][..k];
      k + 1
  }

  lemma IndexOfUnique(s: string, c: char, k: nat)
    requires k <= |s| && c !in s[..k] && (k < |s| ==> s[k] == c)
    ensures IndexOf(s, c) == k
  {
    var i := IndexOf(s, c);
    forall j | 0 <= j < k
      ensures s[j] != c
    {
      assert s[j] == s[..k][j];
    }
    forall j | 0 <= j < i
      ensures s[j] != c
    {
      assert s[j] == s[..i][j];
    }
  }

  /** `IndexOf` of a text whose first part is free of `c` and is followed by `c`. */
  lemma IndexOfPart(part: string, c: char, rest: string)
    requires c !in part
    ensures IndexOf(part + [c] + rest, c) == |part|
    ensures (part + [c] + rest)[..|part|] == part
    ensures (part + [c] + rest)[|part| + 1..] == rest
  {
    var s := part + [c] + rest;
    assert s[..|part|] == part;
    IndexOfUnique(s, c, |part|);
  }

  // ---------- lines ----------

  function StripCR(s: string): string {
    if |s| > 0 && s[|s| - 1] == '\r' then s[..|s| - 1] else s
  }

  function TrimEndCR(s: string): (r: string)
    ensures |s| == 0 || s[|s| - 1] != '\r' ==> r == s
    ensures r <= s
    ensures |r| == 0 || r[|r| - 1] != '\r'
  {
    if |s| > 0 && s[|s| - 1] == '\r' then TrimEndCR(s[..|s| - 1]) else s
  }

  /** Every line without the carriage returns at its end. */
  function Trimmed(ls: seq<string>): (r: seq<string>)
    ensures |r| == |ls|
    ensures forall i | 0 <= i < |ls| :: r[i] == TrimEndCR(ls[i])
  {
    if ls == [] then [] else [TrimEndCR(ls[0])] + Trimmed(ls[1..])
  }

  /** Every line without one carriage return at its end. */
  function Stripped(ls: seq<string>): (r: seq<string>)
    ensures |r| == |ls|
    ensures forall i | 0 <= i < |ls| :: r[i] == StripCR(ls[i])
  {
    if ls == [] then [] else [StripCR(ls[0])] + Stripped(ls[1..])
  }

  lemma TrimOfStrip(s: string)
    ensures TrimEndCR(StripCR(s)) == TrimEndCR(s)
  {}

  lemma StrippedAppend(lines: seq<string>, last: string)
    ensures Stripped(lines + [last]) == Stripped(lines) + [StripCR(last)]
  {
  }

  lemma StrippedConcat(a: seq<string>, b: seq<string>)
    ensures Stripped(a + b) == Stripped(a) + Stripped(b)
  {
  }

  lemma TrimmedOfStripped(ls: seq<string>)
    ensures Trimmed(Stripped(ls)) == Trimmed(ls)
  {
    forall i | 0 <= i < |ls|
      ensures Trimmed(Stripped(ls))[i] == Trimmed(ls)[i]
    {
      TrimOfStrip(ls[i]);
    }
  }

  /** `str::lines`: split at `\n`, one `\r` before a `\n` stripped, no last empty line. */
  function Lines(s: string): seq<string> {
    if s == "" then []
    else
      var k := IndexOf(s, '\n');
      if k == |s| then [s] else [StripCR(s[..k])] + Lines(s[k + 1..])
  }

  function Unlines(ls: seq<string>): string {
    if ls == [] then "" else ls[0] + "\n" + Unlines(ls[1..])
  }

  /** `lines.join("\n")` with a final newline. */
  function JoinLines(ls: seq<string>): string {
    if ls == [] then "\n" else Unlines(ls)
  }

  /** A line that survives being written and read back. */
  predicate CleanLine(l: string) {
    '\n' !in l && (|l| == 0 || l[|l| - 1] != '\r')
  }

  predicate CleanLines(ls: seq<string>) {
    forall l | l in ls :: CleanLine(l)
  }

  /** A clean line and its line feed are read as that line. */
  lemma LinesOfLine(l: string, rest: string)
    requires CleanLine(l)
    ensures Lines(l + "\n" + rest) == [l] + Lines(rest)
  {
    IndexOfPart(l, '\n', rest);
    assert l + "\n" + rest == l + ['\n'] + rest;
  }

  lemma LinesOfNext(l: string, rest: string, tail: string, lines: seq<string>)
    requires CleanLine(l) && Lines(rest + tail) == lines
    ensures Lines(l + "\n" + rest + tail) == [l] + lines
  {
    ConcatAssociates(l + "\n", rest, tail);
    LinesOfLine(l, rest + tail);
  }

  lemma {:induction false} LinesOfUnlines(ls: seq<string>, tail: string)
    requires CleanLines(ls)
    ensures Lines(Unlines(ls) + tail) == ls + Lines(tail)
  {
    if ls == [] {
      assert Unlines(ls) + tail == tail;
    } else {
      var first, others := ls[0], ls[1..];
      LinesOfUnlines(others, tail);
      LinesOfNext(first, Unlines(others), tail, others + Lines(tail));
      ConcatAssociates([first], others, Lines(tail));
      assert ls == [first] + others;
    }
  }

  lemma LinesRoundTrip(ls: seq<string>)
    requires CleanLines(ls)
    ensures Lines(Unlines(ls)) == ls
  {
    LinesOfUnlines(ls, "");
    assert Unlines(ls) + "" == Unlines(ls);
  }

  /** Written lines read back, but for one `\r` at the end of each. */
  lemma {:induction false} LinesOfAny(ls: seq<string>)
    requires forall i | 0 <= i < |ls| :: '\n' !in ls[i]
    ensures Lines(Unlines(ls)) == Stripped(ls)
  {
    if ls != [] {
      var rest := Unlines(ls[1..]);
      IndexOfPart(ls[0], '\n', rest);
      assert Unlines(ls) == ls[0] + ['\n'] + rest;
      LinesOfAny(ls[1..]);
    }
  }

  lemma UnlinesCons(l: string, ls: seq<string>)
    ensures Unlines([l] + ls) == l + "\n" + Unlines(ls)
  {
    assert ([l] + ls)[1..] == ls;
  }

  lemma {:induction false} UnlinesConcat(a: seq<string>, b: seq<string>)
    ensures Unlines(a + b) == Unlines(a) + Unlines(b)
  {
    if a == [] {
      assert a + b == b;
    } else {
      UnlinesConcat(a[1..], b);
      assert (a + b)[1..] == a[1..] + b;
    }
  }

  /** What `Lines` returns holds no line feed. */
  lemma {:induction false} LinesHoldNoLineFeed(s: string)
    ensures forall i | 0 <= i < |Lines(s)| :: '\n' !in Lines(s)[i]
    decreases |s|
  {
    if s != "" {
      var k := IndexOf(s, '\n');
      if k < |s| {
        LinesHoldNoLineFeed(s[k + 1..]);
        assert forall c | c in StripCR(s[..k]) :: c in s[..k];
      } else {
        assert s[..k] == s;
      }
    }
  }

  /** `str::split('\n')`. */
  function Split(s: string): (pieces: seq<string>)
    ensures pieces != []
    decreases |s|
  {
    var k := IndexOf(s, '\n');
    if k == |s| then [s] else [s[..k]] + Split(s[k + 1..])
  }

  /** `content.pop()`: without the final line break. */
  function Popped(text: string): string {
    if text == "" then "" else text[..|text| - 1]
  }

  /** `lines.join("\n")`. */
  function Joined(lines: seq<string>): string {
    Popped(Unlines(lines))
  }

  lemma JoinedCons(l: string, ls: seq<string>)
    ensures Joined([l] + ls) == if ls == [] then l else l + "\n" + Joined(ls)
  {
    UnlinesCons(l, ls);
    if ls == [] {
      assert l + "\n" + "" == l + "\n";
    } else {
      assert Unlines(ls) != "";
    }
  }

  /** Joined lines are taken apart at the line breaks. */
  lemma {:induction false} SplitOfJoined(lines: seq<string>)
    requires lines != [] && forall i | 0 <= i < |lines| :: '\n' !in lines[i]
    ensures Split(Joined(lines)) == lines
    decreases |lines|
  {
    var l, ls := lines[0], lines[1..];
    assert lines == [l] + ls;
    JoinedCons(l, ls);
    if ls == [] {
      IndexOfUnique(l, '\n', |l|);
    } else {
      SplitOfJoined(ls);
      IndexOfPart(l, '\n', Joined(ls));
    }
  }

  /** Joined lines end in a line break, and there is one even when there are no lines. */
  lemma JoinLinesReads(lines: seq<string>)
    requires forall i | 0 <= i < |lines| :: '\n' !in lines[i]
    ensures Split(JoinLines(lines)) == (if lines == [] then [""] else lines) + [""]
  {
    var all := (if lines == [] then [""] else lines) + [""];
    SplitOfJoined(all);
    if lines == [] {
      assert all == [""] + [""] && [""] + [] == [""];
      JoinedCons("", [""]);
      JoinedCons("", []);
    } else {
      UnlinesConcat(lines, [""]);
      UnlinesCons("", []);
      assert [""] + [] == [""] && Unlines([""]) == "\n";
      assert Joined(all) == Unlines(lines);
    }
  }

  lemma {:induction false} BlankJoined(lines: seq<string>)
    requires lines != []
    ensures Blank(Joined(lines)) <==> forall i | 0 <= i < |lines| :: Blank(lines[i])
    decreases |lines|
  {
    var l, ls := lines[0], lines[1..];
    assert lines == [l] + ls;
    JoinedCons(l, ls);
    if ls != [] {
      BlankJoined(ls);
      BlankConcat(l, Joined(ls));
      assert forall i | 1 <= i < |lines| :: lines[i] == ls[i - 1];
    }
  }

  lemma BlankConcat(a: string, b: string)
    ensures Blank(a + "\n" + b) <==> Blank(a) && Blank(b)
  {
    var s := a + "\n" + b;
    assert forall i | 0 <= i < |a| :: s[i] == a[i];
    assert s[|a|] == '\n';
    assert forall i | 0 <= i < |b| :: s[|a| + 1 + i] == b[i];
  }

  // ---------- words ----------

  predicate IsWhitespace(c: char) {
    || '\t' <= c <= '\r'
    || c == ' '
    || c in {'\U{85}', '\U{A0}', '\U{1680}', '\U{2028}', '\U{2029}', '\U{202F}', '\U{205F}', '\U{3000}'}
    || '\U{2000}' <= c <= '\U{200A}'
  }

  predicate Blank(s: string) {
    forall i | 0 <= i < |s| :: IsWhitespace(s[i])
  }

  function SkipWhitespace(s: string): (r: string)
    ensures |r| <= |s|
    ensures r == "" || !IsWhitespace(r[0])
  {
    if s != "" && IsWhitespace(s[0]) then SkipWhitespace(s[1..]) else s
  }

  function WordLength(s: string): (k: nat)
    ensures k <= |s|
    ensures forall i | 0 <= i < k :: !IsWhitespace(s[i])
    ensures k < |s| ==> IsWhitespace(s[k])
  {
    if s == "" || IsWhitespace(s[0]) then 0 else 1 + WordLength(s[1..])
  }

  /** `split_whitespace().next()`: the next word and what follows it. */
  function NextWord(s: string): Option<(string, string)> {
    var t := SkipWhitespace(s);
    if t == "" then None else Some((t[..WordLength(t)], t[WordLength(t)..]))
  }

  predicate IsWord(w: string) {
    w != "" && forall c | c in w :: !IsWhitespace(c)
  }

  lemma NextWordOf(w: string, rest: string)
    requires IsWord(w)
    requires rest == "" || IsWhitespace(rest[0])
    ensures NextWord(w + rest) == Some((w, rest))
    ensures NextWord(" " + w + rest) == Some((w, rest))
  {
    var s := w + rest;
    assert s[0] == w[0] && w[0] in w;
    assert SkipWhitespace(s) == s;
    var k := WordLength(s);
    assert forall i | 0 <= i < |w| :: s[i] == w[i] && w[i] in w;
    assert rest != "" ==> s[|w|] == rest[0];
    assert s[..k] == w && s[k..] == rest;
    assert (" " + w + rest)[1..] == s;
  }

  // ---------- decimal numbers ----------

  predicate IsDigit(c: char) { '0' <= c <= '9' }

  function DigitChar(d: nat): (c: char)
    requires d < 10
    ensures IsDigit(c) && c as int - '0' as int == d
  {
    ('0' as int + d) as char
  }

  function NatText(n: nat): (s: string)
    ensures s != "" && forall i | 0 <= i < |s| :: IsDigit(s[i])
  {
    if n < 10 then [DigitChar(n)] else NatText(n / 10) + [DigitChar(n % 10)]
  }

  function DigitsValue(s: string): nat
    requires forall i | 0 <= i < |s| :: IsDigit(s[i])
  {
    if s == "" then 0
    else
      assert IsDigit(s[|s| - 1]);
      10 * DigitsValue(s[..|s| - 1]) + (s[|s| - 1] as int - '0' as int)
  }

  /** `str::parse` into an unsigned integer: an optional `+`, then digits. */
  function ParseNat(s: string): Option<nat> {
    var digits := if s != "" && s[0] == '+' then s[1..] else s;
    if digits != "" && (forall i | 0 <= i < |digits| :: IsDigit(digits[i])) then Some(DigitsValue(digits)) else None
  }

  lemma {:induction false} DigitsValueOfNatText(n: nat)
    ensures DigitsValue(NatText(n)) == n
  {
    var s := NatText(n);
    if n < 10 {
      assert s[..|s| - 1] == "";
    } else {
      DigitsValueOfNatText(n / 10);
      assert s[..|s| - 1] == NatText(n / 10);
    }
  }

  lemma ParseNatOfNatText(n: nat)
    ensures ParseNat(NatText(n)) == Some(n)
  {
    DigitsValueOfNatText(n);
  }

  // ---------- prefixes ----------

  function StripPrefix(s: string, p: string): Option<string> {
    if p <= s then Some(s[|p|..]) else None
  }

  function StripSuffix(s: string, p: string): Option<string> {
    if |p| <= |s| && s[|s| - |p|..] == p then Some(s[..|s| - |p|]) else None
  }

  predicate EndsWith(s: string, p: string) {
    |p| <= |s| && s[|s| - |p|..] == p
  }

  // ---------- the order of strings ----------

  /** The order of strings by their characters. */
  predicate Less(a: string, b: string) {
    if b == "" then false
    else if a == "" then true
    else if a[0] == b[0] then Less(a[1..], b[1..])
    else a[0] < b[0]
  }

  /** The first place where two strings differ decides, and a start of a string is before it. */
  lemma {:induction false} LessIsLexicographic(a: string, b: string)
    ensures Less(a, b)
       <==> exists k :: 0 <= k <= |a| && k < |b| && a[..k] == b[..k] && (k == |a| || a[k] < b[k])
    decreases |a|
  {
    if a != "" && b != "" && a[0] == b[0] {
      LessIsLexicographic(a[1..], b[1..]);
      if k :| 0 <= k <= |a| && k < |b| && a[..k] == b[..k] && (k == |a| || a[k] < b[k]) {
        assert k > 0;
        DifferBehind(a, b, k - 1);
      }
      if k :| 0 <= k <= |a[1..]| && k < |b[1..]| && a[1..][..k] == b[1..][..k]
              && (k == |a[1..]| || a[1..][k] < b[1..][k]) {
        DifferBehind(a, b, k);
        var next := k + 1;
        assert a[..next] == b[..next] && (next == |a| || a[next] < b[next]);
      }
    } else if a != "" && b != "" {
      assert a[..0] == b[..0];
      forall k | 0 < k <= |a| && k < |b|
        ensures a[..k] != b[..k]
      {
        assert a[..k][0] == a[0] && b[..k][0] == b[0];
      }
    } else if b != "" {
      assert a[..0] == b[..0];
    }
  }

  lemma DifferBehind(a: string, b: string, k: nat)
    requires a != "" && b != "" && a[0] == b[0] && k < |a| && k < |b|
    ensures a[..k + 1] == b[..k + 1] <==> a[1..][..k] == b[1..][..k]
  {
    assert a[..k + 1] == [a[0]] + a[1..][..k] && b[..k + 1] == [b[0]] + b[1..][..k];
    assert a[..k + 1][1..] == a[1..][..k] && b[..k + 1][1..] == b[1..][..k];
  }

  lemma {:induction false} LessIsIrreflexive(a: string)
    ensures !Less(a, a)
  {
    if a != "" {
      LessIsIrreflexive(a[1..]);
    }
  }

  lemma {:induction false} LessIsTotal(a: string, b: string)
    ensures a != b ==> (Less(a, b) <==> !Less(b, a))
    decreases |a|
  {
    if a != "" && b != "" {
      LessIsTotal(a[1..], b[1..]);
      assert a[0] == b[0] && a[1..] == b[1..] ==> a == b;
    }
  }

  lemma {:induction false} LessIsTransitive(a: string, b: string, c: string)
    requires Less(a, b) && Less(b, c)
    ensures Less(a, c)
    decreases |a|
  {
    if a != "" && a[0] == b[0] == c[0] {
      LessIsTransitive(a[1..], b[1..], c[1..]);
    }
  }
}
