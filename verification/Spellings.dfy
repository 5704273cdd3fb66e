/** The spellings of a list of words that read back as that list (`canon.rs`), on ASCII names. */
module Spellings {
  import opened Text
  import opened Canon

  predicate IsAlphanumeric(c: char) { IsLower(c) || IsUpper(c) || IsDigit(c) }

  predicate Unbroken(s: string) { forall i | 0 <= i < |s| :: IsAlphanumeric(s[i]) }

  /** A token as it comes out. */
  predicate Settled(w: string) { w != "" && forall i | 0 <= i < |w| :: IsLower(w[i]) || IsDigit(w[i]) }

  /** No letter directly follows a digit: letters, if any, then digits. */
  predicate DigitsLast(w: string) { forall i | 0 < i < |w| && IsDigit(w[i - 1]) :: IsDigit(w[i]) }

  /** A letter, and letters, then digits. */
  predicate Word(w: string) { Settled(w) && IsLower(w[0]) && DigitsLast(w) }

  predicate Separator(c: char) { IsAscii(c) && !IsAlphanumeric(c) }

  // ---------- separated words ----------

  lemma {:induction false} SegmentsOfUnbroken(u: Unicode, s: string)
    requires u.AgreesWithAscii() && Unbroken(s)
    ensures Segments(u, s) == [s]
  {
    if s != "" {
      assert forall i | 0 <= i < |s[1..]| :: s[1..][i] == s[i + 1];
      SegmentsOfUnbroken(u, s[1..]);
      assert IsAscii(s[0]);
      assert s == [s[0]] + s[1..];
    }
  }

  lemma {:induction false} SegmentsOfPart(u: Unicode, part: string, c: char, rest: string)
    requires u.AgreesWithAscii() && Unbroken(part) && Separator(c)
    ensures Segments(u, part + [c] + rest) == [part] + Segments(u, rest)
    decreases |part|
  {
    var s := part + [c] + rest;
    if part == "" {
      assert s[0] == c && s[1..] == rest;
    } else {
      assert forall i | 0 <= i < |part[1..]| :: part[1..][i] == part[i + 1];
      SegmentsOfPart(u, part[1..], c, rest);
      assert s[1..] == part[1..] + [c] + rest;
      assert s[0] == part[0] && IsAscii(part[0]);
      assert part == [part[0]] + part[1..];
    }
  }

  lemma {:induction false} SegmentsOfJoin(u: Unicode, parts: seq<string>, c: char)
    requires u.AgreesWithAscii() && Separator(c) && parts != []
    requires forall i | 0 <= i < |parts| :: Unbroken(parts[i])
    ensures Segments(u, Join(parts, [c])) == parts
    decreases |parts|
  {
    if |parts| == 1 {
      assert parts == [parts[0]];
      SegmentsOfUnbroken(u, parts[0]);
    } else {
      assert parts == [parts[0]] + parts[1..];
      SegmentsOfPart(u, parts[0], c, Join(parts[1..], [c]));
      SegmentsOfJoin(u, parts[1..], c);
    }
  }

  lemma TokensOfJoin(u: Unicode, parts: seq<string>, c: char)
    requires u.AgreesWithAscii() && Separator(c)
    requires forall i | 0 <= i < |parts| :: Unbroken(parts[i])
    ensures Tokens(u, Join(parts, [c])) == TokensOfAll(u, parts)
  {
    if parts == [] {
      assert Segments(u, "")[1..] == [];
    } else {
      SegmentsOfJoin(u, parts, c);
    }
  }

  // ---------- one segment ----------

  lemma NoCut(u: Unicode, s: string, start: nat)
    requires start < |s| && forall j | start < j < |s| :: !Boundary(u, s, j)
    ensures TokensFrom(u, s, start) == [u.lowered(s[start..])]
  {
    assert s[start..|s|] == s[start..];
    assert TokensFrom(u, s, |s|) == [];
  }

  lemma SettledReads(u: Unicode, w: string)
    requires u.AgreesWithAscii() && Settled(w)
    ensures TokensFrom(u, w, 0) == [w]
  {
    assert forall j | 0 <= j < |w| :: IsAscii(w[j]) && !u.upper(w[j]);
    NoCut(u, w, 0);
    assert w[0..] == w == Lowercase(w);
  }

  /** Inside an upper-case word a token starts at a letter behind a digit. */
  lemma UpperBoundary(u: Unicode, w: string, i: nat)
    requires u.AgreesWithAscii() && Settled(w) && 0 < i < |w|
    ensures Boundary(u, Uppercase(w), i) <==> IsDigit(w[i - 1]) && !IsDigit(w[i])
  {
    var s := Uppercase(w);
    assert IsAscii(s[i]) && IsAscii(s[i - 1]) && (i + 1 < |s| ==> IsAscii(s[i + 1]));
    assert IsDigit(s[i]) == IsDigit(w[i]) && IsDigit(s[i - 1]) == IsDigit(w[i - 1]);
  }

  lemma UpperIsUnbroken(w: string)
    requires Settled(w)
    ensures Unbroken(Uppercase(w))
  {}

  lemma UpperReads(u: Unicode, w: string)
    requires u.AgreesWithAscii() && Settled(w) && DigitsLast(w)
    ensures TokensFrom(u, Uppercase(w), 0) == [w]
  {
    var s := Uppercase(w);
    forall i | 0 < i < |s|
      ensures !Boundary(u, s, i)
    {
      UpperBoundary(u, w, i);
    }
    NoCut(u, s, 0);
    UpperIsUnbroken(w);
    LoweredPart(u, s, |s|);
    assert s[0..] == s == s[0..|s|] && Lowercase(s) == w;
  }

  lemma UpperSplits(u: Unicode, w: string, i: nat)
    requires u.AgreesWithAscii() && Settled(w) && 0 < i < |w| && IsDigit(w[i - 1]) && !IsDigit(w[i])
    ensures |TokensFrom(u, Uppercase(w), 0)| >= 2
  {
    var s := Uppercase(w);
    UpperBoundary(u, w, i);
    assert NextCut(u, s, 1) <= i;
  }

  /** Lowercase words under any one separator read back as they are. */
  lemma SeparatedReads(u: Unicode, words: seq<string>, c: char)
    requires u.AgreesWithAscii() && Separator(c)
    requires forall i | 0 <= i < |words| :: Settled(words[i])
    ensures Tokens(u, Join(words, [c])) == words
  {
    TokensOfJoin(u, words, c);
    SettledTokens(u, words);
  }

  lemma {:induction false} SettledTokens(u: Unicode, words: seq<string>)
    requires u.AgreesWithAscii() && forall i | 0 <= i < |words| :: Settled(words[i])
    ensures TokensOfAll(u, words) == words
    decreases |words|
  {
    if words != [] {
      SettledReads(u, words[0]);
      SettledTokens(u, words[1..]);
    }
  }

  function Uppers(words: seq<string>): (r: seq<string>)
    ensures |r| == |words| && forall i | 0 <= i < |words| :: r[i] == Uppercase(words[i])
  {
    seq(|words|, i requires 0 <= i < |words| => Uppercase(words[i]))
  }

  lemma UppersTail(words: seq<string>)
    requires words != []
    ensures Uppers(words)[0] == Uppercase(words[0]) && Uppers(words)[1..] == Uppers(words[1..])
    ensures words == [words[0]] + words[1..]
  {}

  lemma {:induction false} UpperTokens(u: Unicode, words: seq<string>)
    requires u.AgreesWithAscii() && forall i | 0 <= i < |words| :: Settled(words[i])
    ensures |TokensOfAll(u, Uppers(words))| >= |words|
    ensures (forall i | 0 <= i < |words| :: DigitsLast(words[i])) ==> TokensOfAll(u, Uppers(words)) == words
    ensures (exists i :: 0 <= i < |words| && !DigitsLast(words[i])) ==> |TokensOfAll(u, Uppers(words))| > |words|
    decreases |words|
  {
    if words != [] {
      if DigitsLast(words[0]) {
        UpperReads(u, words[0]);
      } else {
        var i :| 0 < i < |words[0]| && IsDigit(words[0][i - 1]) && !IsDigit(words[0][i]);
        UpperSplits(u, words[0], i);
      }
      UpperTokens(u, words[1..]);
      UppersTail(words);
      assert forall i | 0 <= i < |words| - 1 :: words[1..][i] == words[i + 1];
      if i :| 0 <= i < |words| && !DigitsLast(words[i]) {
        assert i > 0 ==> words[1..][i - 1] == words[i];
      }
    }
  }

  /** Upper-case words under any one separator read back exactly when no letter directly follows a
      digit in any of them. */
  lemma UpperSeparatedTokens(u: Unicode, words: seq<string>, c: char)
    requires u.AgreesWithAscii() && Separator(c)
    requires forall i | 0 <= i < |words| :: Settled(words[i])
    ensures Tokens(u, Join(Uppers(words), [c])) == words <==> forall i | 0 <= i < |words| :: DigitsLast(words[i])
  {
    forall i | 0 <= i < |words|
      ensures Unbroken(Uppers(words)[i])
    {
      UpperIsUnbroken(words[i]);
    }
    TokensOfJoin(u, Uppers(words), c);
    UpperTokens(u, words);
  }

  // ---------- words run together ----------

  function Capital(w: string): (r: string)
    ensures |r| == |w| && forall i | 0 <= i < |w| :: r[i] == if i == 0 then UpperChar(w[0]) else w[i]
  {
    if w == "" then "" else [UpperChar(w[0])] + w[1..]
  }

  function Pascal(words: seq<string>): string {
    if words == [] then "" else Capital(words[0]) + Pascal(words[1..])
  }

  function Camel(words: seq<string>): string {
    if words == [] then "" else words[0] + Pascal(words[1..])
  }

  predicate Capitalises(w: string) { Settled(w) && IsLower(w[0]) }

  /** A one-letter word runs into the next unless that goes on in a letter. */
  predicate Splits(w: string, v: string) { |w| >= 2 || (|v| >= 2 && IsLower(v[1])) }

  predicate Apart(words: seq<string>) { forall i | 0 < i < |words| :: Splits(words[i - 1], words[i]) }

  lemma {:induction false} NextCutShift(u: Unicode, p: string, s: string, i: nat)
    requires 0 < i <= |s|
    ensures NextCut(u, p + s, |p| + i) == |p| + NextCut(u, s, i)
    decreases |s| - i
  {
    if i < |s| {
      assert Boundary(u, p + s, |p| + i) == Boundary(u, s, i);
      NextCutShift(u, p, s, i + 1);
    }
  }

  lemma CutShift(u: Unicode, p: string, s: string, q: string, i: nat, m: nat)
    requires q == p + s && 0 < i <= |s| && m == |p| + i
    ensures NextCut(u, q, m) == |p| + NextCut(u, s, i)
  {
    NextCutShift(u, p, s, i);
  }

  lemma SliceShift(p: string, s: string, q: string, i: nat, k: nat, m: nat, l: nat)
    requires q == p + s && i <= k <= |s| && m == |p| + i && l == |p| + k
    ensures q[m..l] == s[i..k]
  {}

  lemma TokenShift(u: Unicode, p: string, s: string, q: string, i: nat, k: nat, m: nat, l: nat)
    requires q == p + s && i < |s| && k == NextCut(u, s, i + 1) && m == |p| + i && l == |p| + k
    requires TokensFrom(u, q, l) == TokensFrom(u, s, k)
    ensures TokensFrom(u, q, m) == TokensFrom(u, s, i)
  {
    CutShift(u, p, s, q, i + 1, m + 1);
    SliceShift(p, s, q, i, k, m, l);
    SameToken(u, q, m, l, s, i, k);
  }

  lemma {:induction false} TokensShift(u: Unicode, p: string, s: string, q: string, i: nat, m: nat)
    requires q == p + s && i <= |s| && m == |p| + i
    ensures TokensFrom(u, q, m) == TokensFrom(u, s, i)
    decreases |s| - i
  {
    if i < |s| {
      var k := NextCut(u, s, i + 1);
      TokensShift(u, p, s, q, k, |p| + k);
      TokenShift(u, p, s, q, i, k, m, |p| + k);
    }
  }

  lemma SameToken(u: Unicode, q: string, m: nat, l: nat, s: string, i: nat, k: nat)
    requires m < |q| && l == NextCut(u, q, m + 1) && i < |s| && k == NextCut(u, s, i + 1)
    requires q[m..l] == s[i..k] && TokensFrom(u, q, l) == TokensFrom(u, s, k)
    ensures TokensFrom(u, q, m) == TokensFrom(u, s, i)
  {
    TokensCut(u, q, m, l);
    TokensCut(u, s, i, k);
  }

  lemma {:induction false} PascalIsUnbroken(words: seq<string>)
    requires forall i | 0 <= i < |words| :: Capitalises(words[i])
    ensures Unbroken(Pascal(words))
    ensures words != [] && words[0] != "" ==> Pascal(words) != "" && Pascal(words)[0] == UpperChar(words[0][0])
    decreases |words|
  {
    if words != [] {
      assert Capitalises(words[0]);
      PascalIsUnbroken(words[1..]);
    }
  }

  /** Nothing inside the first word starts a token. */
  lemma FirstWordHolds(u: Unicode, first: string, rest: string, j: nat)
    requires u.AgreesWithAscii() && Unbroken(rest)
    requires first != "" && Unbroken(first) && forall i | 1 <= i < |first| :: !IsUpper(first[i])
    requires 0 < j < |first|
    ensures !Boundary(u, first + rest, j)
  {
    assert (first + rest)[j] == first[j] && IsAscii(first[j]);
  }

  lemma LoweredPart(u: Unicode, s: string, k: nat)
    requires u.AgreesWithAscii() && Unbroken(s) && k <= |s|
    ensures u.lowered(s[0..k]) == Lowercase(s[0..k])
  {
    assert AsciiOnly(s[0..k]);
  }

  lemma FirstToken(u: Unicode, s: string)
    requires u.AgreesWithAscii() && Unbroken(s) && s != ""
    ensures TokensFrom(u, s, 0) == [Lowercase(s[0..NextCut(u, s, 1)])] + TokensFrom(u, s, NextCut(u, s, 1))
  {
    LoweredPart(u, s, NextCut(u, s, 1));
  }

  lemma FirstCut(u: Unicode, first: string, rest: string)
    requires u.AgreesWithAscii() && Unbroken(rest) && rest != ""
    requires first != "" && Unbroken(first) && forall i | 1 <= i < |first| :: !IsUpper(first[i])
    ensures var k := NextCut(u, first + rest, 1);
            k >= |first| && (k == |first| <==> Boundary(u, first + rest, |first|))
  {
    var s := first + rest;
    forall j | 0 < j < |first|
      ensures !Boundary(u, s, j)
    {
      FirstWordHolds(u, first, rest, j);
    }
  }

  /** The first token is the first word when another starts after it, and longer when none does. */
  lemma TakeFirst(u: Unicode, first: string, rest: string)
    requires u.AgreesWithAscii() && Unbroken(rest) && rest != ""
    requires first != "" && Unbroken(first) && forall i | 1 <= i < |first| :: !IsUpper(first[i])
    ensures Boundary(u, first + rest, |first|) ==>
              TokensFrom(u, first + rest, 0) == [Lowercase(first)] + TokensFrom(u, rest, 0)
    ensures !Boundary(u, first + rest, |first|) ==>
              var t := TokensFrom(u, first + rest, 0); t != [] && |t[0]| > |first|
  {
    var s := first + rest;
    FirstCut(u, first, rest);
    FirstToken(u, s);
    if Boundary(u, s, |first|) {
      assert s[0..|first|] == first;
      TokensShift(u, first, rest, s, 0, |first|);
    }
  }

  lemma PascalStep(u: Unicode, words: seq<string>)
    requires u.AgreesWithAscii() && |words| >= 2
    requires forall i | 0 <= i < |words| :: Capitalises(words[i])
    ensures Splits(words[0], words[1]) ==>
              TokensFrom(u, Pascal(words), 0) == [words[0]] + TokensFrom(u, Pascal(words[1..]), 0)
    ensures !Splits(words[0], words[1]) ==> TokensFrom(u, Pascal(words), 0) != words
  {
    var first, rest := Capital(words[0]), Pascal(words[1..]);
    assert Capitalises(words[0]) && Capitalises(words[1]) && words[1..][0] == words[1];
    PascalIsUnbroken(words[1..]);
    TakeFirst(u, first, rest);
    PascalJoint(u, words);
    LowerOfCapital(words[0]);
  }

  lemma LowerOfCapital(w: string)
    requires Capitalises(w)
    ensures Lowercase(Capital(w)) == w && |Capital(w)| == |w|
    ensures Unbroken(Capital(w)) && forall i | 1 <= i < |w| :: !IsUpper(Capital(w)[i])
  {}

  lemma {:induction false} PascalReads(u: Unicode, words: seq<string>)
    requires u.AgreesWithAscii() && forall i | 0 <= i < |words| :: Capitalises(words[i])
    ensures TokensFrom(u, Pascal(words), 0) == words <==> Apart(words)
    decreases |words|
  {
    if |words| == 1 {
      OneCapital(u, words[0]);
      assert Pascal(words) == Capital(words[0]) + "" == Capital(words[0]);
    } else if |words| >= 2 {
      PascalStep(u, words);
      PascalReads(u, words[1..]);
      ApartFromFront(words);
      if Splits(words[0], words[1]) {
        SameHead(TokensFrom(u, Pascal(words), 0), words, TokensFrom(u, Pascal(words[1..]), 0));
      }
    }
  }

  lemma ApartFromFront(words: seq<string>)
    requires |words| >= 2
    ensures Apart(words) <==> Splits(words[0], words[1]) && Apart(words[1..])
  {
    var tail := words[1..];
    assert forall i | 0 < i < |tail| :: tail[i - 1] == words[i] && tail[i] == words[i + 1];
    if Splits(words[0], words[1]) && Apart(tail) {
      forall i | 0 < i < |words|
        ensures Splits(words[i - 1], words[i])
      {
        if i > 1 {
          assert Splits(tail[i - 2], tail[i - 1]);
        }
      }
    }
    if Apart(words) {
      assert Splits(words[0], words[1]);
      forall i | 0 < i < |tail|
        ensures Splits(tail[i - 1], tail[i])
      {
        var next := i + 1;
        assert Splits(words[next - 1], words[next]);
      }
    }
  }

  lemma OneCapital(u: Unicode, w: string)
    requires u.AgreesWithAscii() && Capitalises(w)
    ensures TokensFrom(u, Capital(w), 0) == [w]
  {
    var s := Capital(w);
    assert forall j | 0 < j < |s| :: IsAscii(s[j]) && !u.upper(s[j]);
    NoCut(u, s, 0);
    assert s[0..] == s && Lowercase(s) == w;
  }

  /** Where the first word meets the second. */
  lemma PascalJoint(u: Unicode, words: seq<string>)
    requires u.AgreesWithAscii() && |words| >= 2 && forall i | 0 <= i < |words| :: Capitalises(words[i])
    ensures Pascal(words) == Capital(words[0]) + Pascal(words[1..])
    ensures 0 < |words[0]| < |Pascal(words)|
    ensures Boundary(u, Pascal(words), |words[0]|) <==> Splits(words[0], words[1])
  {
    assert Capitalises(words[0]) && Capitalises(words[1]);
    PascalIsUnbroken(words);
    PascalTail(words[2..]);
    PascalParts(words);
    JointIs(u, words[0], words[1], Pascal(words[2..]), Pascal(words));
  }

  lemma PascalParts(words: seq<string>)
    requires |words| >= 2
    ensures Pascal(words) == Capital(words[0]) + (Capital(words[1]) + Pascal(words[2..]))
  {
    assert words[1..][1..] == words[2..] && words[1..][0] == words[1];
    assert Pascal(words[1..]) == Capital(words[1]) + Pascal(words[2..]);
  }

  lemma PascalTail(words: seq<string>)
    requires forall i | 0 <= i < |words| :: Capitalises(words[i])
    ensures Pascal(words) != "" ==> IsUpper(Pascal(words)[0])
  {
    if words != [] {
      assert Capitalises(words[0]);
      PascalIsUnbroken(words);
    }
  }

  lemma JointIs(u: Unicode, w: string, v: string, rest: string, s: string)
    requires u.AgreesWithAscii() && Capitalises(w) && Capitalises(v) && Unbroken(s)
    requires s == Capital(w) + (Capital(v) + rest) && (rest != "" ==> IsUpper(rest[0]))
    ensures Boundary(u, s, |w|) <==> Splits(w, v)
  {
    var n := |w|;
    assert s[n] == UpperChar(v[0]) && s[n - 1] == Capital(w)[n - 1];
    BoundaryAt(u, s, n);
    if n + 1 < |s| {
      assert |v| >= 2 ==> s[n + 1] == v[1];
      assert |v| == 1 ==> s[n + 1] == rest[0];
    }
  }

  lemma BoundaryAt(u: Unicode, s: string, n: nat)
    requires u.AgreesWithAscii() && Unbroken(s) && 0 < n < |s| && IsUpper(s[n])
    ensures Boundary(u, s, n)
       <==> IsLower(s[n - 1]) || IsDigit(s[n - 1]) || (IsUpper(s[n - 1]) && n + 1 < |s| && IsLower(s[n + 1]))
  {
    assert IsAscii(s[n - 1]) && IsAscii(s[n]);
    assert n + 1 < |s| ==> IsAscii(s[n + 1]);
  }

  lemma CamelReads(u: Unicode, words: seq<string>)
    requires u.AgreesWithAscii() && forall i | 0 <= i < |words| :: Capitalises(words[i])
    ensures TokensFrom(u, Camel(words), 0) == words <==> (words == [] || Apart(words[1..]))
  {
    if |words| == 1 {
      SettledReads(u, words[0]);
      assert Camel(words) == words[0] + "" == words[0];
    } else if |words| >= 2 {
      CamelStep(u, words);
      PascalReads(u, words[1..]);
      SameHead(TokensFrom(u, Camel(words), 0), words, TokensFrom(u, Pascal(words[1..]), 0));
    }
  }

  lemma CamelStep(u: Unicode, words: seq<string>)
    requires u.AgreesWithAscii() && |words| >= 2
    requires forall i | 0 <= i < |words| :: Capitalises(words[i])
    ensures TokensFrom(u, Camel(words), 0) == [words[0]] + TokensFrom(u, Pascal(words[1..]), 0)
  {
    var first, rest := words[0], Pascal(words[1..]);
    assert Capitalises(first) && Capitalises(words[1]) && words[1..][0] == words[1];
    PascalIsUnbroken(words[1..]);
    TakeFirst(u, first, rest);
    CamelJoint(u, first, rest);
    assert Lowercase(first) == first;
  }

  lemma CamelJoint(u: Unicode, first: string, rest: string)
    requires u.AgreesWithAscii() && Settled(first) && rest != "" && IsUpper(rest[0])
    ensures Boundary(u, first + rest, |first|)
  {
    var s := first + rest;
    assert s[|first|] == rest[0] && s[|first| - 1] == first[|first| - 1];
    assert IsAscii(s[|first|]) && IsAscii(s[|first| - 1]);
  }

  lemma TokensOfUnbroken(u: Unicode, s: string)
    requires u.AgreesWithAscii() && Unbroken(s)
    ensures Tokens(u, s) == TokensFrom(u, s, 0)
  {
    SegmentsOfUnbroken(u, s);
    assert [s][1..] == [] && TokensOfAll(u, []) == [];
  }

  /** Words run together with capitals read back exactly when no one-letter word runs into the
      next. */
  lemma PascalTokens(u: Unicode, words: seq<string>)
    requires u.AgreesWithAscii() && forall i | 0 <= i < |words| :: Capitalises(words[i])
    ensures Tokens(u, Pascal(words)) == words <==> Apart(words)
  {
    PascalIsUnbroken(words);
    PascalReads(u, words);
    TokensOfUnbroken(u, Pascal(words));
  }

  /** In camel case the first word cannot run into the second. */
  lemma CamelTokens(u: Unicode, words: seq<string>)
    requires u.AgreesWithAscii() && forall i | 0 <= i < |words| :: Capitalises(words[i])
    ensures Tokens(u, Camel(words)) == words <==> (words == [] || Apart(words[1..]))
  {
    CamelReads(u, words);
    if words != [] {
      assert Capitalises(words[0]);
      PascalIsUnbroken(words[1..]);
    }
    TokensOfUnbroken(u, Camel(words));
  }

  /** Two lists of words that do not read back: one-letter words run together. */
  lemma OneLetterWordsRunTogether(u: Unicode)
    requires u.AgreesWithAscii()
    ensures Pascal(["a", "b"]) == "AB" && Tokens(u, "AB") == ["ab"]
    ensures Camel(["x", "a", "b"]) == "xAB" && Tokens(u, "xAB") == ["x", "ab"]
  {
    CapitalsOfLetters();
    JoinedCapitals(u);
    TokensOfUnbroken(u, "AB");
    assert "x" + "AB" == "xAB" && Lowercase("x") == "x";
    TokensOfUnbroken(u, "xAB");
    CamelJoint(u, "x", "AB");
    TakeFirst(u, "x", "AB");
  }

  /** An upper-case word that reads back as two: a letter follows a digit in it. */
  lemma LetterAfterDigitSplits(u: Unicode)
    requires u.AgreesWithAscii()
    ensures Uppercase("a1b") == "A1B" && Tokens(u, "A1B") == ["a1", "b"]
  {
    assert "A1" + "B" == "A1B";
    BoundaryAt(u, "A1B", 2);
    TakeFirst(u, "A1", "B");
    LastLetterReads(u);
    assert Lowercase("A1") == "a1";
    TokensOfUnbroken(u, "A1B");
    assert ["a1"] + ["b"] == ["a1", "b"];
  }

  lemma LastLetterReads(u: Unicode)
    requires u.AgreesWithAscii()
    ensures TokensFrom(u, "B", 0) == ["b"]
  {
    NoCut(u, "B", 0);
    LoweredPart(u, "B", 1);
    assert "B"[0..] == "B" == "B"[0..1] && Lowercase("B") == "b";
  }

  lemma CapitalsOfLetters()
    ensures Pascal(["a", "b"]) == "AB" && Camel(["x", "a", "b"]) == "xAB"
  {
    assert ["a", "b"][1..] == ["b"] && ["b"][1..] == [] && ["x", "a", "b"][1..] == ["a", "b"];
    assert Capital("a") == "A" && Capital("b") == "B";
    assert Pascal(["b"]) == "B" + "" && Pascal(["a", "b"]) == "A" + "B";
  }

  lemma JoinedCapitals(u: Unicode)
    requires u.AgreesWithAscii()
    ensures TokensFrom(u, "AB", 0) == ["ab"]
  {
    BoundaryAt(u, "AB", 1);
    NoCut(u, "AB", 0);
    assert "AB"[0..] == "AB" && Lowercase("AB") == "ab" && AsciiOnly("AB");
  }

  /** Every spelling of a list of words is one key, as long as each word is letters, then digits,
      and two characters long. */
  lemma OneKey(u: Unicode, words: seq<string>, c: char)
    requires u.AgreesWithAscii() && Separator(c)
    requires forall i | 0 <= i < |words| :: Word(words[i]) && |words[i]| >= 2
    ensures var key := Join(words, "_");
            && CanonKey(u, Join(words, [c])) == key
            && CanonKey(u, Join(Uppers(words), [c])) == key
            && CanonKey(u, Pascal(words)) == key
            && CanonKey(u, Camel(words)) == key
  {
    SeparatedReads(u, words, c);
    UpperSeparatedTokens(u, words, c);
    PascalTokens(u, words);
    CamelTokens(u, words);
  }

  // ---------- keys ----------

  lemma {:induction false} TokensFromSettle(u: Unicode, s: string, start: nat)
    requires u.AgreesWithAscii() && start <= |s| && Unbroken(s)
    ensures forall t | t in TokensFrom(u, s, start) :: Settled(t)
    decreases |s| - start
  {
    if start < |s| {
      var k := NextCut(u, s, start + 1);
      assert forall i | 0 <= i < |s[start..k]| :: s[start..k][i] == s[start + i];
      assert AsciiOnly(s[start..k]);
      TokensFromSettle(u, s, k);
    }
  }

  /** What ASCII names are cut into is unbroken. */
  lemma {:induction false} SegmentsAreUnbroken(u: Unicode, s: string)
    requires u.AgreesWithAscii() && AsciiOnly(s)
    ensures forall p | p in Segments(u, s) :: Unbroken(p)
  {
    if s != "" {
      assert s[0] in s && forall c | c in s[1..] :: c in s;
      SegmentsAreUnbroken(u, s[1..]);
      var rest := Segments(u, s[1..]);
      assert rest[0] in rest && IsAscii(s[0]);
      assert u.alphanumeric(s[0]) ==> Unbroken([s[0]] + rest[0]);
    }
  }

  lemma {:induction false} AllTokensSettle(u: Unicode, parts: seq<string>)
    requires u.AgreesWithAscii() && forall p | p in parts :: Unbroken(p)
    ensures forall t | t in TokensOfAll(u, parts) :: Settled(t)
    decreases |parts|
  {
    if parts != [] {
      TokensFromSettle(u, parts[0], 0);
      AllTokensSettle(u, parts[1..]);
    }
  }

  /** The key of an ASCII name spells the name's tokens. */
  lemma KeyKeepsTokens(u: Unicode, name: string)
    requires u.AgreesWithAscii() && AsciiOnly(name)
    ensures Tokens(u, CanonKey(u, name)) == Tokens(u, name)
  {
    SegmentsAreUnbroken(u, name);
    AllTokensSettle(u, Segments(u, name));
    SeparatedReads(u, Tokens(u, name), '_');
  }

  lemma KeyIsIdempotent(u: Unicode, name: string)
    requires u.AgreesWithAscii() && AsciiOnly(name)
    ensures CanonKey(u, CanonKey(u, name)) == CanonKey(u, name)
  {
    KeyKeepsTokens(u, name);
  }

  /** Two ASCII names share a key only by having the same tokens. */
  lemma SameKeySameTokens(u: Unicode, a: string, b: string)
    requires u.AgreesWithAscii() && AsciiOnly(a) && AsciiOnly(b)
    ensures CanonKey(u, a) == CanonKey(u, b) <==> Tokens(u, a) == Tokens(u, b)
  {
    KeyKeepsTokens(u, a);
    KeyKeepsTokens(u, b);
  }
}
