/** One canonical spelling for names that cross languages (`canon.rs`). */
module Canon {
  import opened Text

  /** How characters are classed and strings lowercased outside ASCII. */
  datatype Unicode = Unicode(
    alphanumeric: char -> bool, upper: char -> bool, lower: char -> bool, lowered: string -> string)
  {
    ghost predicate AgreesWithAscii() {
      && (forall c | IsAscii(c) ::
            && alphanumeric(c) == (IsLower(c) || IsUpper(c) || IsDigit(c))
            && upper(c) == IsUpper(c)
            && lower(c) == IsLower(c))
      && forall s | AsciiOnly(s) :: lowered(s) == Lowercase(s)
    }
  }

  predicate IsAscii(c: char) { c < 128 as char }
  predicate IsLower(c: char) { 'a' <= c <= 'z' }
  predicate IsUpper(c: char) { 'A' <= c <= 'Z' }
  predicate AsciiOnly(s: string) { forall c | c in s :: IsAscii(c) }

  function LowerChar(c: char): char { if IsUpper(c) then c - 'A' + 'a' else c }
  function UpperChar(c: char): char { if IsLower(c) then c - 'a' + 'A' else c }

  function Lowercase(s: string): (r: string)
    ensures |r| == |s| && forall i | 0 <= i < |s| :: r[i] == LowerChar(s[i])
  {
    seq(|s|, i requires 0 <= i < |s| => LowerChar(s[i]))
  }

  function Uppercase(s: string): (r: string)
    ensures |r| == |s| && forall i | 0 <= i < |s| :: r[i] == UpperChar(s[i])
  {
    seq(|s|, i requires 0 <= i < |s| => UpperChar(s[i]))
  }

  // ---------- tokens ----------

  /** The stretches between the characters that are not alphanumeric, empty ones included. */
  function Segments(u: Unicode, s: string): (r: seq<string>)
    ensures r != []
  {
    if s == "" then [""]
    else
      var rest := Segments(u, s[1..]);
      if u.alphanumeric(s[0]) then [[s[0]] + rest[0]] + rest[1..] else [""] + rest
  }

  /** A word starts at `i`: after a lowercase letter or a digit, or as the last capital of an
      acronym followed by a lowercase letter. */
  predicate Boundary(u: Unicode, s: string, i: nat)
    requires 0 < i < |s|
  {
    && u.upper(s[i])
    && (u.lower(s[i - 1]) || IsDigit(s[i - 1]) || (u.upper(s[i - 1]) && i + 1 < |s| && u.lower(s[i + 1])))
  }

  function NextCut(u: Unicode, s: string, i: nat): (k: nat)
    requires 0 < i <= |s|
    ensures i <= k <= |s|
    ensures k < |s| ==> Boundary(u, s, k)
    ensures forall j | i <= j < k :: !Boundary(u, s, j)
    decreases |s| - i
  {
    if i == |s| || Boundary(u, s, i) then i else NextCut(u, s, i + 1)
  }

  function TokensFrom(u: Unicode, s: string, start: nat): seq<string>
    requires start <= |s|
    decreases |s| - start
  {
    if start == |s| then []
    else
      var k := NextCut(u, s, start + 1);
      [u.lowered(s[start..k])] + TokensFrom(u, s, k)
  }

  lemma TokensCut(u: Unicode, s: string, start: nat, k: nat)
    requires start < |s| && k == NextCut(u, s, start + 1)
    ensures TokensFrom(u, s, start) == [u.lowered(s[start..k])] + TokensFrom(u, s, k)
  {
  }

  function TokensOfAll(u: Unicode, segments: seq<string>): seq<string> {
    if segments == [] then [] else TokensFrom(u, segments[0], 0) + TokensOfAll(u, segments[1..])
  }

  function Tokens(u: Unicode, name: string): seq<string> { TokensOfAll(u, Segments(u, name)) }

  lemma {:induction false} TokensOfAllConcat(u: Unicode, a: seq<string>, b: seq<string>)
    ensures TokensOfAll(u, a + b) == TokensOfAll(u, a) + TokensOfAll(u, b)
    decreases |a|
  {
    if a == [] {
      assert a + b == b;
    } else {
      assert (a + b)[1..] == a[1..] + b;
      TokensOfAllConcat(u, a[1..], b);
    }
  }

  /** The tokens of one segment, pushed after `tokens`. */
  method PushTokens(u: Unicode, tokens: seq<string>, segment: string) returns (r: seq<string>)
    ensures r == tokens + TokensFrom(u, segment, 0)
  {
    r := tokens;
    var start := 0;
    if segment != "" {
      for i := 1 to |segment|
        invariant start < i
        invariant r + TokensFrom(u, segment, start) == tokens + TokensFrom(u, segment, 0)
        invariant NextCut(u, segment, start + 1) == NextCut(u, segment, i)
      {
        if Boundary(u, segment, i) {
          TokensCut(u, segment, start, i);
          ConcatAssociates(r, [u.lowered(segment[start..i])], TokensFrom(u, segment, i));
          r := r + [u.lowered(segment[start..i])];
          start := i;
        }
      }
    }
    if start < |segment| {
      assert segment[start..] == segment[start..|segment|];
      assert TokensFrom(u, segment, start) == [u.lowered(segment[start..])] + [];
      r := r + [u.lowered(segment[start..])];
    }
  }

  method CanonTokens(u: Unicode, name: string) returns (tokens: seq<string>)
    ensures tokens == Tokens(u, name)
  {
    tokens := [];
    var segments := Segments(u, name);
    for k := 0 to |segments|
      invariant tokens == TokensOfAll(u, segments[..k])
    {
      tokens := PushTokens(u, tokens, segments[k]);
      assert segments[..k + 1] == segments[..k] + [segments[k]];
      TokensOfAllConcat(u, segments[..k], [segments[k]]);
    }
    assert segments[..|segments|] == segments;
  }

  function Join(words: seq<string>, separator: string): string {
    if words == [] then ""
    else if |words| == 1 then words[0]
    else words[0] + separator + Join(words[1..], separator)
  }

  function CanonKey(u: Unicode, name: string): string { Join(Tokens(u, name), "_") }

  // ---------- the cache ----------

  class KeyCache {
    var keys: map<string, string>

    ghost predicate Valid(u: Unicode)
      reads this
    {
      forall s | s in keys :: keys[s] == CanonKey(u, s)
    }

    constructor (ghost u: Unicode)
      ensures Valid(u) && keys == map[]
    {
      keys := map[];
    }

    /** Always the canonical key, whatever was asked before. */
    method Key(u: Unicode, segment: string) returns (key: string)
      requires Valid(u)
      modifies this
      ensures Valid(u) && key == CanonKey(u, segment)
      ensures keys == old(keys)[segment := key]
    {
      if segment !in keys {
        var tokens := CanonTokens(u, segment);
        keys := keys[segment := Join(tokens, "_")];
      }
      key := keys[segment];
    }
  }
}
