/** Ranking documents against the words of a diff, by an inverted index (`discovery.rs`). */
module Discovery {
  import opened Totals
  import opened Ranking

  const K1 := 2.5
  const B := 0.75
  const IDF_SMOOTHING := 0.5

  /** What the tokenized corpus keeps of a file. */
  datatype Doc = Doc(path: string, termCounts: map<string, nat>, totalLen: nat)

  /** `log1p` is the logarithm of 1 plus its argument. */
  datatype Search = Search(docs: seq<Doc>, query: set<string>, log1p: real -> real)
  {
    ghost function Holders(n: nat, t: string): set<nat>
      requires n <= |docs|
    {
      set i: nat | i < n && t in docs[i].termCounts
    }

    /** What a term is worth that `holders` of the documents hold. */
    function Worth(holders: nat): real { log1p(Rarity(|docs|, holders)) }

    ghost function Idf(t: string): real { Worth(|Holders(|docs|, t)|) }

    ghost function TotalLen(n: nat): nat
      requires n <= |docs|
    {
      if n == 0 then 0 else TotalLen(n - 1) + docs[n - 1].totalLen
    }

    ghost function AverageLen(): real
      requires docs != []
    {
      TotalLen(|docs|) as real / |docs| as real
    }

    ghost function TermScores(i: nat): string -> real
      requires i < |docs|
    {
      t => TermScore(docs[i], t, Idf(t), AverageLen())
    }

    /** The score of document `i`, computed from the document alone. */
    ghost function Score(i: nat): real
      requires i < |docs|
    {
      SumBy(query, TermScores(i))
    }

    ghost function Scores(): nat -> real { (i: nat) => if i < |docs| then Score(i) else 0.0 }

    ghost function Positives(): set<nat> { set i: nat | i < |docs| && Score(i) > 0.0 }
  }

  /** The documents without a term for each document with it, smoothed. */
  function Rarity(n: nat, holders: nat): real {
    (n as real - holders as real + IDF_SMOOTHING) / (holders as real + IDF_SMOOTHING)
  }

  function Frequency(doc: Doc, t: string): nat { if t in doc.termCounts then doc.termCounts[t] else 0 }

  /** The share of one term. With no tokens in the corpus the length ratio is not a number, and
      neither is the score: it passes no test for being positive, and stands here as 0. */
  function TermScore(doc: Doc, t: string, worth: real, averageLen: real): real {
    var freq := Frequency(doc, t) as real;
    if freq == 0.0 || averageLen <= 0.0 then 0.0
    else
      Saturation(freq, doc.totalLen as real / averageLen, worth)
  }

  function Saturation(freq: real, length: real, worth: real): (s: real)
    requires freq > 0.0 && length >= 0.0
    ensures worth > 0.0 ==> s > 0.0
  {
    var weight := freq + K1 * (1.0 - B + B * length);
    assert weight > 0.0;
    worth * (freq * K1) / weight
  }

  // ---------- the index ----------

  /** How many documents hold each term, and for the terms asked about, which. */
  datatype Index = Index(df: map<string, nat>, postings: map<string, set<nat>>) {
    function Df(t: string): nat { if t in df then df[t] else 0 }
    function Posted(t: string): set<nat> { if t in postings then postings[t] else {} }

    function Post(t: string, i: nat, wanted: bool): Index {
      Index(df[t := Df(t) + 1], if wanted then postings[t := Posted(t) + {i}] else postings)
    }
  }

  /** Documents below `i` are indexed, and document `i` under the terms of `done`. */
  ghost predicate Indexed(s: Search, x: Index, i: nat, done: set<string>)
    requires i <= |s.docs|
  {
    && (forall t :: x.Df(t) == |s.Holders(i, t)| + if t in done then 1 else 0)
    && (forall t | t in s.query :: x.Posted(t) == s.Holders(i, t) + if t in done then {i} else {})
  }

  lemma PostOne(s: Search, x: Index, i: nat, done: set<string>, t: string)
    requires i < |s.docs| && Indexed(s, x, i, done) && t !in done
    ensures Indexed(s, x.Post(t, i, t in s.query), i, done + {t})
  {
    var next := x.Post(t, i, t in s.query);
    Posts(x, t, i, t in s.query);
    forall u
      ensures next.Df(u) == |s.Holders(i, u)| + if u in done + {t} then 1 else 0
    {
    }
    forall u | u in s.query
      ensures next.Posted(u) == s.Holders(i, u) + if u in done + {t} then {i} else {}
    {
      HoldersPosted(s.Holders(i, u), i, u == t, u in done);
    }
  }

  lemma Posts(x: Index, t: string, i: nat, wanted: bool)
    ensures forall u :: x.Post(t, i, wanted).Df(u) == x.Df(u) + if u == t then 1 else 0
    ensures forall u :: x.Post(t, i, wanted).Posted(u) == x.Posted(u) + if u == t && wanted then {i} else {}
  {
    forall u
      ensures x.Post(t, i, wanted).Posted(u) == x.Posted(u) + if u == t && wanted then {i} else {}
    {
      assert x.Posted(u) + {} == x.Posted(u);
    }
  }

  lemma HoldersPosted(holders: set<nat>, i: nat, now: bool, before: bool)
    ensures holders + (if before then {i} else {}) + (if now then {i} else {})
         == holders + if before || now then {i} else {}
  {
  }

  lemma HoldersNext(s: Search, i: nat, t: string)
    requires i < |s.docs|
    ensures s.Holders(i + 1, t) == s.Holders(i, t) + if t in s.docs[i].termCounts then {i} else {}
    ensures |s.Holders(i + 1, t)| == |s.Holders(i, t)| + if t in s.docs[i].termCounts then 1 else 0
  {
    assert i !in s.Holders(i, t);
  }

  lemma NextDocument(s: Search, x: Index, i: nat)
    requires i < |s.docs| && Indexed(s, x, i, s.docs[i].termCounts.Keys)
    ensures Indexed(s, x, i + 1, {})
  {
    forall t
      ensures s.Holders(i + 1, t) == s.Holders(i, t) + if t in s.docs[i].termCounts then {i} else {}
      ensures |s.Holders(i + 1, t)| == |s.Holders(i, t)| + if t in s.docs[i].termCounts then 1 else 0
    {
      HoldersNext(s, i, t);
    }
  }

  method IndexDocument(s: Search, before: Index, i: nat) returns (x: Index)
    requires i < |s.docs| && Indexed(s, before, i, {})
    ensures Indexed(s, x, i + 1, {})
  {
    x := before;
    var todo := s.docs[i].termCounts.Keys;
    while todo != {}
      invariant todo <= s.docs[i].termCounts.Keys
      invariant Indexed(s, x, i, s.docs[i].termCounts.Keys - todo)
      decreases |todo|
    {
      var t :| t in todo;
      PostOne(s, x, i, s.docs[i].termCounts.Keys - todo, t);
      assert s.docs[i].termCounts.Keys - (todo - {t}) == s.docs[i].termCounts.Keys - todo + {t};
      x := x.Post(t, i, t in s.query);
      todo := todo - {t};
    }
    assert s.docs[i].termCounts.Keys - todo == s.docs[i].termCounts.Keys;
    NextDocument(s, x, i);
  }

  method BuildIndex(s: Search) returns (x: Index, totalLen: nat)
    ensures Indexed(s, x, |s.docs|, {}) && totalLen == s.TotalLen(|s.docs|)
  {
    x, totalLen := Index(map[], map[]), 0;
    assert forall t :: s.Holders(0, t) == {};
    for i := 0 to |s.docs|
      invariant Indexed(s, x, i, {}) && totalLen == s.TotalLen(i)
    {
      totalLen := totalLen + s.docs[i].totalLen;
      x := IndexDocument(s, x, i);
    }
  }

  /** The documents that hold some of the terms. */
  ghost function HoldersOfAny(s: Search, terms: set<string>): set<nat> {
    set i: nat | i < |s.docs| && exists t | t in terms :: t in s.docs[i].termCounts
  }

  lemma OneTermMore(s: Search, x: Index, todo: set<string>, t: string)
    requires Indexed(s, x, |s.docs|, {}) && t in todo && todo <= s.query
    ensures HoldersOfAny(s, s.query - (todo - {t})) == HoldersOfAny(s, s.query - todo) + x.Posted(t)
  {
    var (after, before) := (s.query - (todo - {t}), s.query - todo);
    assert t in after && forall u :: u in after <==> u in before || u == t;
  }

  method CandidateIds(s: Search, x: Index) returns (ids: set<nat>)
    requires Indexed(s, x, |s.docs|, {})
    ensures ids == HoldersOfAny(s, s.query)
  {
    ids := {};
    var todo := s.query;
    while todo != {}
      invariant todo <= s.query
      invariant ids == HoldersOfAny(s, s.query - todo)
      decreases |todo|
    {
      var t :| t in todo;
      OneTermMore(s, x, todo, t);
      ids := ids + x.Posted(t);
      todo := todo - {t};
    }
    assert s.query - todo == s.query;
  }

  // ---------- scores ----------

  lemma {:induction false} SumOfZeros<K(!new)>(keys: set<K>, f: K -> real)
    requires forall k | k in keys :: f(k) == 0.0
    ensures SumBy(keys, f) == 0.0
    decreases keys
  {
    if keys != {} {
      var k :| k in keys;
      SumByWithout(keys, f, k);
      SumOfZeros(keys - {k}, f);
    }
  }

  /** A document outside the posting lists scores nothing. */
  lemma OthersScoreZero(s: Search, i: nat)
    requires i < |s.docs| && i !in HoldersOfAny(s, s.query)
    ensures s.Score(i) == 0.0
  {
    SumOfZeros(s.query, s.TermScores(i));
  }

  /** What is used of the logarithm: it is that of a number above 1 for a positive argument, and
      grows with it. */
  ghost predicate IsLog1p(log1p: real -> real) {
    && (forall x | x > 0.0 :: log1p(x) > 0.0)
    && (forall x, y | -1.0 < x < y :: log1p(x) < log1p(y))
  }

  lemma HoldersAreDocs(s: Search, n: nat, t: string)
    requires n <= |s.docs|
    ensures |s.Holders(n, t)| <= n
    decreases n
  {
    if n == 0 {
      assert s.Holders(0, t) == {};
    } else {
      HoldersAreDocs(s, n - 1, t);
      HoldersNext(s, n - 1, t);
    }
  }

  lemma RarityIs(n: nat, a: nat, b: nat)
    requires a <= b <= n
    ensures Rarity(n, b) > 0.0 && Rarity(n, b) <= Rarity(n, a) && (a < b ==> Rarity(n, b) < Rarity(n, a))
  {
    var (x, y) := (Rarity(n, a), Rarity(n, b));
    var (c, d) := (a as real + IDF_SMOOTHING, b as real + IDF_SMOOTHING);
    var whole := n as real + 2.0 * IDF_SMOOTHING;
    assert x * c == whole - c && y * d == whole - d;
    SignOfFactor(y, d);
    assert (x - y) * (c * d) == (whole - c) * d - (whole - d) * c == whole * (d - c);
    SignOfFactor(x - y, c * d);
    SignOfFactor(d - c, whole);
    assert whole * (d - c) == (d - c) * whole;
  }

  /** A term that half of the documents hold is worth the logarithm of 2. */
  lemma HalfHeld(s: Search, t: string)
    requires 2 * |s.Holders(|s.docs|, t)| == |s.docs|
    ensures s.Idf(t) == s.log1p(1.0)
  {
    var d := |s.Holders(|s.docs|, t)| as real;
    assert Rarity(|s.docs|, |s.Holders(|s.docs|, t)|) == (d + IDF_SMOOTHING) / (d + IDF_SMOOTHING) == 1.0;
  }

  /** A term that every document holds is worth the least: the logarithm of 1 and one part in
      twice their number and one. */
  lemma AllHold(s: Search, t: string)
    requires |s.Holders(|s.docs|, t)| == |s.docs|
    ensures s.Idf(t) == s.log1p(1.0 / (2 * |s.docs| + 1) as real)
  {
    var n := |s.docs| as real;
    HalfOver(n);
    assert Rarity(|s.docs|, |s.docs|) == 0.5 / (n + 0.5);
  }

  lemma HalfOver(n: real)
    requires n >= 0.0
    ensures 0.5 / (n + 0.5) == 1.0 / (2.0 * n + 1.0)
  {
    var x, y := 0.5 / (n + 0.5), 1.0 / (2.0 * n + 1.0);
    assert x * (n + 0.5) == 0.5 && y * (2.0 * n + 1.0) == 1.0;
    assert (x - y) * (n + 0.5) == 0.0;
  }

  /** Every term is worth something, and more the fewer documents hold it. */
  lemma RarerIsWorthMore(s: Search, t: string, u: string)
    requires IsLog1p(s.log1p)
    ensures s.Idf(t) > 0.0
    ensures |s.Holders(|s.docs|, t)| < |s.Holders(|s.docs|, u)| ==> s.Idf(u) < s.Idf(t)
  {
    var (a, b) := (|s.Holders(|s.docs|, t)|, |s.Holders(|s.docs|, u)|);
    HoldersAreDocs(s, |s.docs|, t);
    HoldersAreDocs(s, |s.docs|, u);
    RarityIs(|s.docs|, a, a);
    if a < b {
      RarityIs(|s.docs|, a, b);
    }
  }

  /** The positive documents are those that use a term asked about. */
  lemma PositiveMeansMentions(s: Search, i: nat)
    requires IsLog1p(s.log1p)
    requires forall d, t | d in s.docs && t in d.termCounts && d.termCounts[t] > 0 :: d.totalLen > 0
    requires i < |s.docs|
    ensures s.Score(i) > 0.0 <==> exists t | t in s.query :: Frequency(s.docs[i], t) > 0
  {
    if t :| t in s.query && Frequency(s.docs[i], t) > 0 {
      LengthIsPositive(s, i);
      forall q | q in s.query
        ensures s.TermScores(i)(q) >= 0.0 && (Frequency(s.docs[i], q) > 0 ==> s.TermScores(i)(q) > 0.0)
      {
        RarerIsWorthMore(s, q, q);
      }
      SumOfPositive(s.query, s.TermScores(i), t);
    } else {
      SumOfZeros(s.query, s.TermScores(i));
    }
  }

  lemma {:induction false} TotalLenCovers(s: Search, n: nat, i: nat)
    requires i < n <= |s.docs|
    ensures s.TotalLen(n) >= s.docs[i].totalLen
    decreases n
  {
    if i < n - 1 {
      TotalLenCovers(s, n - 1, i);
    }
  }

  /** The average of equal lengths is that length. */
  lemma {:induction false} AverageOfEqual(s: Search, len: nat)
    requires s.docs != [] && forall i | 0 <= i < |s.docs| :: s.docs[i].totalLen == len
    ensures s.AverageLen() == len as real
  {
    TotalOfEqual(s, |s.docs|, len);
    var n := |s.docs| as real;
    assert (n * len as real) / n == len as real;
  }

  lemma {:induction false} TotalOfEqual(s: Search, n: nat, len: nat)
    requires n <= |s.docs| && forall i | 0 <= i < n :: s.docs[i].totalLen == len
    ensures s.TotalLen(n) == n * len
    decreases n
  {
    if n > 0 {
      TotalOfEqual(s, n - 1, len);
      assert n * len == (n - 1) * len + len;
    }
  }

  lemma LengthIsPositive(s: Search, i: nat)
    requires i < |s.docs| && s.docs[i].totalLen > 0
    ensures s.AverageLen() > 0.0
  {
    TotalLenCovers(s, |s.docs|, i);
  }

  lemma {:induction false} SumOfPositive<K(!new)>(keys: set<K>, f: K -> real, some: K)
    requires forall k | k in keys :: f(k) >= 0.0
    requires some in keys ==> f(some) > 0.0
    ensures SumBy(keys, f) >= 0.0 && (some in keys ==> SumBy(keys, f) > 0.0)
    decreases keys
  {
    if keys != {} {
      var k :| k in keys;
      SumByWithout(keys, f, k);
      SumOfPositive(keys - {k}, f, some);
    }
  }

  method Bm25Score(s: Search, x: Index, averageLen: real, i: nat) returns (score: real)
    requires Indexed(s, x, |s.docs|, {}) && i < |s.docs| && averageLen == s.AverageLen()
    ensures score == s.Score(i)
  {
    score := 0.0;
    var todo := s.query;
    while todo != {}
      invariant todo <= s.query
      invariant score + SumBy(todo, s.TermScores(i)) == s.Score(i)
      decreases |todo|
    {
      var t :| t in todo;
      SumByWithout(todo, s.TermScores(i), t);
      score := score + TermScore(s.docs[i], t, s.Worth(x.Df(t)), averageLen);
      todo := todo - {t};
    }
  }

  // ---------- what the score rewards ----------

  /** `f` of every `f + c`. */
  lemma PartsCompare(f: real, g: real, c: real, d: real)
    requires 0.0 < f <= g && 0.0 < d <= c
    ensures f / (f + c) <= g / (g + d) < 1.0
    ensures f < g || d < c ==> f / (f + c) < g / (g + d)
  {
    var x, y := f / (f + c), g / (g + d);
    assert x * (f + c) == f && y * (g + d) == g;
    assert (y - x) * ((f + c) * (g + d)) == g * (f + c) - f * (g + d) == g * c - f * d;
    ProductsCompare(f, g, c, d);
    SignOfFactor(y - x, (f + c) * (g + d));
    SignOfFactor(1.0 - y, g + d);
    assert (1.0 - y) * (g + d) == d;
  }

  lemma ProductsCompare(f: real, g: real, c: real, d: real)
    requires 0.0 < f <= g && 0.0 < d <= c
    ensures f * d <= g * c && (f < g || d < c ==> f * d < g * c)
  {
    assert g * c - f * d == (g - f) * c + f * (c - d);
    assert (g - f) * c >= 0.0 && f * (c - d) >= 0.0;
    assert f < g ==> (g - f) * c > 0.0;
    assert d < c ==> f * (c - d) > 0.0;
  }

  lemma SignOfFactor(x: real, w: real)
    requires w > 0.0
    ensures x * w >= 0.0 <==> x >= 0.0
    ensures x * w > 0.0 <==> x > 0.0
  {
  }

  /** What a term's occurrences are weighed against: a quarter is the same for every document and
      the rest grows with its length. */
  ghost predicate IsNorm(doc: Doc, averageLen: real, norm: real) {
    averageLen > 0.0 && norm == 2.5 * (0.25 + 0.75 * (doc.totalLen as real / averageLen))
  }

  /** A term's share is the part its occurrences are of themselves and the norm. */
  lemma ShareIs(doc: Doc, t: string, worth: real, averageLen: real, norm: real)
    requires Frequency(doc, t) > 0 && averageLen > 0.0 && IsNorm(doc, averageLen, norm)
    ensures norm > 0.0
    ensures var f := Frequency(doc, t) as real; TermScore(doc, t, worth, averageLen) == worth * K1 * (f / (f + norm))
  {
    LengthRatio(doc.totalLen as real, averageLen);
    Rearranged(worth, Frequency(doc, t) as real, Frequency(doc, t) as real + norm);
  }

  /** More occurrences and no greater length never make a share smaller. */
  lemma SharesCompare(a: Doc, b: Doc, t: string, worth: real, averageLen: real)
    requires worth > 0.0 && averageLen > 0.0
    requires Frequency(a, t) <= Frequency(b, t) && b.totalLen <= a.totalLen
    ensures TermScore(a, t, worth, averageLen) <= TermScore(b, t, worth, averageLen)
    ensures Frequency(b, t) > 0 && (Frequency(a, t) < Frequency(b, t) || b.totalLen < a.totalLen) ==>
              TermScore(a, t, worth, averageLen) < TermScore(b, t, worth, averageLen)
  {
    if Frequency(a, t) > 0 {
      OccurringCompare(a, b, t, worth, averageLen);
    } else if Frequency(b, t) > 0 {
      ShareIsPositive(b, t, worth, averageLen);
    }
  }

  lemma OccurringCompare(a: Doc, b: Doc, t: string, worth: real, averageLen: real)
    requires worth > 0.0 && averageLen > 0.0
    requires 0 < Frequency(a, t) <= Frequency(b, t) && b.totalLen <= a.totalLen
    ensures TermScore(a, t, worth, averageLen) <= TermScore(b, t, worth, averageLen)
    ensures Frequency(a, t) < Frequency(b, t) || b.totalLen < a.totalLen ==>
              TermScore(a, t, worth, averageLen) < TermScore(b, t, worth, averageLen)
  {
    var (c, d) := (NormOf(a, averageLen), NormOf(b, averageLen));
    NormsCompare(b, a, averageLen, d, c);
    ShareIs(a, t, worth, averageLen, c);
    ShareIs(b, t, worth, averageLen, d);
    WeighedParts(TermScore(a, t, worth, averageLen), TermScore(b, t, worth, averageLen),
                 worth * K1, Frequency(a, t) as real, Frequency(b, t) as real, c, d);
  }

  lemma ShareIsPositive(doc: Doc, t: string, worth: real, averageLen: real)
    requires worth > 0.0 && averageLen > 0.0 && Frequency(doc, t) > 0
    ensures TermScore(doc, t, worth, averageLen) > 0.0
  {
    LengthRatio(doc.totalLen as real, averageLen);
  }

  lemma WeighedParts(x: real, y: real, w: real, f: real, g: real, c: real, d: real)
    requires w > 0.0 && 0.0 < f <= g && 0.0 < d <= c && x == w * (f / (f + c)) && y == w * (g / (g + d))
    ensures x <= y && (f < g || d < c ==> x < y)
  {
    PartsCompare(f, g, c, d);
    Scaled(w, f / (f + c), g / (g + d));
  }

  function NormOf(doc: Doc, averageLen: real): (norm: real)
    requires averageLen > 0.0
    ensures IsNorm(doc, averageLen, norm)
  {
    2.5 * (0.25 + 0.75 * (doc.totalLen as real / averageLen))
  }

  lemma NormsCompare(a: Doc, b: Doc, averageLen: real, c: real, d: real)
    requires averageLen > 0.0 && a.totalLen <= b.totalLen && IsNorm(a, averageLen, c) && IsNorm(b, averageLen, d)
    ensures 0.0 < c <= d && (a.totalLen < b.totalLen ==> c < d)
  {
    var (x, y) := (a.totalLen as real / averageLen, b.totalLen as real / averageLen);
    LengthRatio(a.totalLen as real, averageLen);
    assert x * averageLen == a.totalLen as real && y * averageLen == b.totalLen as real;
    assert (y - x) * averageLen == b.totalLen as real - a.totalLen as real;
    SignOfFactor(y - x, averageLen);
  }

  lemma Scaled(w: real, x: real, y: real)
    requires w > 0.0 && x <= y
    ensures w * x <= w * y && (x < y ==> w * x < w * y)
  {
    assert w * y - w * x == (y - x) * w;
    SignOfFactor(y - x, w);
  }

  lemma {:induction false} SumsCompare<K(!new)>(keys: set<K>, f: K -> real, g: K -> real, some: K)
    requires forall k | k in keys :: f(k) <= g(k)
    ensures SumBy(keys, f) <= SumBy(keys, g)
    ensures some in keys && f(some) < g(some) ==> SumBy(keys, f) < SumBy(keys, g)
    decreases keys
  {
    if keys != {} {
      var k :| k in keys;
      SumByWithout(keys, f, k);
      SumByWithout(keys, g, k);
      SumsCompare(keys - {k}, f, g, some);
    }
  }

  /** No less of any term asked about in a document no longer, and more of one or a shorter
      document, scores higher. */
  lemma ScoresCompare(s: Search, i: nat, j: nat, t: string)
    requires IsLog1p(s.log1p) && i < |s.docs| && j < |s.docs| && s.docs[i].totalLen > 0
    requires s.docs[j].totalLen <= s.docs[i].totalLen
    requires forall q | q in s.query :: Frequency(s.docs[i], q) <= Frequency(s.docs[j], q)
    requires t in s.query && Frequency(s.docs[j], t) > 0
    requires Frequency(s.docs[i], t) < Frequency(s.docs[j], t) || s.docs[j].totalLen < s.docs[i].totalLen
    ensures s.Score(i) < s.Score(j)
  {
    LengthIsPositive(s, i);
    forall q | q in s.query
      ensures s.TermScores(i)(q) <= s.TermScores(j)(q)
      ensures q == t ==> s.TermScores(i)(q) < s.TermScores(j)(q)
    {
      RarerIsWorthMore(s, q, q);
      SharesCompare(s.docs[i], s.docs[j], q, s.Idf(q), s.AverageLen());
    }
    SumsCompare(s.query, s.TermScores(i), s.TermScores(j), t);
  }

  /** At the same length, more occurrences of a term asked about score higher. */
  lemma MoreOccurrencesScoreHigher(s: Search, i: nat, j: nat, t: string)
    requires IsLog1p(s.log1p) && i < |s.docs| && j < |s.docs| && s.docs[i].totalLen == s.docs[j].totalLen > 0
    requires forall q | q in s.query && q != t :: Frequency(s.docs[i], q) == Frequency(s.docs[j], q)
    requires t in s.query
    ensures Frequency(s.docs[i], t) < Frequency(s.docs[j], t) <==> s.Score(i) < s.Score(j)
  {
    if Frequency(s.docs[i], t) < Frequency(s.docs[j], t) {
      ScoresCompare(s, i, j, t);
    } else if Frequency(s.docs[j], t) < Frequency(s.docs[i], t) {
      ScoresCompare(s, j, i, t);
    } else {
      SameScores(s, i, j);
    }
  }

  lemma SameScores(s: Search, i: nat, j: nat)
    requires i < |s.docs| && j < |s.docs| && s.docs[i].totalLen == s.docs[j].totalLen
    requires forall q | q in s.query :: Frequency(s.docs[i], q) == Frequency(s.docs[j], q)
    ensures s.Score(i) == s.Score(j)
  {
    SumBySame(s.query, s.TermScores(i), s.TermScores(j));
  }

  /** With the same occurrences, a longer document scores lower. */
  lemma LongerScoresLower(s: Search, i: nat, j: nat, t: string)
    requires IsLog1p(s.log1p) && i < |s.docs| && j < |s.docs|
    requires forall q | q in s.query :: Frequency(s.docs[i], q) == Frequency(s.docs[j], q)
    requires t in s.query && Frequency(s.docs[i], t) > 0 && s.docs[i].totalLen > 0 && s.docs[j].totalLen > 0
    ensures s.docs[i].totalLen < s.docs[j].totalLen <==> s.Score(j) < s.Score(i)
  {
    if s.docs[i].totalLen < s.docs[j].totalLen {
      ScoresCompare(s, j, i, t);
    } else if s.docs[j].totalLen < s.docs[i].totalLen {
      ScoresCompare(s, i, j, t);
    } else {
      SameScores(s, i, j);
    }
  }

  /** However often a term occurs, its share stays below two and a half times its worth, half of which it is
      exactly when the occurrences are as many as the norm. */
  lemma ShareSaturates(s: Search, i: nat, t: string)
    requires IsLog1p(s.log1p) && i < |s.docs| && s.docs[i].totalLen > 0
    ensures 0.0 <= s.TermScores(i)(t) < s.Idf(t) * 2.5
    ensures s.TermScores(i)(t) == s.Idf(t) * 2.5 / 2.0
       <==> IsNorm(s.docs[i], s.AverageLen(), Frequency(s.docs[i], t) as real)
  {
    LengthIsPositive(s, i);
    RarerIsWorthMore(s, t, t);
    ShareIsPart(s.docs[i], t, s.Idf(t), s.AverageLen());
  }

  /** In a document of average length the norm is two and a half. */
  lemma ShareAtAverage(doc: Doc, t: string, worth: real, averageLen: real)
    requires doc.totalLen as real == averageLen > 0.0
    ensures var f := Frequency(doc, t) as real; TermScore(doc, t, worth, averageLen) == worth * 2.5 * (f / (f + 2.5))
  {
    assert averageLen / averageLen == 1.0;
    if Frequency(doc, t) > 0 {
      ShareIs(doc, t, worth, averageLen, K1);
    } else {
      assert 0.0 / (0.0 + K1) == 0.0;
    }
  }

  lemma ShareIsPart(doc: Doc, t: string, worth: real, averageLen: real)
    requires worth > 0.0 && averageLen > 0.0
    ensures 0.0 <= TermScore(doc, t, worth, averageLen) < worth * K1
    ensures TermScore(doc, t, worth, averageLen) == worth * K1 / 2.0
       <==> IsNorm(doc, averageLen, Frequency(doc, t) as real)
  {
    var norm := NormOf(doc, averageLen);
    NormsCompare(doc, doc, averageLen, norm, norm);
    if Frequency(doc, t) > 0 {
      ShareIs(doc, t, worth, averageLen, norm);
      HalfOf(worth * K1, Frequency(doc, t) as real, norm);
    }
  }

  lemma HalfOf(w: real, f: real, norm: real)
    requires w > 0.0 && f > 0.0 && norm > 0.0
    ensures 0.0 <= w * (f / (f + norm)) < w
    ensures w * (f / (f + norm)) == w / 2.0 <==> norm == f
  {
    var x := f / (f + norm);
    assert x * (f + norm) == f;
    SignOfFactor(x, f + norm);
    assert (1.0 - x) * (f + norm) == norm;
    SignOfFactor(1.0 - x, f + norm);
    Scaled(w, x, 1.0);
    assert w * x >= 0.0;
    if w * x == w / 2.0 {
      assert w * (x - 0.5) == 0.0;
      assert x == 0.5;
    }
    if norm == f {
      assert x * (2.0 * f) == f;
      assert x == 0.5;
    }
  }

  lemma LengthRatio(len: real, average: real)
    requires len >= 0.0 && average > 0.0
    ensures len / average >= 0.0
  {
    assert (len / average) * average == len;
  }

  lemma Rearranged(worth: real, f: real, whole: real)
    requires whole > 0.0
    ensures worth * (f * K1) / whole == worth * K1 * (f / whole)
  {
    var part := f / whole;
    assert part * whole == f;
    assert worth * (f * K1) == (worth * K1 * part) * whole;
  }

  // ---------- the search ----------

  lemma ScoreOne(s: Search, pairs: seq<(nat, real)>, i: nat)
    requires Scored(s.Scores(), pairs) && i < |s.docs| && i !in Ids(pairs)
    ensures Scored(s.Scores(), pairs + [(i, s.Score(i))])
    ensures Ids(pairs + [(i, s.Score(i))]) == Ids(pairs) + [i]
  {
    assert forall j | 0 <= j < |pairs| :: Ids(pairs)[j] != i;
  }

  /** The candidates with a positive score. */
  method ScorePositive(s: Search, x: Index, averageLen: real, candidates: set<nat>) returns (pairs: seq<(nat, real)>)
    requires Indexed(s, x, |s.docs|, {}) && s.docs != [] && averageLen == s.AverageLen()
    requires forall i | i in candidates :: i < |s.docs|
    ensures Scored(s.Scores(), pairs)
    ensures forall i :: i in Ids(pairs) <==> i in candidates && i in s.Positives()
  {
    pairs := [];
    var todo := candidates;
    while todo != {}
      invariant todo <= candidates
      invariant Scored(s.Scores(), pairs)
      invariant forall i :: i in Ids(pairs) <==> i in candidates && i !in todo && i in s.Positives()
      decreases |todo|
    {
      var i :| i in todo;
      var score := Bm25Score(s, x, averageLen, i);
      if score > 0.0 {
        ScoreOne(s, pairs, i);
        pairs := pairs + [(i, score)];
      }
      todo := todo - {i};
    }
  }

  lemma PositivesAreCandidates(s: Search)
    ensures s.Positives() <= HoldersOfAny(s, s.query)
  {
    forall i | i in s.Positives()
      ensures i in HoldersOfAny(s, s.query)
    {
      if i !in HoldersOfAny(s, s.query) {
        OthersScoreZero(s, i);
      }
    }
  }

  /** The paths of these documents, in order. */
  ghost predicate Names(s: Search, ids: seq<nat>, paths: seq<string>) {
    |paths| == |ids| && forall j | 0 <= j < |ids| :: ids[j] < |s.docs| && paths[j] == s.docs[ids[j]].path
  }

  lemma NothingFound(s: Search, k: nat)
    requires s.query == {} || s.docs == [] || HoldersOfAny(s, s.query) == {}
    ensures IsTopK(s.Scores(), s.Positives(), k, []) && Names(s, [], [])
  {
    PositivesAreCandidates(s);
    assert s.Positives() == {};
  }

  /** The documents found are the best `k` of the whole corpus with a positive score, though only
      those in posting lists are scored. */
  method Discover(s: Search, k: nat) returns (paths: seq<string>)
    ensures exists ids :: IsTopK(s.Scores(), s.Positives(), k, ids) && Names(s, ids, paths)
  {
    if s.query == {} || s.docs == [] {
      NothingFound(s, k);
      return [];
    }
    var x, totalLen := BuildIndex(s);
    var candidates := CandidateIds(s, x);
    if candidates == {} {
      NothingFound(s, k);
      return [];
    }
    var pairs := ScorePositive(s, x, totalLen as real / |s.docs| as real, candidates);
    PositivesAreCandidates(s);
    var ranked := SortByScore(pairs);
    SortedIsRanked(s.Scores(), pairs, ranked);
    TakeIsTopK(s.Scores(), s.Positives(), k, Ids(ranked));
    var best := Ids(ranked)[..if |ranked| < k then |ranked| else k];
    paths := PathsOf(s, best);
    assert IsTopK(s.Scores(), s.Positives(), k, best) && Names(s, best, paths);
  }

  method PathsOf(s: Search, ids: seq<nat>) returns (paths: seq<string>)
    requires forall i | i in ids :: i < |s.docs|
    ensures Names(s, ids, paths)
  {
    paths := [];
    for j := 0 to |ids|
      invariant |paths| == j && forall m | 0 <= m < j :: ids[m] < |s.docs| && paths[m] == s.docs[ids[m]].path
    {
      assert ids[j] in ids;
      paths := paths + [s.docs[ids[j]].path];
    }
  }
}
