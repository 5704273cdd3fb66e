/** The best few of a set of scored documents. */
module Ranking {
  import opened Totals

  /** In order of score, best first, no document twice. */
  ghost predicate Ranked(score: nat -> real, ids: seq<nat>) {
    forall i, j | 0 <= i < j < |ids| :: ids[i] != ids[j] && score(ids[i]) >= score(ids[j])
  }

  /** The best `k` of `all`. */
  ghost predicate IsTopK(score: nat -> real, all: set<nat>, k: nat, ids: seq<nat>) {
    && Ranked(score, ids)
    && (forall i | i in ids :: i in all)
    && |ids| == (if |all| < k then |all| else k)
    && forall p, i | p in all && p !in ids && i in ids :: score(p) <= score(i)
  }

  function Ids(pairs: seq<(nat, real)>): (ids: seq<nat>)
    ensures |ids| == |pairs| && forall j | 0 <= j < |pairs| :: ids[j] == pairs[j].0
  {
    seq(|pairs|, j requires 0 <= j < |pairs| => pairs[j].0)
  }

  /** Documents with their scores, none twice. */
  ghost predicate Scored(score: nat -> real, pairs: seq<(nat, real)>) {
    && (forall j | 0 <= j < |pairs| :: pairs[j].1 == score(pairs[j].0))
    && forall i, j | 0 <= i < j < |pairs| :: pairs[i].0 != pairs[j].0
  }

  ghost predicate Sorted(pairs: seq<(nat, real)>) {
    forall i, j | 0 <= i < j < |pairs| :: pairs[i].1 >= pairs[j].1
  }

  /** Where a document goes: after those that score at least as much. */
  method Place(sorted: seq<(nat, real)>, score: real) returns (k: nat)
    requires Sorted(sorted)
    ensures k <= |sorted|
    ensures forall j | 0 <= j < k :: sorted[j].1 >= score
    ensures forall j | k <= j < |sorted| :: score >= sorted[j].1
  {
    k := 0;
    while k < |sorted| && sorted[k].1 >= score
      invariant k <= |sorted|
      invariant forall j | 0 <= j < k :: sorted[j].1 >= score
    {
      k := k + 1;
    }
  }

  function Insert(sorted: seq<(nat, real)>, k: nat, p: (nat, real)): (r: seq<(nat, real)>)
    requires k <= |sorted|
    ensures |r| == |sorted| + 1 && r[k] == p
    ensures forall j | 0 <= j < k :: r[j] == sorted[j]
    ensures forall j | k <= j < |sorted| :: r[j + 1] == sorted[j]
  {
    sorted[..k] + [p] + sorted[k..]
  }

  lemma InsertSorts(sorted: seq<(nat, real)>, k: nat, p: (nat, real))
    requires Sorted(sorted) && k <= |sorted|
    requires forall j | 0 <= j < k :: sorted[j].1 >= p.1
    requires forall j | k <= j < |sorted| :: p.1 >= sorted[j].1
    ensures Sorted(Insert(sorted, k, p))
    ensures multiset(Insert(sorted, k, p)) == multiset(sorted) + multiset{p}
  {
    assert sorted == sorted[..k] + sorted[k..];
  }

  method SortByScore(pairs: seq<(nat, real)>) returns (sorted: seq<(nat, real)>)
    ensures Sorted(sorted) && multiset(sorted) == multiset(pairs)
  {
    sorted := [];
    for n := 0 to |pairs|
      invariant Sorted(sorted) && multiset(sorted) == multiset(pairs[..n])
    {
      var k := Place(sorted, pairs[n].1);
      InsertSorts(sorted, k, pairs[n]);
      assert pairs[..n + 1] == pairs[..n] + [pairs[n]];
      sorted := Insert(sorted, k, pairs[n]);
    }
    assert pairs[..|pairs|] == pairs;
  }

  /** No document twice, by multiplicity. */
  lemma {:induction false} OnceEach(pairs: seq<(nat, real)>)
    ensures (forall i, j | 0 <= i < j < |pairs| :: pairs[i] != pairs[j])
       <==> (forall p | p in pairs :: multiset(pairs)[p] == 1)
    decreases |pairs|
  {
    if pairs != [] {
      var front, last := pairs[..|pairs| - 1], pairs[|pairs| - 1];
      assert pairs == front + [last];
      OnceEach(front);
      assert forall p :: multiset(pairs)[p] == multiset(front)[p] + if p == last then 1 else 0;
      assert forall p :: p in pairs <==> p in front || p == last;
      if last in front {
        var i :| 0 <= i < |front| && front[i] == last;
        assert pairs[i] == pairs[|pairs| - 1];
        assert multiset(pairs)[last] >= 2;
      } else {
        assert multiset(front)[last] == 0;
      }
    }
  }

  lemma SortedIsRanked(score: nat -> real, pairs: seq<(nat, real)>, sorted: seq<(nat, real)>)
    requires Scored(score, pairs) && Sorted(sorted) && multiset(sorted) == multiset(pairs)
    ensures Ranked(score, Ids(sorted)) && forall i :: i in Ids(sorted) <==> i in Ids(pairs)
  {
    forall p
      ensures p in sorted <==> p in pairs
    {
      assert p in sorted <==> p in multiset(sorted);
      assert p in pairs <==> p in multiset(pairs);
    }
    OnceEach(pairs);
    OnceEach(sorted);
    forall j | 0 <= j < |sorted|
      ensures sorted[j].1 == score(sorted[j].0)
    {
      assert sorted[j] in pairs;
    }
    forall i
      ensures i in Ids(sorted) <==> i in Ids(pairs)
    {
      SameIds(pairs, sorted, i);
      SameIds(sorted, pairs, i);
    }
  }

  lemma SameIds(a: seq<(nat, real)>, b: seq<(nat, real)>, i: nat)
    requires forall p | p in a :: p in b
    ensures i in Ids(a) ==> i in Ids(b)
  {
    if i in Ids(a) {
      var m :| 0 <= m < |a| && Ids(a)[m] == i;
      assert a[m] in b;
      var n :| 0 <= n < |b| && b[n] == a[m];
      assert Ids(b)[n] == i;
    }
  }

  // ---------- the best of them ----------

  lemma {:induction false} DistinctCount(ids: seq<nat>, all: set<nat>)
    requires forall i, j | 0 <= i < j < |ids| :: ids[i] != ids[j]
    requires forall i :: i in all <==> i in ids
    ensures |ids| == |all|
    decreases |ids|
  {
    if ids == [] {
      assert all == {};
    } else {
      var front, last := ids[..|ids| - 1], ids[|ids| - 1];
      assert ids == front + [last];
      assert last !in front;
      DistinctCount(front, all - {last});
    }
  }

  lemma TakeIsTopK(score: nat -> real, all: set<nat>, k: nat, ids: seq<nat>)
    requires Ranked(score, ids) && forall i :: i in ids <==> i in all
    ensures IsTopK(score, all, k, ids[..if |ids| < k then |ids| else k])
  {
    DistinctCount(ids, all);
    var best := ids[..if |ids| < k then |ids| else k];
    forall p, i | p in all && p !in best && i in best
      ensures score(p) <= score(i)
    {
      var a :| 0 <= a < |ids| && ids[a] == p;
      var b :| 0 <= b < |best| && best[b] == i;
      assert forall m | 0 <= m < |best| :: best[m] == ids[m] && best[m] in best;
      assert a >= |best|;
      assert ids[b] == i;
    }
  }

  /** Two answers have the same scores, place by place: they differ only in the order, and at the
      end in the choice, of documents that tie. */
  lemma TopKAgree(score: nat -> real, all: set<nat>, k: nat, a: seq<nat>, b: seq<nat>, i: nat)
    requires IsTopK(score, all, k, a) && IsTopK(score, all, k, b) && i < |a|
    ensures |b| == |a| && score(a[i]) == score(b[i])
  {
    NotBetter(score, all, k, a, b, i);
    NotBetter(score, all, k, b, a, i);
  }

  ghost function Members(ids: seq<nat>): set<nat> { set d | d in ids }

  lemma NotBetter(score: nat -> real, all: set<nat>, k: nat, a: seq<nat>, b: seq<nat>, i: nat)
    requires IsTopK(score, all, k, a) && IsTopK(score, all, k, b) && i < |a|
    ensures score(a[i]) <= score(b[i])
  {
    if score(a[i]) > score(b[i]) {
      forall d | d in a[..i + 1]
        ensures d in b[..i]
      {
        Ahead(score, all, k, a, b, i, d);
      }
      DistinctCount(a[..i + 1], Members(a[..i + 1]));
      DistinctCount(b[..i], Members(b[..i]));
      SubsetCount(Members(a[..i + 1]), Members(b[..i]));
      assert false;
    }
  }

  lemma Ahead(score: nat -> real, all: set<nat>, k: nat, a: seq<nat>, b: seq<nat>, i: nat, d: nat)
    requires IsTopK(score, all, k, a) && IsTopK(score, all, k, b) && i < |a|
    requires score(a[i]) > score(b[i]) && d in a[..i + 1]
    ensures d in b[..i]
  {
    var j :| 0 <= j < i + 1 && a[j] == d;
    assert score(d) >= score(a[i]);
    assert b[i] in b && a[j] in a;
    assert d in b;
    var m :| 0 <= m < |b| && b[m] == d;
    assert m < i;
    assert b[..i][m] == d;
  }
}
