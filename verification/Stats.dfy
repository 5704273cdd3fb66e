/** Multiple-testing corrections (`eval/harness/stats.py`): Holm's step-down and the
    Benjamini-Hochberg step-up procedure, over reals. */
module Stats {
  import opened Totals

  datatype Row = Row(pRaw: real, pAdj: real, rejected: bool)

  predicate PValues(ps: seq<real>) {
    forall i | 0 <= i < |ps| :: 0.0 <= ps[i] <= 1.0
  }

  function Cap(x: real): real {
    if x > 1.0 then 1.0 else x
  }

  function Max(x: real, y: real): real { if x >= y then x else y }

  function Min(x: real, y: real): real { if x <= y then x else y }

  // ---------- sorted orders ----------

  /** `order` lists every index once. */
  ghost predicate Permutes(order: seq<nat>, n: nat) {
    && |order| == n
    && (forall r | 0 <= r < n :: order[r] < n)
    && (forall r, s | 0 <= r < s < n :: order[r] != order[s])
    && (forall i | 0 <= i < n :: i in order)
  }

  ghost predicate Ascending(ps: seq<real>, order: seq<nat>) {
    && Permutes(order, |ps|)
    && forall r, s | 0 <= r < s < |ps| :: ps[order[r]] <= ps[order[s]]
  }

  ghost predicate Descending(ps: seq<real>, order: seq<nat>) {
    && Permutes(order, |ps|)
    && forall r, s | 0 <= r < s < |ps| :: ps[order[r]] >= ps[order[s]]
  }

  lemma InsertPermutes(order: seq<nat>, n: nat, k: nat)
    requires Permutes(order, n) && k <= n
    ensures Permutes(order[..k] + [n] + order[k..], n + 1)
  {
    var order' := order[..k] + [n] + order[k..];
    assert forall r | 0 <= r < n + 1 :: order'[r] == if r < k then order[r] else if r == k then n else order[r - 1];
    forall i | 0 <= i < n + 1
      ensures i in order'
    {
      if i < n {
        assert i in order;
        var r :| 0 <= r < n && order[r] == i;
        assert order'[if r < k then r else r + 1] == i;
      } else {
        assert order'[k] == i;
      }
    }
  }

  /** The indices by ascending value, equal ones in index order. */
  method SortedOrder(ps: seq<real>) returns (order: seq<nat>)
    ensures Ascending(ps, order)
  {
    order := [];
    for i := 0 to |ps|
      invariant Permutes(order, i)
      invariant forall r, s | 0 <= r < s < i :: ps[order[r]] <= ps[order[s]]
    {
      var k := i;
      while k > 0 && ps[order[k - 1]] > ps[i]
        invariant 0 <= k <= i
        invariant forall r | k <= r < i :: ps[order[r]] > ps[i]
      {
        k := k - 1;
      }
      InsertPermutes(order, i, k);
      order := order[..k] + [i] + order[k..];
    }
  }

  function Reversed(up: seq<nat>): (down: seq<nat>)
    ensures |down| == |up| && forall r | 0 <= r < |up| :: down[r] == up[|up| - 1 - r]
  {
    seq(|up|, r requires 0 <= r < |up| => up[|up| - 1 - r])
  }

  lemma ReversedPermutes(up: seq<nat>, n: nat)
    requires Permutes(up, n)
    ensures Permutes(Reversed(up), n)
  {
    var down := Reversed(up);
    forall i | 0 <= i < n
      ensures i in down
    {
      assert i in up;
      var r :| 0 <= r < n && up[r] == i;
      assert down[n - 1 - r] == i;
    }
  }

  /** The indices by descending value. */
  method ReverseSortedOrder(ps: seq<real>) returns (order: seq<nat>)
    ensures Descending(ps, order)
  {
    var up := SortedOrder(ps);
    ReversedPermutes(up, |ps|);
    order := Reversed(up);
  }

  // ---------- the corrections ----------

  /** The running maximum of the first `k` terms, from 0. */
  function RunMax(t: seq<real>, k: nat): (v: real)
    requires k <= |t|
    ensures v >= 0.0
  {
    if k == 0 then 0.0 else Max(RunMax(t, k - 1), t[k - 1])
  }

  /** The running minimum of the first `k` terms, from 1. */
  function RunMin(t: seq<real>, k: nat): (v: real)
    requires k <= |t|
    ensures v <= 1.0
  {
    if k == 0 then 1.0 else Min(RunMin(t, k - 1), t[k - 1])
  }

  ghost function RunMaxima(t: seq<real>): (v: seq<real>)
    ensures |v| == |t| + 1 && forall k | 0 <= k <= |t| :: v[k] == RunMax(t, k)
  {
    seq(|t| + 1, k requires 0 <= k <= |t| => RunMax(t, k))
  }

  ghost function RunMinima(t: seq<real>): (v: seq<real>)
    ensures |v| == |t| + 1 && forall k | 0 <= k <= |t| :: v[k] == RunMin(t, k)
  {
    seq(|t| + 1, k requires 0 <= k <= |t| => RunMin(t, k))
  }

  function Product(a: real, b: real): real { a * b }

  /** `x` times `m`, at most 1: Bonferroni's adjustment for `m` hypotheses. */
  function Scaled(m: nat, x: real): real {
    Cap(Product(m as real, x))
  }

  /** `x` times `n` over `m`, at most 1: the false discovery rate when `m` of `n` are rejected. */
  function Ratio(n: nat, m: nat, x: real): real {
    if m == 0 then 1.0 else Cap(x * n as real / m as real)
  }

  function HolmTerms(q: seq<real>): (t: seq<real>)
    ensures |t| == |q| && forall r | 0 <= r < |q| :: t[r] == Scaled(|q| - r, q[r])
  {
    seq(|q|, r requires 0 <= r < |q| => Scaled(|q| - r, q[r]))
  }

  function BhTerms(q: seq<real>): (t: seq<real>)
    ensures |t| == |q| && forall r | 0 <= r < |q| :: t[r] == Ratio(|q|, |q| - r, q[r])
  {
    seq(|q|, r requires 0 <= r < |q| => Ratio(|q|, |q| - r, q[r]))
  }

  function Values(ps: seq<real>, order: seq<nat>): (q: seq<real>)
    requires forall r | 0 <= r < |order| :: order[r] < |ps|
    ensures |q| == |order| && forall r | 0 <= r < |q| :: q[r] == ps[order[r]]
  {
    seq(|order|, r requires 0 <= r < |order| => ps[order[r]])
  }

  method Rows(ps: seq<real>, adj: seq<real>, level: real) returns (rows: seq<Row>)
    requires |adj| == |ps|
    ensures |rows| == |ps|
    ensures forall i | 0 <= i < |ps| :: rows[i] == Row(ps[i], adj[i], adj[i] < level)
  {
    rows := seq(|ps|, i requires 0 <= i < |ps| => Row(ps[i], adj[i], adj[i] < level));
  }

  method HolmCorrect(ps: seq<real>, alpha: real) returns (rows: seq<Row>, ghost order: seq<nat>)
    ensures |rows| == |ps|
    ensures Ascending(ps, order)
    ensures forall r | 0 <= r < |ps| :: rows[order[r]].pAdj == RunMax(HolmTerms(Values(ps, order)), r + 1)
    ensures forall i | 0 <= i < |ps| ::
      rows[i].pRaw == ps[i] && (rows[i].rejected <==> rows[i].pAdj < alpha) && IsHolmAdj(ps, i, rows[i].pAdj)
  {
    var up := SortedOrder(ps);
    order := up;
    var adj := HolmFill(ps, up);
    rows := Rows(ps, adj, alpha);
    HolmAdjAll(ps, up, adj);
  }

  /** The running maximum of the scaled values, from the smallest p up. */
  method HolmFill(ps: seq<real>, up: seq<nat>) returns (adj: seq<real>)
    requires Ascending(ps, up)
    ensures |adj| == |ps|
    ensures forall r | 0 <= r < |ps| :: adj[up[r]] == RunMax(HolmTerms(Values(ps, up)), r + 1)
  {
    var n := |ps|;
    ghost var t := HolmTerms(Values(ps, up));
    ghost var maxima := RunMaxima(t);
    adj := seq(n, _ => 0.0);
    var runningMax := 0.0;
    for rank := 0 to n
      invariant |adj| == n && runningMax == maxima[rank]
      invariant forall r | 0 <= r < rank :: adj[up[r]] == maxima[r + 1]
    {
      var a := Scaled(n - rank, ps[up[rank]]);
      assert a == t[rank];
      assert maxima[rank + 1] == Max(maxima[rank], a);
      runningMax := Max(runningMax, a);
      adj := adj[up[rank] := runningMax];
    }
    assert forall r | 0 <= r < n :: adj[up[r]] == RunMax(t, r + 1);
  }

  method BhFdr(ps: seq<real>, level: real) returns (rows: seq<Row>, ghost order: seq<nat>)
    ensures |rows| == |ps|
    ensures Descending(ps, order)
    ensures forall r | 0 <= r < |ps| :: rows[order[r]].pAdj == RunMin(BhTerms(Values(ps, order)), r + 1)
    ensures forall i | 0 <= i < |ps| ::
      rows[i].pRaw == ps[i] && (rows[i].rejected <==> rows[i].pAdj < level)
      && (PValues(ps) ==> IsBhAdj(ps, i, rows[i].pAdj))
  {
    var down := ReverseSortedOrder(ps);
    order := down;
    var adj := BhFill(ps, down);
    rows := Rows(ps, adj, level);
    if PValues(ps) {
      BhAdjAll(ps, down, adj);
    }
  }

  /** The running minimum of the scaled values, from the largest p down. */
  method BhFill(ps: seq<real>, down: seq<nat>) returns (adj: seq<real>)
    requires Descending(ps, down)
    ensures |adj| == |ps|
    ensures forall r | 0 <= r < |ps| :: adj[down[r]] == RunMin(BhTerms(Values(ps, down)), r + 1)
  {
    var n := |ps|;
    ghost var t := BhTerms(Values(ps, down));
    ghost var minima := RunMinima(t);
    adj := seq(n, _ => 0.0);
    var runningMin := 1.0;
    for revRank := 0 to n
      invariant |adj| == n && runningMin == minima[revRank]
      invariant forall r | 0 <= r < revRank :: adj[down[r]] == minima[r + 1]
    {
      var rank := n - revRank;
      var a := Ratio(n, rank, ps[down[revRank]]);
      assert a == t[revRank];
      assert minima[revRank + 1] == Min(minima[revRank], a);
      runningMin := Min(runningMin, a);
      adj := adj[down[revRank] := runningMin];
    }
    assert forall r | 0 <= r < n :: adj[down[r]] == RunMin(t, r + 1);
  }

  // ---------- the adjusted values without any order ----------

  ghost function AtLeast(ps: seq<real>, x: real): set<nat> {
    set k: nat | k < |ps| && ps[k] >= x
  }

  ghost function AtMost(ps: seq<real>, x: real): set<nat> {
    set k: nat | k < |ps| && ps[k] <= x
  }

  /** Bonferroni's bound for `ps[j]` among the hypotheses no more significant than it. */
  ghost function HolmTerm(ps: seq<real>, j: nat): real
    requires j < |ps|
  {
    Scaled(|AtLeast(ps, ps[j])|, ps[j])
  }

  /** The false discovery rate estimated at threshold `ps[j]`. */
  ghost function BhTerm(ps: seq<real>, j: nat): real
    requires j < |ps|
  {
    Ratio(|ps|, |AtMost(ps, ps[j])|, ps[j])
  }

  /** Holm's adjusted value: the largest bound among hypotheses at least as significant. */
  ghost predicate IsHolmAdj(ps: seq<real>, i: nat, v: real)
    requires i < |ps|
  {
    && v >= 0.0
    && (forall j | 0 <= j < |ps| && ps[j] <= ps[i] :: HolmTerm(ps, j) <= v)
    && (v == 0.0 || exists j :: 0 <= j < |ps| && ps[j] <= ps[i] && HolmTerm(ps, j) == v)
  }

  /** The step-up adjusted value: the least estimate at a threshold that rejects `i`. */
  ghost predicate IsBhAdj(ps: seq<real>, i: nat, v: real)
    requires i < |ps|
  {
    && (forall j | 0 <= j < |ps| && ps[j] >= ps[i] :: v <= BhTerm(ps, j))
    && exists j :: 0 <= j < |ps| && ps[j] >= ps[i] && BhTerm(ps, j) == v
  }

  // ---------- counting ----------

  ghost function Indices(order: seq<nat>, from: nat): set<nat>
    requires from <= |order|
  {
    set r | from <= r < |order| :: order[r]
  }

  lemma {:induction false} IndicesCount(order: seq<nat>, from: nat)
    requires from <= |order| && forall r, s | 0 <= r < s < |order| :: order[r] != order[s]
    ensures |Indices(order, from)| == |order| - from
    decreases |order| - from
  {
    if from < |order| {
      IndicesCount(order, from + 1);
      assert Indices(order, from) == Indices(order, from + 1) + {order[from]};
      assert order[from] !in Indices(order, from + 1);
    } else {
      assert Indices(order, from) == {};
    }
  }

  /** At least `n - r` values reach the one of rank `r`. */
  lemma AtLeastCount(ps: seq<real>, order: seq<nat>, r: nat)
    requires Ascending(ps, order) && r < |ps|
    ensures |AtLeast(ps, ps[order[r]])| >= |ps| - r
  {
    IndicesCount(order, r);
    assert Indices(order, r) <= AtLeast(ps, ps[order[r]]);
    SubsetCount(Indices(order, r), AtLeast(ps, ps[order[r]]));
  }

  /** The first rank holding a value: exactly the later ones reach it. */
  lemma {:induction false} FirstAtLeast(ps: seq<real>, order: seq<nat>, r: nat) returns (f: nat)
    requires Ascending(ps, order) && r < |ps|
    ensures f <= r && ps[order[f]] == ps[order[r]] && |AtLeast(ps, ps[order[f]])| == |ps| - f
    decreases r
  {
    if r > 0 && ps[order[r - 1]] == ps[order[r]] {
      f := FirstAtLeast(ps, order, r - 1);
    } else {
      f := r;
      IndicesCount(order, r);
      forall k | k in AtLeast(ps, ps[order[r]])
        ensures k in Indices(order, r)
      {
        assert k in order;
        var s :| 0 <= s < |order| && order[s] == k;
        assert forall u | 0 <= u < r :: ps[order[u]] < ps[order[r]];
      }
      assert AtLeast(ps, ps[order[r]]) == Indices(order, r);
    }
  }

  lemma AtMostCount(ps: seq<real>, order: seq<nat>, r: nat)
    requires Descending(ps, order) && r < |ps|
    ensures |AtMost(ps, ps[order[r]])| >= |ps| - r
  {
    IndicesCount(order, r);
    assert Indices(order, r) <= AtMost(ps, ps[order[r]]);
    SubsetCount(Indices(order, r), AtMost(ps, ps[order[r]]));
  }

  lemma {:induction false} FirstAtMost(ps: seq<real>, order: seq<nat>, r: nat) returns (f: nat)
    requires Descending(ps, order) && r < |ps|
    ensures f <= r && ps[order[f]] == ps[order[r]] && |AtMost(ps, ps[order[f]])| == |ps| - f
    decreases r
  {
    if r > 0 && ps[order[r - 1]] == ps[order[r]] {
      f := FirstAtMost(ps, order, r - 1);
    } else {
      f := r;
      IndicesCount(order, r);
      forall k | k in AtMost(ps, ps[order[r]])
        ensures k in Indices(order, r)
      {
        assert k in order;
        var s :| 0 <= s < |order| && order[s] == k;
        assert forall u | 0 <= u < r :: ps[order[u]] > ps[order[r]];
      }
      assert AtMost(ps, ps[order[r]]) == Indices(order, r);
    }
  }

  // ---------- the running values are the adjusted values ----------

  lemma {:induction false} RunMaxBounds(t: seq<real>, j: nat, k: nat)
    requires j < k <= |t|
    ensures t[j] <= RunMax(t, k)
    decreases k
  {
    if j < k - 1 {
      RunMaxBounds(t, j, k - 1);
    }
  }

  lemma {:induction false} RunMaxAttained(t: seq<real>, k: nat) returns (j: nat)
    requires k <= |t| && RunMax(t, k) > 0.0
    ensures j < k && RunMax(t, k) == t[j]
    decreases k
  {
    if RunMax(t, k) == t[k - 1] {
      j := k - 1;
    } else {
      j := RunMaxAttained(t, k - 1);
    }
  }

  lemma {:induction false} RunMinBounds(t: seq<real>, j: nat, k: nat)
    requires j < k <= |t|
    ensures RunMin(t, k) <= t[j]
    decreases k
  {
    if j < k - 1 {
      RunMinBounds(t, j, k - 1);
    }
  }

  lemma {:induction false} RunMinAttained(t: seq<real>, k: nat) returns (j: nat)
    requires 0 < k <= |t| && forall r | 0 <= r < k :: t[r] <= 1.0
    ensures j < k && RunMin(t, k) == t[j]
    decreases k
  {
    if RunMin(t, k) == t[k - 1] {
      j := k - 1;
    } else {
      j := RunMinAttained(t, k - 1);
    }
  }

  lemma ScaledGrows(a: nat, b: nat, x: real)
    requires a <= b && Scaled(a, x) > 0.0
    ensures Scaled(a, x) <= Scaled(b, x)
  {
    var u, w := Product(a as real, x), Product(b as real, x);
    GrowsOrIsNegative(a as real, b as real, x);
    assert Scaled(a, x) == Cap(u) && Scaled(b, x) == Cap(w);
  }

  lemma GrowsOrIsNegative(p: real, q: real, x: real)
    requires 0.0 <= p <= q
    ensures Product(p, x) <= Product(q, x) || Product(p, x) <= 0.0
  {
    if x >= 0.0 {
      MoreTimes(p, q, x);
    } else {
      MoreTimes(x, 0.0, p);
    }
  }

  lemma MoreTimes(a: real, b: real, x: real)
    requires a <= b && x >= 0.0
    ensures a * x <= b * x
  {
  }

  lemma RatioShrinks(n: nat, a: nat, b: nat, x: real)
    requires 1 <= a <= b && x >= 0.0
    ensures Ratio(n, b, x) <= Ratio(n, a, x)
  {
    var w, p, q := x * n as real, a as real, b as real;
    var y := w / q;
    assert y >= 0.0 && y * q == w;
    MoreTimes(p, q, y);
    assert y <= w / p;
  }

  lemma HolmUpperBound(ps: seq<real>, order: seq<nat>, r: nat, j: nat)
    requires Ascending(ps, order) && r < |ps| && j < |ps| && ps[j] <= ps[order[r]]
    ensures HolmTerm(ps, j) <= RunMax(HolmTerms(Values(ps, order)), r + 1)
  {
    var t := HolmTerms(Values(ps, order));
    assert j in order;
    var s :| 0 <= s < |order| && order[s] == j;
    var f := FirstAtLeast(ps, order, if s <= r then s else r);
    assert s > r ==> ps[order[r]] <= ps[order[s]];
    assert ps[order[f]] == ps[j];
    RunMaxBounds(t, f, r + 1);
  }

  lemma HolmMaxIsAdj(ps: seq<real>, order: seq<nat>, r: nat)
    requires Ascending(ps, order) && r < |ps|
    ensures IsHolmAdj(ps, order[r], RunMax(HolmTerms(Values(ps, order)), r + 1))
  {
    var t := HolmTerms(Values(ps, order));
    var v := RunMax(t, r + 1);
    forall j | 0 <= j < |ps| && ps[j] <= ps[order[r]]
      ensures HolmTerm(ps, j) <= v
    {
      HolmUpperBound(ps, order, r, j);
    }
    if v > 0.0 {
      var j := HolmMaxIsTerm(ps, order, r);
    }
  }

  lemma HolmMaxIsTerm(ps: seq<real>, order: seq<nat>, r: nat) returns (j: nat)
    requires Ascending(ps, order) && r < |ps| && RunMax(HolmTerms(Values(ps, order)), r + 1) > 0.0
    ensures j <= r && ps[order[j]] <= ps[order[r]]
    ensures HolmTerm(ps, order[j]) == RunMax(HolmTerms(Values(ps, order)), r + 1)
  {
    var t := HolmTerms(Values(ps, order));
    j := RunMaxAttained(t, r + 1);
    AtLeastCount(ps, order, j);
    ScaledGrows(|ps| - j, |AtLeast(ps, ps[order[j]])|, ps[order[j]]);
    assert ps[order[j]] <= ps[order[r]];
    HolmUpperBound(ps, order, r, order[j]);
  }

  lemma HolmAdjAll(ps: seq<real>, order: seq<nat>, adj: seq<real>)
    requires Ascending(ps, order) && |adj| == |ps|
    requires forall r | 0 <= r < |ps| :: adj[order[r]] == RunMax(HolmTerms(Values(ps, order)), r + 1)
    ensures forall i | 0 <= i < |ps| :: IsHolmAdj(ps, i, adj[i])
  {
    forall i | 0 <= i < |ps|
      ensures IsHolmAdj(ps, i, adj[i])
    {
      assert i in order;
      var r :| 0 <= r < |ps| && order[r] == i;
      HolmMaxIsAdj(ps, order, r);
    }
  }

  lemma BhLowerBound(ps: seq<real>, order: seq<nat>, r: nat, j: nat)
    requires Descending(ps, order) && r < |ps| && j < |ps| && ps[j] >= ps[order[r]]
    ensures RunMin(BhTerms(Values(ps, order)), r + 1) <= BhTerm(ps, j)
  {
    var t := BhTerms(Values(ps, order));
    assert j in order;
    var s :| 0 <= s < |order| && order[s] == j;
    assert s > r ==> ps[order[r]] >= ps[order[s]];
    BhFirstOfTie(ps, order, if s <= r then s else r, r, j);
  }

  lemma BhFirstOfTie(ps: seq<real>, order: seq<nat>, s: nat, r: nat, j: nat)
    requires Descending(ps, order) && s <= r < |ps| && j < |ps| && ps[order[s]] == ps[j]
    ensures RunMin(BhTerms(Values(ps, order)), r + 1) <= BhTerm(ps, j)
  {
    var f := FirstAtMost(ps, order, s);
    RunMinBounds(BhTerms(Values(ps, order)), f, r + 1);
  }

  lemma BhMinIsAdj(ps: seq<real>, order: seq<nat>, r: nat)
    requires PValues(ps) && Descending(ps, order) && r < |ps|
    ensures IsBhAdj(ps, order[r], RunMin(BhTerms(Values(ps, order)), r + 1))
  {
    var t := BhTerms(Values(ps, order));
    forall j | 0 <= j < |ps| && ps[j] >= ps[order[r]]
      ensures RunMin(t, r + 1) <= BhTerm(ps, j)
    {
      BhLowerBound(ps, order, r, j);
    }
    var j := RunMinAttained(t, r + 1);
    AtMostCount(ps, order, j);
    RatioShrinks(|ps|, |ps| - j, |AtMost(ps, ps[order[j]])|, ps[order[j]]);
    assert ps[order[j]] >= ps[order[r]];
    BhLowerBound(ps, order, r, order[j]);
  }

  lemma BhAdjAll(ps: seq<real>, order: seq<nat>, adj: seq<real>)
    requires PValues(ps) && Descending(ps, order) && |adj| == |ps|
    requires forall r | 0 <= r < |ps| :: adj[order[r]] == RunMin(BhTerms(Values(ps, order)), r + 1)
    ensures forall i | 0 <= i < |ps| :: IsBhAdj(ps, i, adj[i])
  {
    forall i | 0 <= i < |ps|
      ensures IsBhAdj(ps, i, adj[i])
    {
      assert i in order;
      var r :| 0 <= r < |ps| && order[r] == i;
      BhMinIsAdj(ps, order, r);
    }
  }

  // ---------- the textbook procedures ----------

  /** The ascending value of rank `k` is below its Holm threshold. */
  predicate BelowHolm(q: seq<real>, alpha: real, k: nat)
    requires k < |q|
  {
    q[k] < alpha / (|q| - k) as real
  }

  /** The `k`-th value from the top is below its step-up threshold. */
  predicate BelowBh(q: seq<real>, level: real, k: nat)
    requires k < |q|
  {
    q[k] < (|q| - k) as real * level / |q| as real
  }

  /** Holm's step-down: the number of ascending values below `alpha / (n - k)`, up to the first
      that is not. */
  function StepDown(q: seq<real>, alpha: real, k: nat): (m: nat)
    requires k <= |q|
    ensures k <= m <= |q|
    decreases |q| - k
  {
    if k < |q| && BelowHolm(q, alpha, k) then StepDown(q, alpha, k + 1) else k
  }

  /** The step-up procedure: the first of the descending values below its threshold
      `rank * level / n`; it and all smaller ones are rejected. */
  function StepUp(q: seq<real>, level: real, k: nat): (m: nat)
    requires k <= |q|
    ensures k <= m <= |q|
    decreases |q| - k
  {
    if k < |q| && !BelowBh(q, level, k) then StepUp(q, level, k + 1) else k
  }

  lemma ProductBelow(m: nat, x: real, alpha: real)
    requires m >= 1
    ensures Product(m as real, x) < alpha <==> x < alpha / m as real
  {
    var d := m as real;
    var y := alpha / d;
    assert y * d == alpha;
    if x < y {
      StrictlyMore(x, y, d);
    } else {
      MoreTimes(y, x, d);
    }
    assert Product(d, x) == x * d;
  }

  lemma StrictlyMore(x: real, y: real, d: real)
    requires x < y && d > 0.0
    ensures x * d < y * d
  {
  }

  lemma ScaledBelow(m: nat, x: real, alpha: real)
    requires m >= 1 && alpha <= 1.0
    ensures Scaled(m, x) < alpha <==> x < alpha / m as real
  {
    ProductBelow(m, x, alpha);
  }

  lemma QuotientBelow(w: real, d: real, z: real)
    requires d > 0.0
    ensures w / d < z <==> w < z * d
  {
    var y := w / d;
    assert y * d == w;
    if y < z {
      StrictlyMore(y, z, d);
    } else {
      MoreTimes(z, y, d);
    }
  }

  lemma Commutes(a: real, b: real)
    ensures a * b == b * a
  {}

  lemma QuotientAbove(x: real, w: real, e: real)
    requires e > 0.0
    ensures x < w / e <==> x * e < w
  {
    var y := w / e;
    assert y * e == w;
    if x < y {
      StrictlyMore(x, y, e);
    } else {
      MoreTimes(y, x, e);
    }
  }

  lemma RatiosBelow(x: real, d: real, e: real, level: real)
    requires d > 0.0 && e > 0.0
    ensures x * e / d < level <==> x < d * level / e
  {
    var w, z := x * e, d * level;
    QuotientBelow(w, d, level);
    Commutes(level, d);
    assert w / d < level <==> w < z;
    QuotientAbove(x, z, e);
  }

  lemma RatioBelow(n: nat, m: nat, x: real, level: real)
    requires 1 <= m <= n && level <= 1.0
    ensures Ratio(n, m, x) < level <==> x < m as real * level / n as real
  {
    CapBelow(x * n as real / m as real, level);
    RatiosBelow(x, m as real, n as real, level);
  }

  lemma CapBelow(v: real, level: real)
    requires level <= 1.0
    ensures Cap(v) < level <==> v < level
  {}

  lemma {:induction false} StepDownReaches(q: seq<real>, alpha: real, k: nat, r: nat)
    requires k <= r < |q|
    ensures r < StepDown(q, alpha, k) <==> forall j | k <= j <= r :: BelowHolm(q, alpha, j)
    decreases r - k
  {
    if k < r && BelowHolm(q, alpha, k) {
      StepDownReaches(q, alpha, k + 1, r);
    }
  }

  lemma {:induction false} RunMaxBelow(t: seq<real>, k: nat, alpha: real)
    requires k <= |t| && alpha > 0.0
    ensures RunMax(t, k) < alpha <==> forall j | 0 <= j < k :: t[j] < alpha
    decreases k
  {
    if k > 0 {
      RunMaxBelow(t, k - 1, alpha);
    }
  }

  /** `holm_correct` rejects exactly what Holm's step-down procedure rejects. */
  lemma HolmIsStepDown(ps: seq<real>, order: seq<nat>, alpha: real, r: nat)
    requires PValues(ps) && Ascending(ps, order) && r < |ps| && alpha <= 1.0
    ensures RunMax(HolmTerms(Values(ps, order)), r + 1) < alpha <==> r < StepDown(Values(ps, order), alpha, 0)
  {
    var q := Values(ps, order);
    StepDownReaches(q, alpha, 0, r);
    HolmTermsBelow(q, alpha);
    if alpha > 0.0 {
      RunMaxBelow(HolmTerms(q), r + 1, alpha);
    } else {
      FirstTermIsNonNegative(q);
    }
  }

  lemma HolmTermsBelow(q: seq<real>, alpha: real)
    requires alpha <= 1.0
    ensures forall j | 0 <= j < |q| :: HolmTerms(q)[j] < alpha <==> BelowHolm(q, alpha, j)
  {
    forall j | 0 <= j < |q|
      ensures HolmTerms(q)[j] < alpha <==> BelowHolm(q, alpha, j)
    {
      ScaledBelow(|q| - j, q[j], alpha);
    }
  }

  lemma FirstTermIsNonNegative(q: seq<real>)
    requires q != [] && q[0] >= 0.0
    ensures HolmTerms(q)[0] >= 0.0
  {
    GrowsOrIsNegative(0.0, |q| as real, q[0]);
    MoreTimes(0.0, |q| as real, q[0]);
  }

  lemma {:induction false} StepUpReaches(q: seq<real>, level: real, k: nat, r: nat)
    requires k <= r < |q|
    ensures StepUp(q, level, k) <= r
       <==> exists j :: k <= j <= r && BelowBh(q, level, j)
    decreases r - k
  {
    if k < r && !BelowBh(q, level, k) {
      StepUpReaches(q, level, k + 1, r);
    }
  }

  lemma {:induction false} RunMinBelow(t: seq<real>, k: nat, level: real)
    requires k <= |t| && level <= 1.0
    ensures RunMin(t, k) < level <==> exists j :: 0 <= j < k && t[j] < level
    decreases k
  {
    if k > 0 {
      RunMinBelow(t, k - 1, level);
    }
  }

  lemma BhTermBelow(q: seq<real>, level: real, j: nat)
    requires j < |q| && level <= 1.0
    ensures BhTerms(q)[j] < level <==> BelowBh(q, level, j)
  {
    RatioBelow(|q|, |q| - j, q[j], level);
  }

  /** `bh_fdr` rejects exactly what the step-up procedure rejects. */
  lemma BhIsStepUp(ps: seq<real>, order: seq<nat>, level: real, r: nat)
    requires Descending(ps, order) && r < |ps| && level <= 1.0
    ensures RunMin(BhTerms(Values(ps, order)), r + 1) < level <==> StepUp(Values(ps, order), level, 0) <= r
  {
    var q, n := Values(ps, order), |ps|;
    var t := BhTerms(q);
    StepUpReaches(q, level, 0, r);
    RunMinBelow(t, r + 1, level);
    forall j | 0 <= j < n
      ensures t[j] < level <==> BelowBh(q, level, j)
    {
      BhTermBelow(q, level, j);
    }
  }

  // ---------- properties of the adjusted values ----------

  lemma HolmAdjMonotone(ps: seq<real>, i: nat, j: nat, v: real, w: real)
    requires i < |ps| && j < |ps| && ps[i] <= ps[j] && IsHolmAdj(ps, i, v) && IsHolmAdj(ps, j, w)
    ensures v <= w
    ensures ps[i] == ps[j] ==> v == w
  {
  }

  lemma BhAdjMonotone(ps: seq<real>, i: nat, j: nat, v: real, w: real)
    requires i < |ps| && j < |ps| && ps[i] <= ps[j] && IsBhAdj(ps, i, v) && IsBhAdj(ps, j, w)
    ensures v <= w
    ensures ps[i] == ps[j] ==> v == w
  {
  }

  lemma ScaledAtLeast(m: nat, x: real)
    requires m >= 1 && 0.0 <= x <= 1.0
    ensures x <= Scaled(m, x) <= 1.0
  {
    MoreTimes(1.0, m as real, x);
  }

  lemma RatioAtLeast(n: nat, m: nat, x: real)
    requires 1 <= m <= n && 0.0 <= x <= 1.0
    ensures x <= Ratio(n, m, x) <= 1.0
  {
    var w, d := x * n as real, m as real;
    QuotientBelow(w, d, x);
    MoreTimes(d, n as real, x);
    assert x * d <= w;
  }

  lemma Counted(ps: seq<real>, i: nat)
    requires i < |ps|
    ensures 1 <= |AtLeast(ps, ps[i])| <= |ps| && 1 <= |AtMost(ps, ps[i])| <= |ps|
    ensures |AtLeast(ps, ps[i])| + |AtMost(ps, ps[i])| >= |ps| + 1
  {
    var up, down := AtLeast(ps, ps[i]), AtMost(ps, ps[i]);
    var indices := seq(|ps|, k => k);
    var all := Indices(indices, 0);
    IndicesCount(indices, 0);
    forall k: nat | k < |ps|
      ensures k in all
    {
      assert indices[k] == k;
    }
    assert i in up * down;
    SubsetCount(up, all);
    SubsetCount(down, all);
    assert up + down == all;
    assert |up + down| == |up| + |down| - |up * down|;
    SubsetCount({i}, up * down);
    SubsetCount({i}, up);
    SubsetCount({i}, down);
  }

  /** Adjusted values lie between the value and 1. */
  lemma AdjustedInRange(ps: seq<real>, i: nat, holm: real, bh: real)
    requires PValues(ps) && i < |ps| && IsHolmAdj(ps, i, holm) && IsBhAdj(ps, i, bh)
    ensures ps[i] <= holm <= 1.0 && ps[i] <= bh <= 1.0
  {
    Counted(ps, i);
    ScaledAtLeast(|AtLeast(ps, ps[i])|, ps[i]);
    assert HolmTerm(ps, i) <= holm;
    var j :| 0 <= j < |ps| && ps[j] >= ps[i] && BhTerm(ps, j) == bh;
    Counted(ps, j);
    RatioAtLeast(|ps|, |AtMost(ps, ps[j])|, ps[j]);
  }

  /** Of two counts that overlap, the one's bound is never above the other's. */
  lemma CountsCross(n: nat, a: nat, b: nat, x: real)
    requires 1 <= a <= n && 1 <= b <= n && a + b >= n + 1 && x >= 0.0
    ensures Ratio(n, a, x) <= Scaled(b, x)
  {
    var w, d, z := x * n as real, a as real, Product(b as real, x);
    CountsMultiply(n, a, b);
    MoreTimes(n as real, (a * b) as real, x);
    assert (a * b) as real == d * b as real;
    assert (a * b) as real * x == z * d;
    assert w <= z * d;
    if z < w / d {
      QuotientBelow(w, d, z);
      StrictlyMore(z, w / d, d);
    }
    assert w / d <= z;
  }

  lemma CountsMultiply(n: nat, a: nat, b: nat)
    requires 1 <= a && 1 <= b && a + b >= n + 1
    ensures a * b >= n
  {
    assert (a - 1) * (b - 1) >= 0;
    assert (a - 1) * (b - 1) == a * b - a - b + 1;
  }

  /** The step-up value is never above Holm's, so every Holm rejection is a step-up rejection at
      the same level. */
  lemma BhBelowHolm(ps: seq<real>, i: nat, holm: real, bh: real)
    requires PValues(ps) && i < |ps| && IsHolmAdj(ps, i, holm) && IsBhAdj(ps, i, bh)
    ensures bh <= holm
  {
    Counted(ps, i);
    CountsCross(|ps|, |AtMost(ps, ps[i])|, |AtLeast(ps, ps[i])|, ps[i]);
    assert bh <= BhTerm(ps, i) && HolmTerm(ps, i) <= holm;
  }

  // ---------- permuting the input ----------

  lemma {:induction false} ImageCount(s: set<nat>, perm: seq<nat>)
    requires forall k | k in s :: k < |perm|
    requires forall k, l | 0 <= k < l < |perm| :: perm[k] != perm[l]
    ensures |set k | k in s :: perm[k]| == |s|
    decreases |s|
  {
    var image := set k | k in s :: perm[k];
    if s == {} {
      assert image == {};
    } else {
      var x :| x in s;
      ImageCount(s - {x}, perm);
      var rest := set k | k in s - {x} :: perm[k];
      assert forall k | k in s - {x} :: perm[k] != perm[x];
      assert image == rest + {perm[x]} && perm[x] !in rest;
    }
  }

  /** The same values in another order. */
  ghost predicate Rearranged(ps: seq<real>, ps': seq<real>, perm: seq<nat>) {
    && |ps'| == |ps| && Permutes(perm, |ps|)
    && forall i | 0 <= i < |ps| :: ps'[i] == ps[perm[i]]
  }

  lemma CountsAgree(ps: seq<real>, ps': seq<real>, perm: seq<nat>, x: real)
    requires Rearranged(ps, ps', perm)
    ensures |AtLeast(ps', x)| == |AtLeast(ps, x)| && |AtMost(ps', x)| == |AtMost(ps, x)|
  {
    ImageCount(AtLeast(ps', x), perm);
    ImageCount(AtMost(ps', x), perm);
    var up, down := set k | k in AtLeast(ps', x) :: perm[k], set k | k in AtMost(ps', x) :: perm[k];
    forall k | 0 <= k < |ps|
      ensures k in up <==> k in AtLeast(ps, x)
      ensures k in down <==> k in AtMost(ps, x)
    {
      assert k in perm;
      var i :| 0 <= i < |perm| && perm[i] == k;
    }
    assert up == AtLeast(ps, x) && down == AtMost(ps, x);
  }

  lemma TermsAgree(ps: seq<real>, ps': seq<real>, perm: seq<nat>, j: nat) returns (l: nat)
    requires Rearranged(ps, ps', perm) && j < |ps|
    ensures l < |ps| && ps'[l] == ps[j]
    ensures HolmTerm(ps', l) == HolmTerm(ps, j) && BhTerm(ps', l) == BhTerm(ps, j)
  {
    assert j in perm;
    l :| 0 <= l < |perm| && perm[l] == j;
    CountsAgree(ps, ps', perm, ps[j]);
  }

  lemma TermAgrees(ps: seq<real>, ps': seq<real>, perm: seq<nat>, l: nat)
    requires Rearranged(ps, ps', perm) && l < |ps|
    ensures HolmTerm(ps', l) == HolmTerm(ps, perm[l]) && BhTerm(ps', l) == BhTerm(ps, perm[l])
  {
    CountsAgree(ps, ps', perm, ps'[l]);
  }

  /** Permuting the input permutes the adjusted values. */
  lemma HolmIsEquivariant(ps: seq<real>, ps': seq<real>, perm: seq<nat>, i: nat, v: real, v': real)
    requires Rearranged(ps, ps', perm) && i < |ps|
    requires IsHolmAdj(ps, perm[i], v) && IsHolmAdj(ps', i, v')
    ensures v' == v
  {
    forall j | 0 <= j < |ps| && ps[j] <= ps[perm[i]]
      ensures HolmTerm(ps, j) <= v'
    {
      var l := TermsAgree(ps, ps', perm, j);
    }
    if v' > 0.0 {
      var l :| 0 <= l < |ps'| && ps'[l] <= ps'[i] && HolmTerm(ps', l) == v';
      TermAgrees(ps, ps', perm, l);
    }
    HolmAdjMonotone(ps, perm[i], perm[i], v, v');
  }

  lemma BhIsEquivariant(ps: seq<real>, ps': seq<real>, perm: seq<nat>, i: nat, v: real, v': real)
    requires Rearranged(ps, ps', perm) && i < |ps|
    requires IsBhAdj(ps, perm[i], v) && IsBhAdj(ps', i, v')
    ensures v' == v
  {
    forall j | 0 <= j < |ps| && ps[j] >= ps[perm[i]]
      ensures v' <= BhTerm(ps, j)
    {
      var l := TermsAgree(ps, ps', perm, j);
    }
    var l :| 0 <= l < |ps'| && ps'[l] >= ps'[i] && BhTerm(ps', l) == v';
    TermAgrees(ps, ps', perm, l);
    BhAdjMonotone(ps, perm[i], perm[i], v, v');
  }
}
