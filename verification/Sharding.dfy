/** Shards that keep one repository in one shard (`eval/external/sharding.py`): largest first
    onto the lightest shard, ties by name and by index. */
module Sharding {
  import opened Text
  import opened Scheduling
  import opened Sorting

  datatype Result<+T> = Ok(value: T) | ValueError

  // ---------- the order of the repositories ----------

  /** Repository `a` is placed before repository `b`: the larger count, then the lesser name. */
  predicate Sooner(counts: map<string, nat>, a: string, b: string)
    requires a in counts && b in counts
  {
    counts[a] > counts[b] || (counts[a] == counts[b] && Less(a, b))
  }

  ghost predicate Sorted(counts: map<string, nat>, order: seq<string>) {
    && (forall i | 0 <= i < |order| :: order[i] in counts)
    && (forall i, j | 0 <= i < j < |order| :: Sooner(counts, order[i], order[j]))
  }

  /** `order` lists the repositories, as `sorted` returns them. */
  ghost predicate Enumerates(counts: map<string, nat>, order: seq<string>) {
    Sorted(counts, order) && forall r :: r in counts <==> r in order
  }

  lemma SoonerIsTotal(counts: map<string, nat>, a: string, b: string)
    requires a in counts && b in counts
    ensures a != b ==> (Sooner(counts, a, b) <==> !Sooner(counts, b, a))
    ensures !Sooner(counts, a, a)
  {
    LessIsTotal(a, b);
    LessIsIrreflexive(a);
  }

  lemma SoonerIsTransitive(counts: map<string, nat>, a: string, b: string, c: string)
    requires a in counts && b in counts && c in counts && Sooner(counts, a, b) && Sooner(counts, b, c)
    ensures Sooner(counts, a, c)
  {
    if counts[a] == counts[b] == counts[c] {
      LessIsTransitive(a, b, c);
    }
  }

  /** The same counts are always listed in the same order. */
  lemma {:induction false} OrderIsUnique(counts: map<string, nat>, a: seq<string>, b: seq<string>)
    requires Sorted(counts, a) && Sorted(counts, b) && forall r :: r in a <==> r in b
    ensures a == b
    decreases |a|
  {
    assert |b| > 0 ==> b[0] in b && (b[0] in b <==> b[0] in a);
    if a == [] {
      assert |b| == 0;
    } else {
      assert a[0] in b && b != [] && b[0] in b && b[0] in a;
      var i :| 0 <= i < |b| && b[i] == a[0];
      var j :| 0 <= j < |a| && a[j] == b[0];
      SoonerIsTotal(counts, a[0], b[0]);
      assert a[0] == b[0];
      forall r
        ensures r in a[1..] <==> r in b[1..]
      {
        SoonerIsTotal(counts, a[0], a[0]);
        assert r in a <==> r == a[0] || r in a[1..];
        assert r in b <==> r == b[0] || r in b[1..];
        assert a[0] !in a[1..] && b[0] !in b[1..];
      }
      OrderIsUnique(counts, a[1..], b[1..]);
      assert a == [a[0]] + a[1..] && b == [b[0]] + b[1..];
    }
  }

  method SortRepos(counts: map<string, nat>) returns (order: seq<string>)
    ensures forall r :: r in order <==> r in counts
    ensures forall i, j | 0 <= i < j < |order| ::
              || counts[order[i]] > counts[order[j]]
              || (counts[order[i]] == counts[order[j]] && Less(order[i], order[j]))
    ensures Enumerates(counts, order)
  {
    var before := (a: string, b: string) => a in counts && b in counts && Sooner(counts, a, b);
    forall a, b, c | a in counts && b in counts && c in counts && before(a, b) && before(b, c)
      ensures before(a, c)
    {
      SoonerIsTransitive(counts, a, b, c);
    }
    forall a, b | a in counts && b in counts
      ensures !before(a, a) && (a != b ==> before(a, b) || before(b, a))
    {
      SoonerIsTotal(counts, a, b);
    }
    order := Sort(counts.Keys, before);
    assert forall i | 0 <= i < |order| :: order[i] in order;
  }

  // ---------- the assignment ----------

  /** The counts in placing order: the jobs of the greedy schedule. */
  function Jobs(counts: map<string, nat>, order: seq<string>): (jobs: seq<nat>)
    requires forall i | 0 <= i < |order| :: order[i] in counts
    ensures |jobs| == |order| && forall i | 0 <= i < |order| :: jobs[i] == counts[order[i]]
  {
    seq(|order|, i requires 0 <= i < |order| => counts[order[i]])
  }

  method FindLightest(load: seq<nat>) returns (lightest: nat)
    requires |load| >= 1
    ensures lightest == Lightest(load, |load|)
  {
    lightest := 0;
    for i := 1 to |load|
      invariant lightest == Lightest(load, i)
    {
      if load[i] < load[lightest] {
        lightest := i;
      }
    }
  }

  /** Every repository's owner is the greedy schedule's. */
  ghost predicate Greedy(counts: map<string, nat>, order: seq<string>, shards: nat, owner: map<string, nat>) {
    && shards >= 1 && Enumerates(counts, order)
    && owner.Keys == counts.Keys
    && forall i | 0 <= i < |order| :: order[i] in owner
         && owner[order[i]] == Owners(Jobs(counts, order), shards, |order|)[i]
  }

  /** The first `k` repositories of the order are placed as the greedy schedule of their counts
      places them. */
  ghost predicate Placed(counts: map<string, nat>, order: seq<string>, jobs: seq<nat>, shards: nat, k: nat,
                         load: seq<nat>, owner: map<string, nat>)
    requires shards >= 1 && k <= |jobs|
  {
    load == Loads(jobs, shards, k) && Owned(counts, order, owner, Owners(jobs, shards, k))
  }

  ghost predicate Owned(counts: map<string, nat>, order: seq<string>, owner: map<string, nat>, owners: seq<nat>) {
    && |owners| <= |order| && owner.Keys <= counts.Keys
    && forall i | 0 <= i < |owners| :: order[i] in owner && owner[order[i]] == owners[i]
  }

  lemma OwnedNext(counts: map<string, nat>, order: seq<string>, owner: map<string, nat>, owners: seq<nat>, m: nat)
    requires Sorted(counts, order) && Owned(counts, order, owner, owners) && |owners| < |order|
    ensures Owned(counts, order, owner[order[|owners|] := m], owners + [m])
  {
    SortedIsDistinct(counts, order);
  }

  lemma GreedyStep(jobs: seq<nat>, machines: nat, k: nat, load: seq<nat>, m: nat)
    requires machines >= 1 && k < |jobs| && load == Loads(jobs, machines, k) && m == Lightest(load, machines)
    ensures Owners(jobs, machines, k + 1) == Owners(jobs, machines, k) + [m]
    ensures Loads(jobs, machines, k + 1) == load[m := load[m] + jobs[k]]
  {
  }

  lemma PlacedNext(counts: map<string, nat>, order: seq<string>, jobs: seq<nat>, shards: nat, k: nat,
                   load: seq<nat>, owner: map<string, nat>, m: nat)
    requires shards >= 1 && Sorted(counts, order) && k < |jobs| == |order| && jobs[k] == counts[order[k]]
    requires Placed(counts, order, jobs, shards, k, load, owner) && m == Lightest(load, shards)
    ensures Placed(counts, order, jobs, shards, k + 1, load[m := load[m] + jobs[k]], owner[order[k] := m])
  {
    OwnedBy(counts, order, owner, Owners(jobs, shards, k), k, m);
    GreedyStep(jobs, shards, k, load, m);
  }

  lemma OwnedBy(counts: map<string, nat>, order: seq<string>, owner: map<string, nat>, owners: seq<nat>, k: nat, m: nat)
    requires Sorted(counts, order) && Owned(counts, order, owner, owners) && |owners| == k < |order|
    ensures Owned(counts, order, owner[order[k] := m], owners + [m])
  {
    OwnedNext(counts, order, owner, owners, m);
  }

  lemma PlacedAll(counts: map<string, nat>, order: seq<string>, shards: nat, load: seq<nat>, owner: map<string, nat>)
    requires shards >= 1 && Enumerates(counts, order)
    requires Placed(counts, order, Jobs(counts, order), shards, |order|, load, owner)
    ensures Greedy(counts, order, shards, owner)
  {
  }

  method PlaceAll(counts: map<string, nat>, order: seq<string>, ghost jobs: seq<nat>, shards: nat)
    returns (load: seq<nat>, owner: map<string, nat>)
    requires shards >= 1 && Sorted(counts, order) && jobs == Jobs(counts, order)
    ensures Placed(counts, order, jobs, shards, |order|, load, owner)
  {
    load := Zeros(shards);
    owner := map[];
    for k := 0 to |order|
      invariant |load| == shards && Placed(counts, order, jobs, shards, k, load, owner)
    {
      var lightest := FindLightest(load);
      PlacedNext(counts, order, jobs, shards, k, load, owner, lightest);
      owner := owner[order[k] := lightest];
      load := load[lightest := load[lightest] + counts[order[k]]];
    }
  }

  method AssignRepos(counts: map<string, nat>, shards: int) returns (r: Result<map<string, nat>>)
    ensures shards < 1 <==> r == ValueError
    ensures r.Ok? ==> exists order :: Greedy(counts, order, shards, r.value)
  {
    if shards < 1 {
      return ValueError;
    }
    var order := SortRepos(counts);
    var load, owner := PlaceAll(counts, order, Jobs(counts, order), shards);
    PlacedAll(counts, order, shards, load, owner);
    return Ok(owner);
  }

  lemma SortedIsDistinct(counts: map<string, nat>, order: seq<string>)
    requires Sorted(counts, order)
    ensures forall i, j | 0 <= i < j < |order| :: order[i] != order[j]
  {
    forall i, j | 0 <= i < j < |order|
      ensures order[i] != order[j]
    {
      SoonerIsTotal(counts, order[i], order[i]);
    }
  }

  // ---------- what the assignment promises ----------

  /** The items of the repositories `owner` puts on a shard. */
  function ShardLoad(counts: map<string, nat>, order: seq<string>, owner: map<string, nat>, shard: nat): nat
    requires forall i | 0 <= i < |order| :: order[i] in counts && order[i] in owner
  {
    if order == [] then 0
    else
      var last := order[|order| - 1];
      ShardLoad(counts, order[..|order| - 1], owner, shard) + if owner[last] == shard then counts[last] else 0
  }

  /** The owners of the repositories in placing order. */
  function OwnersOf(owner: map<string, nat>, order: seq<string>): (owners: seq<nat>)
    requires forall i | 0 <= i < |order| :: order[i] in owner
    ensures |owners| == |order| && forall i | 0 <= i < |order| :: owners[i] == owner[order[i]]
  {
    seq(|order|, i requires 0 <= i < |order| => owner[order[i]])
  }

  lemma {:induction false} ShardLoadIsGroupSum(counts: map<string, nat>, order: seq<string>, owner: map<string, nat>,
                                               shard: nat, k: nat)
    requires k <= |order| && forall i | 0 <= i < |order| :: order[i] in counts && order[i] in owner
    ensures ShardLoad(counts, order[..k], owner, shard)
         == GroupSum(Jobs(counts, order), OwnersOf(owner, order), shard, k)
    decreases k
  {
    if k > 0 {
      ShardLoadIsGroupSum(counts, order, owner, shard, k - 1);
      assert order[..k][..k - 1] == order[..k - 1];
    }
  }

  lemma GreedyLoads(counts: map<string, nat>, order: seq<string>, shards: nat, owner: map<string, nat>, shard: nat)
    requires Greedy(counts, order, shards, owner) && shard < shards
    ensures ShardLoad(counts, order, owner, shard) == Loads(Jobs(counts, order), shards, |order|)[shard]
  {
    ShardLoadIsGroupSum(counts, order, owner, shard, |order|);
    assert order[..|order|] == order;
    assert OwnersOf(owner, order) == Owners(Jobs(counts, order), shards, |order|);
    LoadsAreGroupSums(Jobs(counts, order), shards, |order|, |order|, shard);
  }

  /** Any two shards differ by at most the largest repository count. */
  lemma ShardsAreBalanced(counts: map<string, nat>, order: seq<string>, shards: nat, owner: map<string, nat>,
                          a: nat, b: nat, largest: nat)
    requires Greedy(counts, order, shards, owner) && a < shards && b < shards
    requires forall r | r in counts :: counts[r] <= largest
    ensures ShardLoad(counts, order, owner, a) <= ShardLoad(counts, order, owner, b) + largest
  {
    GreedyLoads(counts, order, shards, owner, a);
    GreedyLoads(counts, order, shards, owner, b);
    Balanced(Jobs(counts, order), shards, |order|, largest);
  }

  lemma RivalIsWithin(counts: map<string, nat>, order: seq<string>, shards: nat, rival: map<string, nat>, bound: nat)
    requires rival.Keys == counts.Keys && forall r | r in rival :: rival[r] < shards
    requires forall i | 0 <= i < |order| :: order[i] in counts && order[i] in rival
    requires forall m | 0 <= m < shards :: ShardLoad(counts, order, rival, m) <= bound
    ensures Within(Jobs(counts, order), OwnersOf(rival, order), shards, bound)
  {
    var jobs, owners := Jobs(counts, order), OwnersOf(rival, order);
    forall m | 0 <= m < shards
      ensures GroupSum(jobs, owners, m, |jobs|) <= bound
    {
      ShardLoadIsGroupSum(counts, order, rival, m, |order|);
      assert order[..|order|] == order;
    }
  }

  /** The heaviest shard is within 4/3 - 1/(3N), and so within 2 - 1/N, of the heaviest shard of
      any other assignment. */
  lemma ShardsAreNearOptimal(counts: map<string, nat>, order: seq<string>, shards: nat, owner: map<string, nat>,
                             rival: map<string, nat>, bound: nat, shard: nat)
    requires Greedy(counts, order, shards, owner) && shard < shards
    requires rival.Keys == counts.Keys && forall r | r in rival :: rival[r] < shards
    requires forall i | 0 <= i < |order| :: order[i] in counts && order[i] in rival
    requires forall m | 0 <= m < shards :: ShardLoad(counts, order, rival, m) <= bound
    ensures 3 * shards * ShardLoad(counts, order, owner, shard) <= (4 * shards - 1) * bound
    ensures shards * ShardLoad(counts, order, owner, shard) <= (2 * shards - 1) * bound
  {
    var jobs, owners := Jobs(counts, order), OwnersOf(rival, order);
    RivalIsWithin(counts, order, shards, rival, bound);
    LargestFirstBound(jobs, owners, shards, bound, |jobs|);
    GreedyLoads(counts, order, shards, owner, shard);
    WeakerBound(shards, ShardLoad(counts, order, owner, shard), bound);
  }

  lemma WeakerBound(shards: nat, load: nat, bound: nat)
    requires shards >= 1 && WithinGraham(shards, load, bound)
    ensures shards * load <= (2 * shards - 1) * bound
  {
    assert 3 * ((2 * shards - 1) * bound) == (4 * shards - 1) * bound + (2 * shards - 2) * bound;
    assert (2 * shards - 2) * bound >= 0;
    assert 3 * (shards * load) == 3 * shards * load;
  }

  // ---------- the items of a shard ----------

  function CountRepos<T>(items: seq<T>, repoOf: T -> string): map<string, nat> {
    if items == [] then map[]
    else
      var m := CountRepos(items[..|items| - 1], repoOf);
      var r := repoOf(items[|items| - 1]);
      m[r := (if r in m then m[r] else 0) + 1]
  }

  lemma {:induction false} CountReposHas<T>(items: seq<T>, repoOf: T -> string, i: nat)
    requires i < |items|
    ensures repoOf(items[i]) in CountRepos(items, repoOf)
    decreases |items|
  {
    if i < |items| - 1 {
      CountReposHas(items[..|items| - 1], repoOf, i);
    }
  }

  /** The positions of the items of a repository among the first `n`. */
  ghost function At<T>(items: seq<T>, repoOf: T -> string, r: string, n: nat): set<nat>
    requires n <= |items|
  {
    set i: nat | i < n && repoOf(items[i]) == r
  }

  lemma {:induction false} CountReposCounts<T>(items: seq<T>, repoOf: T -> string, r: string)
    ensures (if r in CountRepos(items, repoOf) then CountRepos(items, repoOf)[r] else 0)
         == |At(items, repoOf, r, |items|)|
    ensures r in CountRepos(items, repoOf) <==> exists i :: 0 <= i < |items| && repoOf(items[i]) == r
    decreases |items|
  {
    if items == [] {
      assert At(items, repoOf, r, 0) == {};
    } else {
      var n := |items| - 1;
      CountReposCounts(items[..n], repoOf, r);
      assert At(items[..n], repoOf, r, n) == At(items, repoOf, r, n);
      AtNext(items, repoOf, r, n);
      assert forall i | 0 <= i < n :: items[..n][i] == items[i];
    }
  }

  lemma AtNext<T>(items: seq<T>, repoOf: T -> string, r: string, n: nat)
    requires n < |items|
    ensures |At(items, repoOf, r, n + 1)| == |At(items, repoOf, r, n)| + if repoOf(items[n]) == r then 1 else 0
  {
    var before := At(items, repoOf, r, n);
    if repoOf(items[n]) == r {
      assert At(items, repoOf, r, n + 1) == before + {n};
      OneMore(before, n);
    } else {
      assert At(items, repoOf, r, n + 1) == before;
    }
  }

  lemma OneMore(xs: set<nat>, x: nat)
    requires x !in xs
    ensures |xs + {x}| == |xs| + 1
  {
  }

  method Counter<T>(items: seq<T>, repoOf: T -> string) returns (counts: map<string, nat>)
    ensures forall r :: r in counts <==> exists i :: 0 <= i < |items| && repoOf(items[i]) == r
    ensures forall r | r in counts :: counts[r] == |At(items, repoOf, r, |items|)|
    ensures counts == CountRepos(items, repoOf)
  {
    counts := map[];
    for i := 0 to |items|
      invariant counts == CountRepos(items[..i], repoOf)
    {
      var r := repoOf(items[i]);
      counts := counts[r := (if r in counts then counts[r] else 0) + 1];
      assert items[..i + 1][..i] == items[..i];
    }
    assert items[..|items|] == items;
    forall r
      ensures (if r in counts then counts[r] else 0) == |At(items, repoOf, r, |items|)|
      ensures r in counts <==> exists i :: 0 <= i < |items| && repoOf(items[i]) == r
    {
      CountReposCounts(items, repoOf, r);
    }
  }

  /** `picked` is `items` at exactly the increasing positions that `owner` gives to `index`. */
  ghost predicate PicksShard<T>(items: seq<T>, repoOf: T -> string, owner: map<string, nat>, index: nat,
                                picked: seq<T>, at: seq<nat>) {
    && |picked| == |at|
    && (forall k | 0 <= k < |at| :: at[k] < |items| && picked[k] == items[at[k]])
    && (forall k, l | 0 <= k < l < |at| :: at[k] < at[l])
    && (forall i | 0 <= i < |items| :: repoOf(items[i]) in owner && (i in at <==> owner[repoOf(items[i])] == index))
  }

  method Select<T>(items: seq<T>, repoOf: T -> string, owner: map<string, nat>, index: nat) returns (picked: seq<T>)
    requires forall i | 0 <= i < |items| :: repoOf(items[i]) in owner
    ensures exists at :: PicksShard(items, repoOf, owner, index, picked, at)
  {
    picked := [];
    ghost var at: seq<nat> := [];
    for i := 0 to |items|
      invariant |picked| == |at|
      invariant forall k | 0 <= k < |at| :: at[k] < i && picked[k] == items[at[k]]
      invariant forall k, l | 0 <= k < l < |at| :: at[k] < at[l]
      invariant forall j | 0 <= j < i :: j in at <==> owner[repoOf(items[j])] == index
    {
      if owner[repoOf(items[i])] == index {
        picked := picked + [items[i]];
        at := at + [i];
      }
    }
    assert PicksShard(items, repoOf, owner, index, picked, at);
  }

  /** The items of one shard of the greedy assignment. */
  ghost predicate IsShard<T>(items: seq<T>, repoOf: T -> string, shards: nat, index: nat, picked: seq<T>,
                             order: seq<string>, owner: map<string, nat>, at: seq<nat>) {
    Greedy(CountRepos(items, repoOf), order, shards, owner) && PicksShard(items, repoOf, owner, index, picked, at)
  }

  method ShardItems<T>(items: seq<T>, repoOf: T -> string, shards: int, index: int) returns (r: Result<seq<T>>)
    ensures r == ValueError <==> !(0 <= index < shards)
    ensures r.Ok? ==> exists order, owner, at :: IsShard(items, repoOf, shards, index, r.value, order, owner, at)
  {
    if !(0 <= index < shards) {
      return ValueError;
    }
    var counts := Counter(items, repoOf);
    var result := AssignRepos(counts, shards);
    ghost var order :| Greedy(counts, order, shards, result.value);
    forall i | 0 <= i < |items|
      ensures repoOf(items[i]) in result.value
    {
      CountReposHas(items, repoOf, i);
    }
    var picked := Select(items, repoOf, result.value, index);
    ghost var at :| PicksShard(items, repoOf, result.value, index, picked, at);
    assert IsShard(items, repoOf, shards, index, picked, order, result.value, at);
    r := Ok(picked);
  }

  // ---------- how many items a shard has ----------

  /** The positions among the first `n` whose repository is the shard's. */
  ghost function Owns<T>(items: seq<T>, repoOf: T -> string, owner: map<string, nat>, shard: nat, n: nat): set<nat>
    requires n <= |items|
  {
    set i: nat | i < n && repoOf(items[i]) in owner && owner[repoOf(items[i])] == shard
  }

  /** The same positions, repository by repository. */
  ghost function OwnsOf<T>(items: seq<T>, repoOf: T -> string, order: seq<string>, owner: map<string, nat>,
                           shard: nat): set<nat>
    requires forall i | 0 <= i < |order| :: order[i] in owner
  {
    if order == [] then {}
    else
      var last := order[|order| - 1];
      OwnsOf(items, repoOf, order[..|order| - 1], owner, shard)
      + if owner[last] == shard then At(items, repoOf, last, |items|) else {}
  }

  lemma {:induction false} OwnsOfHas<T>(items: seq<T>, repoOf: T -> string, order: seq<string>,
                                        owner: map<string, nat>, shard: nat, i: nat)
    requires forall k | 0 <= k < |order| :: order[k] in owner
    ensures i in OwnsOf(items, repoOf, order, owner, shard)
       <==> i < |items| && repoOf(items[i]) in order && owner[repoOf(items[i])] == shard
    decreases |order|
  {
    if order != [] {
      var init, last := order[..|order| - 1], order[|order| - 1];
      OwnsOfHas(items, repoOf, init, owner, shard, i);
      assert order == init + [last];
    }
  }

  lemma {:induction false} OwnsOfCounts<T>(items: seq<T>, repoOf: T -> string, counts: map<string, nat>,
                                           order: seq<string>, owner: map<string, nat>, shard: nat)
    requires counts == CountRepos(items, repoOf) && Sorted(counts, order)
    requires forall i | 0 <= i < |order| :: order[i] in counts && order[i] in owner
    ensures |OwnsOf(items, repoOf, order, owner, shard)| == ShardLoad(counts, order, owner, shard)
    decreases |order|
  {
    if order != [] {
      var init, last := order[..|order| - 1], order[|order| - 1];
      OwnsOfCounts(items, repoOf, counts, init, owner, shard);
      CountReposCounts(items, repoOf, last);
      if owner[last] == shard {
        LastIsNew(items, repoOf, counts, order, owner, shard);
      } else {
        assert OwnsOf(items, repoOf, init, owner, shard) + {} == OwnsOf(items, repoOf, init, owner, shard);
      }
    }
  }

  lemma LastIsNew<T>(items: seq<T>, repoOf: T -> string, counts: map<string, nat>, order: seq<string>,
                     owner: map<string, nat>, shard: nat)
    requires order != [] && Sorted(counts, order) && forall i | 0 <= i < |order| :: order[i] in owner
    ensures var (before, own) := (OwnsOf(items, repoOf, order[..|order| - 1], owner, shard),
                                  At(items, repoOf, order[|order| - 1], |items|));
            |before + own| == |before| + |own|
  {
    var init, last := order[..|order| - 1], order[|order| - 1];
    var (before, own) := (OwnsOf(items, repoOf, init, owner, shard), At(items, repoOf, last, |items|));
    SortedIsDistinct(counts, order);
    forall i | i in before
      ensures i !in own
    {
      OwnsOfHas(items, repoOf, init, owner, shard, i);
    }
  }

  /** A shard has as many items as its repositories count. */
  lemma ShardSize<T>(items: seq<T>, repoOf: T -> string, shards: nat, index: nat, picked: seq<T>,
                     order: seq<string>, owner: map<string, nat>, at: seq<nat>)
    requires IsShard(items, repoOf, shards, index, picked, order, owner, at)
    ensures |picked| == ShardLoad(CountRepos(items, repoOf), order, owner, index)
  {
    var counts := CountRepos(items, repoOf);
    OwnsOfCounts(items, repoOf, counts, order, owner, index);
    forall i: nat
      ensures i in OwnsOf(items, repoOf, order, owner, index) <==> i in at
    {
      OwnsOfHas(items, repoOf, order, owner, index, i);
      if i < |items| {
        CountReposHas(items, repoOf, i);
      }
    }
    assert Positions(at) == OwnsOf(items, repoOf, order, owner, index);
    IncreasingCount(at);
  }

  ghost function Positions(at: seq<nat>): set<nat> { set i | i in at }

  lemma {:induction false} IncreasingCount(at: seq<nat>)
    requires forall k, l | 0 <= k < l < |at| :: at[k] < at[l]
    ensures |Positions(at)| == |at|
    decreases |at|
  {
    if at == [] {
      assert Positions(at) == {};
    } else {
      var init, last := at[..|at| - 1], at[|at| - 1];
      IncreasingCount(init);
      assert at == init + [last];
      assert Positions(at) == Positions(init) + {last} && last !in Positions(init);
    }
  }

  lemma SameOwners(counts: map<string, nat>, a: seq<string>, b: seq<string>, shards: nat,
                   x: map<string, nat>, y: map<string, nat>)
    requires Greedy(counts, a, shards, x) && Greedy(counts, b, shards, y)
    ensures a == b && x == y
  {
    OrderIsUnique(counts, a, b);
    forall r | r in counts
      ensures x[r] == y[r]
    {
      assert r in a;
      var k :| 0 <= k < |a| && a[k] == r;
    }
  }

  /** The numbers of items of any two shards differ by at most those of the largest repository. */
  lemma ShardSizesAreBalanced<T>(items: seq<T>, repoOf: T -> string, shards: nat, a: nat, b: nat,
                                 x: seq<T>, y: seq<T>, orders: (seq<string>, seq<string>),
                                 owners: (map<string, nat>, map<string, nat>), at: (seq<nat>, seq<nat>), largest: nat)
    requires a < shards && b < shards
    requires IsShard(items, repoOf, shards, a, x, orders.0, owners.0, at.0)
    requires IsShard(items, repoOf, shards, b, y, orders.1, owners.1, at.1)
    requires forall r :: |At(items, repoOf, r, |items|)| <= largest
    ensures |x| <= |y| + largest
  {
    var counts := CountRepos(items, repoOf);
    ShardSize(items, repoOf, shards, a, x, orders.0, owners.0, at.0);
    ShardSize(items, repoOf, shards, b, y, orders.1, owners.1, at.1);
    SameOwners(counts, orders.0, orders.1, shards, owners.0, owners.1);
    forall r | r in counts
      ensures counts[r] <= largest
    {
      CountReposCounts(items, repoOf, r);
    }
    ShardsAreBalanced(counts, orders.0, shards, owners.0, a, b, largest);
  }

  /** Over all indices the shards partition the items: two runs agree on every owner, so each
      position lies in exactly the shard of its repository. */
  lemma ShardsPartition<T>(items: seq<T>, repoOf: T -> string, shards: nat,
                           orders: seq<seq<string>>, owners: seq<map<string, nat>>,
                           picked: seq<seq<T>>, at: seq<seq<nat>>, i: nat)
    returns (shard: nat)
    requires |orders| == |owners| == |picked| == |at| == shards && shards >= 1 && i < |items|
    requires forall x | 0 <= x < shards :: IsShard(items, repoOf, shards, x, picked[x], orders[x], owners[x], at[x])
    ensures shard < shards
    ensures forall x | 0 <= x < shards :: i in at[x] <==> x == shard
    ensures forall j | 0 <= j < |items| && repoOf(items[j]) == repoOf(items[i]) :: j in at[shard]
  {
    var counts, r := CountRepos(items, repoOf), repoOf(items[i]);
    CountReposHas(items, repoOf, i);
    assert r in orders[0];
    var k :| 0 <= k < |orders[0]| && orders[0][k] == r;
    shard := owners[0][r];
    assert shard == Owners(Jobs(counts, orders[0]), shards, |orders[0]|)[k];
    forall x | 0 <= x < shards
      ensures owners[x][r] == shard
    {
      OrderIsUnique(counts, orders[0], orders[x]);
    }
  }
}
