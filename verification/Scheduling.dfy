/** Greedy scheduling: jobs in the given order, each onto the lightest machine. */
module Scheduling {

  function Zeros(n: nat): (z: seq<nat>)
    ensures |z| == n && forall m | 0 <= m < n :: z[m] == 0
  {
    seq(n, _ => 0)
  }

  /** The least load among the first `k` machines, the first of them on a tie. */
  function Lightest(load: seq<nat>, k: nat): (m: nat)
    requires 1 <= k <= |load|
    ensures m < k
    ensures forall i | 0 <= i < k :: load[m] <= load[i]
    ensures forall i | 0 <= i < m :: load[m] < load[i]
  {
    if k == 1 then 0
    else
      var m := Lightest(load, k - 1);
      if load[k - 1] < load[m] then k - 1 else m
  }

  /** The loads after the first `k` jobs. */
  function Loads(jobs: seq<nat>, machines: nat, k: nat): (load: seq<nat>)
    requires machines >= 1 && k <= |jobs|
    ensures |load| == machines
  {
    if k == 0 then Zeros(machines)
    else
      var load := Loads(jobs, machines, k - 1);
      var m := Lightest(load, machines);
      load[m := load[m] + jobs[k - 1]]
  }

  /** The machine each of the first `k` jobs goes to. */
  function Owners(jobs: seq<nat>, machines: nat, k: nat): (owners: seq<nat>)
    requires machines >= 1 && k <= |jobs|
    ensures |owners| == k && forall i | 0 <= i < k :: owners[i] < machines
  {
    if k == 0 then []
    else Owners(jobs, machines, k - 1) + [Lightest(Loads(jobs, machines, k - 1), machines)]
  }

  // ---------- sums by machine ----------

  function Sum(w: seq<nat>, k: nat): nat
    requires k <= |w|
  {
    if k == 0 then 0 else Sum(w, k - 1) + w[k - 1]
  }

  /** The sum of `w` over the first `k` jobs that `a` puts on machine `m`. */
  function GroupSum(w: seq<nat>, a: seq<nat>, m: nat, k: nat): nat
    requires k <= |w| && k <= |a|
  {
    if k == 0 then 0 else GroupSum(w, a, m, k - 1) + if a[k - 1] == m then w[k - 1] else 0
  }

  /** The sum of `GroupSum` over the first `n` machines. */
  function GroupsSum(w: seq<nat>, a: seq<nat>, n: nat, k: nat): nat
    requires k <= |w| && k <= |a|
  {
    if n == 0 then 0 else GroupsSum(w, a, n - 1, k) + GroupSum(w, a, n - 1, k)
  }

  lemma {:induction false} GroupsSumStep(w: seq<nat>, a: seq<nat>, n: nat, k: nat)
    requires k < |w| && k < |a|
    ensures GroupsSum(w, a, n, k + 1) == GroupsSum(w, a, n, k) + if a[k] < n then w[k] else 0
    decreases n
  {
    if n > 0 {
      GroupsSumStep(w, a, n - 1, k);
    }
  }

  /** Every job is on one machine. */
  lemma {:induction false} GroupsSumIsSum(w: seq<nat>, a: seq<nat>, n: nat, k: nat)
    requires k <= |w| && k <= |a| && forall i | 0 <= i < k :: a[i] < n
    ensures GroupsSum(w, a, n, k) == Sum(w, k)
    decreases k
  {
    if k == 0 {
      NoJobs(w, a, n);
    } else {
      GroupsSumIsSum(w, a, n, k - 1);
      GroupsSumStep(w, a, n, k - 1);
    }
  }

  lemma {:induction false} NoJobs(w: seq<nat>, a: seq<nat>, n: nat)
    ensures GroupsSum(w, a, n, 0) == 0
  {
    if n > 0 {
      NoJobs(w, a, n - 1);
    }
  }

  lemma {:induction false} GroupsSumAtMost(w: seq<nat>, a: seq<nat>, n: nat, k: nat, bound: nat)
    requires k <= |w| && k <= |a| && forall m | 0 <= m < n :: GroupSum(w, a, m, k) <= bound
    ensures GroupsSum(w, a, n, k) <= n * bound
    decreases n
  {
    if n > 0 {
      GroupsSumAtMost(w, a, n - 1, k, bound);
      assert n * bound == (n - 1) * bound + bound;
    }
  }

  lemma {:induction false} GroupsSumAtLeast(w: seq<nat>, a: seq<nat>, n: nat, k: nat, bound: nat)
    requires k <= |w| && k <= |a| && forall m | 0 <= m < n :: GroupSum(w, a, m, k) >= bound
    ensures GroupsSum(w, a, n, k) >= n * bound
    decreases n
  {
    if n > 0 {
      GroupsSumAtLeast(w, a, n - 1, k, bound);
      assert n * bound == (n - 1) * bound + bound;
    }
  }

  /** Weights that are the same for every job of a machine. */
  lemma {:induction false} GroupSumConstant(w: seq<nat>, ones: seq<nat>, a: seq<nat>, m: nat, k: nat, c: nat)
    requires k <= |w| && k <= |a| && k <= |ones|
    requires forall i | 0 <= i < k && a[i] == m :: w[i] == c && ones[i] == 1
    ensures GroupSum(w, a, m, k) == c * GroupSum(ones, a, m, k)
    decreases k
  {
    if k > 0 {
      GroupSumConstant(w, ones, a, m, k - 1, c);
      assert c * (GroupSum(ones, a, m, k - 1) + 1) == c * GroupSum(ones, a, m, k - 1) + c;
    }
  }

  /** Jobs of at least `c` each. */
  lemma {:induction false} GroupSumOfLarge(w: seq<nat>, ones: seq<nat>, a: seq<nat>, m: nat, k: nat, c: nat)
    requires k <= |w| && k <= |a| && k <= |ones|
    requires forall i | 0 <= i < k :: w[i] >= c && ones[i] == 1
    ensures GroupSum(w, a, m, k) >= c * GroupSum(ones, a, m, k)
    decreases k
  {
    if k > 0 {
      GroupSumOfLarge(w, ones, a, m, k - 1, c);
      assert c * (GroupSum(ones, a, m, k - 1) + 1) == c * GroupSum(ones, a, m, k - 1) + c;
    }
  }

  lemma {:induction false} GroupSumHasOne(w: seq<nat>, a: seq<nat>, m: nat, k: nat, i: nat)
    requires i < k <= |w| && k <= |a| && a[i] == m
    ensures GroupSum(w, a, m, k) >= w[i]
    decreases k
  {
    if i < k - 1 {
      GroupSumHasOne(w, a, m, k - 1, i);
    }
  }

  lemma {:induction false} GroupSumHasTwo(w: seq<nat>, a: seq<nat>, m: nat, k: nat, i: nat, j: nat)
    requires i < j < k <= |w| && k <= |a| && a[i] == m && a[j] == m
    ensures GroupSum(w, a, m, k) >= w[i] + w[j]
    decreases k
  {
    if j < k - 1 {
      GroupSumHasTwo(w, a, m, k - 1, i, j);
    } else {
      GroupSumHasOne(w, a, m, k - 1, i);
    }
  }

  lemma {:induction false} GroupSumOfOne(w: seq<nat>, a: seq<nat>, m: nat, k: nat, i: nat)
    requires k <= |w| && k <= |a| && i < |w| && i < |a| && a[i] == m
    requires forall j | 0 <= j < k && j != i :: a[j] != m
    ensures GroupSum(w, a, m, k) == if i < k then w[i] else 0
    decreases k
  {
    if k > 0 {
      GroupSumOfOne(w, a, m, k - 1, i);
    }
  }

  lemma {:induction false} GroupSumGrows(w: seq<nat>, a: seq<nat>, m: nat, k: nat, l: nat)
    requires k <= l <= |w| && l <= |a|
    ensures GroupSum(w, a, m, k) <= GroupSum(w, a, m, l)
    decreases l
  {
    if k < l {
      GroupSumGrows(w, a, m, k, l - 1);
    }
  }

  /** The loads are the sums of the jobs each machine owns. */
  lemma {:induction false} LoadsAreGroupSums(jobs: seq<nat>, machines: nat, k: nat, l: nat, m: nat)
    requires machines >= 1 && k <= l <= |jobs| && m < machines
    ensures Loads(jobs, machines, k)[m] == GroupSum(jobs, Owners(jobs, machines, l), m, k)
    decreases k
  {
    if k > 0 {
      LoadsAreGroupSums(jobs, machines, k - 1, l, m);
      OwnersAt(jobs, machines, k - 1, l);
    }
  }

  lemma {:induction false} OwnersAt(jobs: seq<nat>, machines: nat, i: nat, l: nat)
    requires machines >= 1 && i < l <= |jobs|
    ensures Owners(jobs, machines, l)[i] == Lightest(Loads(jobs, machines, i), machines)
    decreases l
  {
    if i < l - 1 {
      OwnersAt(jobs, machines, i, l - 1);
    }
  }

  // ---------- balance ----------

  /** Any two machines differ by at most the largest job. */
  lemma {:induction false} Balanced(jobs: seq<nat>, machines: nat, k: nat, largest: nat)
    requires machines >= 1 && k <= |jobs| && forall i | 0 <= i < k :: jobs[i] <= largest
    ensures forall m, m' | 0 <= m < machines && 0 <= m' < machines ::
              Loads(jobs, machines, k)[m] <= Loads(jobs, machines, k)[m'] + largest
    decreases k
  {
    if k > 0 {
      Balanced(jobs, machines, k - 1, largest);
    }
  }

  // ---------- the largest-first bound ----------

  predicate LargestFirst(jobs: seq<nat>) {
    forall i, j | 0 <= i < j < |jobs| :: jobs[i] >= jobs[j]
  }

  /** An assignment no machine of which carries more than `bound`. */
  ghost predicate Within(jobs: seq<nat>, rival: seq<nat>, machines: nat, bound: nat) {
    && |rival| == |jobs| && (forall i | 0 <= i < |jobs| :: rival[i] < machines)
    && forall m | 0 <= m < machines :: GroupSum(jobs, rival, m, |jobs|) <= bound
  }

  lemma WithinPrefix(jobs: seq<nat>, rival: seq<nat>, machines: nat, bound: nat, k: nat, m: nat)
    requires Within(jobs, rival, machines, bound) && k <= |jobs| && m < machines
    ensures GroupSum(jobs, rival, m, k) <= bound
  {
    GroupSumGrows(jobs, rival, m, k, |jobs|);
  }

  /** The lightest machine carries at most the average of a rival that has one job more. */
  lemma LightestIsBelowAverage(jobs: seq<nat>, rival: seq<nat>, machines: nat, bound: nat, k: nat)
    requires machines >= 1 && Within(jobs, rival, machines, bound) && k < |jobs|
    ensures var load := Loads(jobs, machines, k);
            machines * load[Lightest(load, machines)] + jobs[k] <= machines * bound
  {
    var load := Loads(jobs, machines, k);
    var least := load[Lightest(load, machines)];
    var owners := Owners(jobs, machines, |jobs|);
    forall m | 0 <= m < machines
      ensures GroupSum(jobs, owners, m, k) >= least
    {
      LoadsAreGroupSums(jobs, machines, k, |jobs|, m);
    }
    GroupsSumAtLeast(jobs, owners, machines, k, least);
    GroupsSumIsSum(jobs, owners, machines, k);
    var next := k + 1;
    forall m | 0 <= m < machines
      ensures GroupSum(jobs, rival, m, next) <= bound
    {
      WithinPrefix(jobs, rival, machines, bound, next, m);
    }
    GroupsSumAtMost(jobs, rival, machines, next, bound);
    GroupsSumIsSum(jobs, rival, machines, next);
  }

  /** Two for a job alone on its machine among the first `k`, one for any other. */
  function PairWeights(ones: seq<nat>, owners: seq<nat>, k: nat): (w: seq<nat>)
    requires k < |ones| && |ones| == |owners|
    ensures |w| == k + 1 && w[k] == 1
    ensures forall i | 0 <= i < k :: w[i] == if GroupSum(ones, owners, owners[i], k) == 1 then 2 else 1
  {
    seq(k + 1, i requires 0 <= i < k + 1 =>
      if i < k && GroupSum(ones, owners, owners[i], k) == 1 then 2 else 1)
  }

  /** Every machine of the greedy schedule counts two or more, a lone job counting twice. */
  lemma GreedyPairs(jobs: seq<nat>, rival: seq<nat>, machines: nat, bound: nat, k: nat, ones: seq<nat>)
    requires machines >= 1 && Within(jobs, rival, machines, bound) && k < |jobs|
    requires Loads(jobs, machines, k)[Lightest(Loads(jobs, machines, k), machines)] + jobs[k] > bound
    requires |ones| == |jobs| && forall i | 0 <= i < |jobs| :: ones[i] == 1
    ensures Sum(PairWeights(ones, Owners(jobs, machines, |jobs|), k), k) >= machines * 2
  {
    var owners := Owners(jobs, machines, |jobs|);
    var w := PairWeights(ones, owners, k);
    forall m | 0 <= m < machines
      ensures GroupSum(w, owners, m, k) >= 2
    {
      GreedyPair(jobs, rival, machines, bound, k, ones, m);
    }
    GroupsSumAtLeast(w, owners, machines, k, 2);
    GroupsSumIsSum(w, owners, machines, k);
  }

  /** No machine of the rival counts more than two. */
  lemma RivalPairs(jobs: seq<nat>, rival: seq<nat>, machines: nat, bound: nat, k: nat, ones: seq<nat>)
    requires machines >= 1 && Within(jobs, rival, machines, bound) && k < |jobs|
    requires forall i | 0 <= i < k :: jobs[i] >= jobs[k]
    requires 3 * jobs[k] > bound
    requires Loads(jobs, machines, k)[Lightest(Loads(jobs, machines, k), machines)] + jobs[k] > bound
    requires |ones| == |jobs| && forall i | 0 <= i < |jobs| :: ones[i] == 1
    ensures Sum(PairWeights(ones, Owners(jobs, machines, |jobs|), k), k + 1) <= machines * 2
  {
    var w := PairWeights(ones, Owners(jobs, machines, |jobs|), k);
    var next := k + 1;
    forall m | 0 <= m < machines
      ensures GroupSum(w, rival, m, next) <= 2
    {
      RivalPair(jobs, rival, machines, bound, k, ones, m);
    }
    GroupsSumAtMost(w, rival, machines, next, 2);
    GroupsSumIsSum(w, rival, machines, next);
  }

  /** Jobs of more than a third of the bound: a machine holds one or two of them, and counting a
      lone one twice, every machine of the greedy schedule counts two and one of a rival at most
      two. So a job that would overflow the lightest machine leaves the rival one short. */
  lemma LargeJobFits(jobs: seq<nat>, rival: seq<nat>, machines: nat, bound: nat, k: nat)
    requires machines >= 1 && Within(jobs, rival, machines, bound) && k < |jobs|
    requires forall i | 0 <= i < k :: jobs[i] >= jobs[k]
    requires 3 * jobs[k] > bound
    ensures var load := Loads(jobs, machines, k); load[Lightest(load, machines)] + jobs[k] <= bound
  {
    var load := Loads(jobs, machines, k);
    if load[Lightest(load, machines)] + jobs[k] > bound {
      var ones := seq(|jobs|, _ => 1);
      GreedyPairs(jobs, rival, machines, bound, k, ones);
      RivalPairs(jobs, rival, machines, bound, k, ones);
      assert false;
    }
  }

  lemma GreedyPair(jobs: seq<nat>, rival: seq<nat>, machines: nat, bound: nat, k: nat, ones: seq<nat>, m: nat)
    requires machines >= 1 && Within(jobs, rival, machines, bound) && k < |jobs| && m < machines
    requires Loads(jobs, machines, k)[Lightest(Loads(jobs, machines, k), machines)] + jobs[k] > bound
    requires |ones| == |jobs| && forall i | 0 <= i < |jobs| :: ones[i] == 1
    ensures GroupSum(PairWeights(ones, Owners(jobs, machines, |jobs|), k), Owners(jobs, machines, |jobs|), m, k) >= 2
  {
    var owners := Owners(jobs, machines, |jobs|);
    var w := PairWeights(ones, owners, k);
    var count := GroupSum(ones, owners, m, k);
    LoadsAreGroupSums(jobs, machines, k, |jobs|, m);
    if count == 0 {
      EmptyGroup(jobs, ones, owners, m, k);
      GroupSumHasOne(jobs, rival, rival[k], |jobs|, k);
      assert false;
    }
    GroupSumConstant(w, ones, owners, m, k, if count == 1 then 2 else 1);
  }

  lemma {:induction false} EmptyGroup(w: seq<nat>, ones: seq<nat>, a: seq<nat>, m: nat, k: nat)
    requires k <= |w| && k <= |a| && k <= |ones| && forall i | 0 <= i < k :: ones[i] == 1
    requires GroupSum(ones, a, m, k) == 0
    ensures GroupSum(w, a, m, k) == 0
    decreases k
  {
    if k > 0 {
      EmptyGroup(w, ones, a, m, k - 1);
    }
  }

  /** A lone job is its machine's whole load. */
  lemma LoneJob(jobs: seq<nat>, machines: nat, k: nat, ones: seq<nat>, i: nat)
    requires machines >= 1 && i < k <= |jobs|
    requires |ones| == |jobs| && forall j | 0 <= j < |jobs| :: ones[j] == 1
    requires var owners := Owners(jobs, machines, |jobs|); GroupSum(ones, owners, owners[i], k) == 1
    ensures jobs[i] == Loads(jobs, machines, k)[Owners(jobs, machines, |jobs|)[i]]
  {
    var owners := Owners(jobs, machines, |jobs|);
    var m := owners[i];
    forall j | 0 <= j < k && j != i
      ensures owners[j] != m
    {
      if owners[j] == m {
        GroupSumHasTwo(ones, owners, m, k, if i < j then i else j, if i < j then j else i);
      }
    }
    GroupSumOfOne(jobs, owners, m, k, i);
    LoadsAreGroupSums(jobs, machines, k, |jobs|, m);
  }

  /** In the rival a job that is alone in the greedy schedule is alone among the first `k + 1`. */
  lemma RivalLone(jobs: seq<nat>, rival: seq<nat>, machines: nat, bound: nat, k: nat, ones: seq<nat>, i: nat)
    requires machines >= 1 && Within(jobs, rival, machines, bound) && i < k < |jobs|
    requires forall j | 0 <= j < k :: jobs[j] >= jobs[k]
    requires Loads(jobs, machines, k)[Lightest(Loads(jobs, machines, k), machines)] + jobs[k] > bound
    requires |ones| == |jobs| && forall j | 0 <= j < |jobs| :: ones[j] == 1
    requires var owners := Owners(jobs, machines, |jobs|); GroupSum(ones, owners, owners[i], k) == 1
    ensures forall j | 0 <= j < k + 1 && j != i :: rival[j] != rival[i]
  {
    LoneJob(jobs, machines, k, ones, i);
    forall j | 0 <= j < k + 1 && j != i
      ensures rival[j] != rival[i]
    {
      if rival[j] == rival[i] {
        GroupSumHasTwo(jobs, rival, rival[i], |jobs|, if i < j then i else j, if i < j then j else i);
      }
    }
  }

  /** Large jobs fit on one machine of the rival at most two at a time. */
  lemma RivalCount(jobs: seq<nat>, rival: seq<nat>, machines: nat, bound: nat, k: nat, ones: seq<nat>, m: nat)
    requires Within(jobs, rival, machines, bound) && k < |jobs| && m < machines
    requires forall i | 0 <= i < k :: jobs[i] >= jobs[k]
    requires 3 * jobs[k] > bound
    requires |ones| == |jobs| && forall i | 0 <= i < |jobs| :: ones[i] == 1
    ensures GroupSum(ones, rival, m, k + 1) <= 2
  {
    WithinPrefix(jobs, rival, machines, bound, k + 1, m);
    GroupSumOfLarge(jobs, ones, rival, m, k + 1, jobs[k]);
  }

  lemma RivalPair(jobs: seq<nat>, rival: seq<nat>, machines: nat, bound: nat, k: nat, ones: seq<nat>, m: nat)
    requires machines >= 1 && Within(jobs, rival, machines, bound) && k < |jobs| && m < machines
    requires forall i | 0 <= i < k :: jobs[i] >= jobs[k]
    requires 3 * jobs[k] > bound
    requires Loads(jobs, machines, k)[Lightest(Loads(jobs, machines, k), machines)] + jobs[k] > bound
    requires |ones| == |jobs| && forall i | 0 <= i < |jobs| :: ones[i] == 1
    ensures GroupSum(PairWeights(ones, Owners(jobs, machines, |jobs|), k), rival, m, k + 1) <= 2
  {
    var w := PairWeights(ones, Owners(jobs, machines, |jobs|), k);
    if i :| 0 <= i < k && rival[i] == m && w[i] == 2 {
      RivalLone(jobs, rival, machines, bound, k, ones, i);
      GroupSumOfOne(w, rival, m, k + 1, i);
    } else {
      RivalCount(jobs, rival, machines, bound, k, ones, m);
      GroupSumConstant(w, ones, rival, m, k + 1, 1);
    }
  }

  /** While all jobs are larger than a third of the bound the greedy schedule stays within it. */
  lemma {:induction false} LargeJobsFit(jobs: seq<nat>, rival: seq<nat>, machines: nat, bound: nat, k: nat)
    requires machines >= 1 && Within(jobs, rival, machines, bound) && k <= |jobs| && LargestFirst(jobs)
    requires forall i | 0 <= i < k :: 3 * jobs[i] > bound
    ensures forall m | 0 <= m < machines :: Loads(jobs, machines, k)[m] <= bound
    decreases k
  {
    if k > 0 {
      LargeJobsFit(jobs, rival, machines, bound, k - 1);
      LargeJobFits(jobs, rival, machines, bound, k - 1);
    }
  }

  /** 4/3 - 1/(3N) of the bound, in whole numbers. */
  predicate WithinGraham(machines: nat, load: nat, bound: nat)
    requires machines >= 1
  {
    3 * machines * load <= (4 * machines - 1) * bound
  }

  /** Graham's bound: largest first, no machine carries more than 4/3 - 1/(3N) of what some
      machine of any other assignment carries. */
  lemma {:induction false} LargestFirstBound(jobs: seq<nat>, rival: seq<nat>, machines: nat, bound: nat, k: nat)
    requires machines >= 1 && Within(jobs, rival, machines, bound) && k <= |jobs| && LargestFirst(jobs)
    ensures forall m | 0 <= m < machines :: WithinGraham(machines, Loads(jobs, machines, k)[m], bound)
    decreases k
  {
    if k == 0 {
      ScaleUp(machines, 0, bound);
    } else if 3 * jobs[k - 1] > bound {
      LargeJobsFit(jobs, rival, machines, bound, k);
      forall m | 0 <= m < machines
        ensures WithinGraham(machines, Loads(jobs, machines, k)[m], bound)
      {
        ScaleUp(machines, Loads(jobs, machines, k)[m], bound);
      }
    } else {
      LargestFirstBound(jobs, rival, machines, bound, k - 1);
      LightestIsBelowAverage(jobs, rival, machines, bound, k - 1);
      var load := Loads(jobs, machines, k - 1);
      SmallJob(machines, load[Lightest(load, machines)], jobs[k - 1], bound);
    }
  }

  lemma ScaleUp(machines: nat, load: nat, bound: nat)
    requires machines >= 1 && load <= bound
    ensures WithinGraham(machines, load, bound)
  {
    assert 3 * machines * load <= 3 * machines * bound;
    assert (4 * machines - 1) * bound == 3 * machines * bound + (machines - 1) * bound;
    assert (machines - 1) * bound >= 0;
  }

  lemma SmallJob(machines: nat, least: nat, job: nat, bound: nat)
    requires machines >= 1 && machines * least + job <= machines * bound && 3 * job <= bound
    ensures WithinGraham(machines, least + job, bound)
  {
    assert 3 * machines * (least + job) == 3 * (machines * least + job) + 3 * (machines - 1) * job;
    assert 3 * (machines * least + job) <= 3 * (machines * bound);
    assert (machines - 1) * (3 * job) <= (machines - 1) * bound;
    assert (4 * machines - 1) * bound == 3 * (machines * bound) + (machines - 1) * bound;
  }
}
