/** Runs of a step function that stops: iteration, and stopping at the first state that is
    good enough. */
module Runs {
  import opened Text

  function Iterate<S>(step: S -> Option<S>, s: S, n: nat): S
    decreases n
  {
    if n == 0 then s
    else
      match step(s)
      case None => s
      case Some(next) => Iterate(step, next, n - 1)
  }

  ghost predicate Shrinking<S(!new)>(step: S -> Option<S>, measure: S -> nat) {
    forall s :: step(s).Some? ==> measure(step(s).value) < measure(s)
  }

  function Until<S(!new)>(step: S -> Option<S>, ghost measure: S -> nat, stop: S -> bool, s: S): S
    requires Shrinking(step, measure)
    decreases measure(s)
  {
    if stop(s) then s
    else
      match step(s)
      case None => s
      case Some(next) => Until(step, measure, stop, next)
  }

  lemma {:induction false} UntilEnds<S(!new)>(step: S -> Option<S>, measure: S -> nat, stop: S -> bool, s: S)
    requires Shrinking(step, measure)
    ensures var r := Until(step, measure, stop, s); stop(r) || step(r).None?
    decreases measure(s)
  {
    if !stop(s) && step(s).Some? {
      UntilEnds(step, measure, stop, step(s).value);
    }
  }

  /** `Until` stops at the first state of the run that is good enough. */
  lemma {:induction false} UntilIsIterate<S(!new)>(step: S -> Option<S>, measure: S -> nat, stop: S -> bool, s: S)
    returns (n: nat)
    requires Shrinking(step, measure)
    ensures Until(step, measure, stop, s) == Iterate(step, s, n)
    ensures forall m | 0 <= m < n :: !stop(Iterate(step, s, m)) && step(Iterate(step, s, m)).Some?
    decreases measure(s)
  {
    n := 0;
    if !stop(s) && step(s).Some? {
      var next := step(s).value;
      var k := UntilIsIterate(step, measure, stop, next);
      n := k + 1;
      assert forall m | 0 < m < n :: Iterate(step, s, m) == Iterate(step, next, m - 1);
    }
  }

  /** What every step keeps, every run keeps. */
  lemma {:induction false} IterateKeeps<S(!new)>(step: S -> Option<S>, inv: S -> bool, s: S, n: nat)
    requires inv(s) && forall x :: inv(x) && step(x).Some? ==> inv(step(x).value)
    ensures inv(Iterate(step, s, n))
    decreases n
  {
    if n > 0 && step(s).Some? {
      IterateKeeps(step, inv, step(s).value, n - 1);
    }
  }

  /** What every step brings about holds after every run of one step or more. */
  lemma IterateBrings<S(!new)>(step: S -> Option<S>, inv: S -> bool, s: S, n: nat)
    requires n > 0 && step(s).Some? && forall x :: step(x).Some? ==> inv(step(x).value)
    ensures inv(Iterate(step, s, n))
  {
    IterateKeeps(step, inv, step(s).value, n - 1);
  }

  /** A preorder every step goes down along is one the whole run goes down along. */
  lemma {:induction false} IterateDescends<S(!new)>(
    step: S -> Option<S>, inv: S -> bool, below: (S, S) -> bool, s: S, n: nat, m: nat)
    requires n <= m && inv(s)
    requires forall x :: inv(x) && step(x).Some? ==> inv(step(x).value) && below(step(x).value, x)
    requires forall x :: below(x, x)
    requires forall x, y, z :: below(x, y) && below(y, z) ==> below(x, z)
    ensures below(Iterate(step, s, m), Iterate(step, s, n))
    decreases m
  {
    if m > 0 && step(s).Some? {
      var next := step(s).value;
      if n > 0 {
        IterateDescends(step, inv, below, next, n - 1, m - 1);
      } else {
        IterateDescends(step, inv, below, next, 0, m - 1);
        assert below(Iterate(step, next, m - 1), next) && below(next, s);
      }
    }
  }

  /** One step, and the run from there. */
  lemma IterateFirst<S>(step: S -> Option<S>, s: S, n: nat)
    requires step(s).Some?
    ensures Iterate(step, s, n + 1) == Iterate(step, step(s).value, n)
  {}

  /** One step more, and the steps before it. */
  lemma {:induction false} IterateLast<S(!new)>(step: S -> Option<S>, s: S, n: nat)
    requires step(Iterate(step, s, n)).Some?
    ensures Iterate(step, s, n + 1) == step(Iterate(step, s, n)).value
    ensures forall m | 0 <= m <= n :: step(Iterate(step, s, m)).Some?
    decreases n
  {
    if n > 0 && step(s).Some? {
      var next := step(s).value;
      IterateLast(step, next, n - 1);
      assert forall m | 0 < m <= n :: Iterate(step, s, m) == Iterate(step, next, m - 1);
    }
  }

  /** A run that can go no further stands still. */
  lemma {:induction false} IterateStuck<S>(step: S -> Option<S>, s: S, n: nat, m: nat)
    requires n <= m && step(Iterate(step, s, n)).None?
    ensures Iterate(step, s, m) == Iterate(step, s, n)
    decreases n
  {
    if n > 0 && step(s).Some? {
      IterateStuck(step, step(s).value, n - 1, m - 1);
    }
  }

  /** A change the step does not see stays unseen along the run. */
  lemma {:induction false} IterateCommutes<S(!new)>(step: S -> Option<S>, f: S -> S, s: S, n: nat)
    requires forall x :: step(f(x)) == match step(x) case None => None case Some(next) => Some(f(next))
    ensures Iterate(step, f(s), n) == f(Iterate(step, s, n))
    decreases n
  {
    if n > 0 && step(s).Some? {
      IterateCommutes(step, f, step(s).value, n - 1);
    }
  }
}
