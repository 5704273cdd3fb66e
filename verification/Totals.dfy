/** Sums over lists and over sets of keys, and how a list's total splits by a classification. */
module Totals {

  /** The weight of the elements that satisfy `p`. */
  ghost function Total<T(!new)>(xs: seq<T>, w: T -> real, p: T -> bool): real {
    if xs == [] then 0.0
    else Total(xs[..|xs| - 1], w, p) + if p(xs[|xs| - 1]) then w(xs[|xs| - 1]) else 0.0
  }

  ghost function Both<T(!new)>(p: T -> bool, q: T -> bool): T -> bool { x => p(x) && q(x) }

  ghost function Except<T(!new)>(p: T -> bool, q: T -> bool): T -> bool { x => p(x) && !q(x) }

  ghost function InClass<T(!new), K(!new)>(p: T -> bool, class_: T -> K, k: K): T -> bool {
    x => p(x) && class_(x) == k
  }

  ghost function SumBy<K(!new)>(keys: set<K>, f: K -> real): real {
    if keys == {} then 0.0
    else
      var k :| k in keys;
      f(k) + SumBy(keys - {k}, f)
  }

  lemma {:induction false} SumByWithout<K(!new)>(keys: set<K>, f: K -> real, k: K)
    requires k in keys
    ensures SumBy(keys, f) == f(k) + SumBy(keys - {k}, f)
    decreases keys
  {
    var first :| first in keys && SumBy(keys, f) == f(first) + SumBy(keys - {first}, f);
    if first != k {
      SumByWithout(keys - {first}, f, k);
      SumByWithout(keys - {k}, f, first);
      assert keys - {first} - {k} == keys - {k} - {first};
    }
  }

  lemma {:induction false} SumBySame<K(!new)>(keys: set<K>, f: K -> real, g: K -> real)
    requires forall k | k in keys :: f(k) == g(k)
    ensures SumBy(keys, f) == SumBy(keys, g)
    decreases keys
  {
    if keys != {} {
      var k :| k in keys;
      SumByWithout(keys, f, k);
      SumByWithout(keys, g, k);
      SumBySame(keys - {k}, f, g);
    }
  }

  lemma {:induction false} TotalSame<T(!new)>(xs: seq<T>, w: T -> real, p: T -> bool, q: T -> bool)
    requires forall x | x in xs :: p(x) == q(x)
    ensures Total(xs, w, p) == Total(xs, w, q)
    decreases |xs|
  {
    if xs != [] {
      assert xs[|xs| - 1] in xs;
      TotalSame(xs[..|xs| - 1], w, p, q);
    }
  }

  lemma {:induction false} TotalNone<T(!new)>(xs: seq<T>, w: T -> real, p: T -> bool)
    requires forall x | x in xs :: !p(x)
    ensures Total(xs, w, p) == 0.0
    decreases |xs|
  {
    if xs != [] {
      assert xs[|xs| - 1] in xs;
      TotalNone(xs[..|xs| - 1], w, p);
    }
  }

  lemma {:induction false} TotalSplit<T(!new)>(xs: seq<T>, w: T -> real, p: T -> bool, q: T -> bool)
    ensures Total(xs, w, p) == Total(xs, w, Both(p, q)) + Total(xs, w, Except(p, q))
    decreases |xs|
  {
    if xs != [] {
      TotalSplit(xs[..|xs| - 1], w, p, q);
    }
  }

  /** What falls in a class, for each class of a finite set of them, adds up to the whole. */
  lemma {:induction false} Partition<T(!new), K(!new)>(
    xs: seq<T>, w: T -> real, p: T -> bool, class_: T -> K, keys: set<K>, f: K -> real)
    requires forall x | x in xs && p(x) :: class_(x) in keys
    requires forall k | k in keys :: f(k) == Total(xs, w, InClass(p, class_, k))
    ensures SumBy(keys, f) == Total(xs, w, p)
    decreases keys
  {
    if keys == {} {
      TotalNone(xs, w, p);
    } else {
      var k :| k in keys;
      SumByWithout(keys, f, k);
      var c := x => class_(x) == k;
      forall l | l in keys - {k}
        ensures f(l) == Total(xs, w, InClass(Except(p, c), class_, l))
      {
        TotalSame(xs, w, InClass(p, class_, l), InClass(Except(p, c), class_, l));
      }
      Partition(xs, w, Except(p, c), class_, keys - {k}, f);
      TotalSplit(xs, w, p, c);
      TotalSame(xs, w, Both(p, c), InClass(p, class_, k));
    }
  }

  ghost function ClassOf<T(!new), K(!new)>(xs: set<T>, class_: T -> K, k: K): set<T> {
    set x | x in xs && class_(x) == k
  }

  /** The elements of a finite set, counted class by class. */
  lemma {:induction false} CountByClass<T(!new), K(!new)>(
    xs: set<T>, class_: T -> K, keys: set<K>, f: K -> real)
    requires forall x | x in xs :: class_(x) in keys
    requires forall k | k in keys :: f(k) == |ClassOf(xs, class_, k)| as real
    ensures SumBy(keys, f) == |xs| as real
    decreases keys
  {
    if keys == {} {
      assert xs == {};
    } else {
      var k :| k in keys;
      SumByWithout(keys, f, k);
      var own := ClassOf(xs, class_, k);
      var rest := xs - own;
      forall l | l in keys - {k}
        ensures f(l) == |ClassOf(rest, class_, l)| as real
      {
        assert ClassOf(rest, class_, l) == ClassOf(xs, class_, l);
      }
      CountByClass(rest, class_, keys - {k}, f);
      assert xs == own + rest;
    }
  }

  lemma SubsetCount<T>(a: set<T>, b: set<T>)
    requires a <= b
    ensures |a| <= |b|
  {
    assert b == (b - a) + a;
  }
}
