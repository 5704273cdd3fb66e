/** Sorting a set of keys by a strict order, as `sorted` and `sort` do. */
module Sorting {

  ghost predicate StrictOrder<T(!new)>(xs: set<T>, before: (T, T) -> bool) {
    && (forall x | x in xs :: !before(x, x))
    && (forall x, y | x in xs && y in xs && x != y :: before(x, y) || before(y, x))
    && (forall x, y, z | x in xs && y in xs && z in xs && before(x, y) && before(y, z) :: before(x, z))
  }

  ghost predicate InOrder<T(!new)>(order: seq<T>, before: (T, T) -> bool) {
    forall i, j | 0 <= i < j < |order| :: before(order[i], order[j])
  }

  /** Where `x` goes among those already listed. */
  method Place<T(==, !new)>(xs: set<T>, order: seq<T>, x: T, before: (T, T) -> bool) returns (k: nat)
    requires StrictOrder(xs, before) && InOrder(order, before) && x in xs && x !in order
    requires forall y | y in order :: y in xs
    ensures k <= |order|
    ensures forall i | 0 <= i < k :: before(order[i], x)
    ensures forall i | k <= i < |order| :: before(x, order[i])
  {
    k := 0;
    while k < |order| && before(order[k], x)
      invariant k <= |order|
      invariant forall i | 0 <= i < k :: before(order[i], x)
    {
      k := k + 1;
    }
    forall i | k <= i < |order|
      ensures before(x, order[i])
    {
      assert order[k] in order && order[i] in order;
      assert before(x, order[k]);
    }
  }

  method Sort<T(==, !new)>(xs: set<T>, before: (T, T) -> bool) returns (order: seq<T>)
    requires StrictOrder(xs, before)
    ensures InOrder(order, before)
    ensures forall x :: x in order <==> x in xs
  {
    order := [];
    var left := xs;
    while left != {}
      invariant left <= xs
      invariant InOrder(order, before)
      invariant forall x :: x in order <==> x in xs && x !in left
      decreases |left|
    {
      var x :| x in left;
      var k := Place(xs, order, x, before);
      order := order[..k] + [x] + order[k..];
      left := left - {x};
    }
  }
}
