/** The sorted interval index of selected fragments (`interval.rs`). */
module Interval {

  /** The source's constructor keeps `startLine <= endLine`. */
  datatype FragmentId = FragmentId(path: string, startLine: nat, endLine: nat)

  type Span = (nat, nat)

  predicate Le(a: Span, b: Span) {
    a.0 < b.0 || (a.0 == b.0 && a.1 <= b.1)
  }

  predicate Sorted(spans: seq<Span>) {
    forall i, j | 0 <= i < j < |spans| :: Le(spans[i], spans[j])
  }

  function SpanOf(id: FragmentId): Span { (id.startLine, id.endLine) }

  /** The spans of the ids of one path. */
  function SpanSet(ids: set<FragmentId>, path: string): set<Span> {
    set id | id in ids && id.path == path :: SpanOf(id)
  }

  lemma SpanSetHas(ids: set<FragmentId>, id: FragmentId)
    ensures id in ids <==> SpanOf(id) in SpanSet(ids, id.path)
  {
  }

  /** `binary_search`: the position of `item`, or where it goes. */
  method BinarySearch(spans: seq<Span>, item: Span) returns (found: bool, pos: nat)
    requires Sorted(spans)
    ensures pos <= |spans|
    ensures found <==> item in spans
    ensures found ==> pos < |spans| && spans[pos] == item
    ensures !found ==>
              && (forall i | 0 <= i < pos :: Le(spans[i], item))
              && (forall i | pos <= i < |spans| :: Le(item, spans[i]))
  {
    var lo, hi := 0, |spans|;
    while lo < hi
      invariant 0 <= lo <= hi <= |spans|
      invariant forall i | 0 <= i < lo :: Le(spans[i], item) && spans[i] != item
      invariant forall i | hi <= i < |spans| :: Le(item, spans[i]) && spans[i] != item
    {
      var mid := lo + (hi - lo) / 2;
      if spans[mid] == item {
        return true, mid;
      } else if Le(spans[mid], item) {
        lo := mid + 1;
      } else {
        hi := mid;
      }
    }
    return false, lo;
  }

  /** `partition_point`: how many spans start at `line` or above it. */
  method StartingBy(spans: seq<Span>, line: nat) returns (upper: nat)
    requires Sorted(spans)
    ensures upper <= |spans|
    ensures forall i | 0 <= i < upper :: spans[i].0 <= line
    ensures forall i | upper <= i < |spans| :: spans[i].0 > line
  {
    var lo, hi := 0, |spans|;
    while lo < hi
      invariant 0 <= lo <= hi <= |spans|
      invariant forall i | 0 <= i < lo :: spans[i].0 <= line
      invariant forall i | hi <= i < |spans| :: spans[i].0 > line
    {
      var mid := lo + (hi - lo) / 2;
      if spans[mid].0 <= line {
        lo := mid + 1;
      } else {
        hi := mid;
      }
    }
    return lo;
  }

  method InsertSpan(spans: seq<Span>, item: Span) returns (spans': seq<Span>)
    requires Sorted(spans)
    ensures Sorted(spans') && multiset(spans') == multiset(spans) + multiset{item}
  {
    var found, pos := BinarySearch(spans, item);
    assert spans == spans[..pos] + spans[pos..];
    InsertedIsSorted(spans, pos, item);
    spans' := spans[..pos] + [item] + spans[pos..];
  }

  lemma InsertedIsSorted(spans: seq<Span>, pos: nat, item: Span)
    requires Sorted(spans) && pos <= |spans|
    requires forall i | 0 <= i < pos :: Le(spans[i], item)
    requires forall i | pos <= i < |spans| :: Le(item, spans[i])
    ensures Sorted(spans[..pos] + [item] + spans[pos..])
  {
    var all := spans[..pos] + [item] + spans[pos..];
    assert forall i | 0 <= i < |all| ::
        all[i] == if i < pos then spans[i] else if i == pos then item else spans[i - 1];
  }

  /** One occurrence of `item` less, if there is one. */
  method RemoveSpan(spans: seq<Span>, item: Span) returns (spans': seq<Span>)
    requires Sorted(spans)
    ensures Sorted(spans') && multiset(spans') == multiset(spans) - multiset{item}
  {
    var found, pos := BinarySearch(spans, item);
    if !found {
      assert item !in multiset(spans);
      return spans;
    }
    assert spans == spans[..pos] + [item] + spans[pos + 1..];
    spans' := spans[..pos] + spans[pos + 1..];
  }

  // ---------- what the queries mean ----------

  /** `frag` overlaps another span of its path by more than the boundary line. */
  ghost predicate Overlapped(spans: set<Span>, frag: Span) {
    exists s :: s in spans && s != frag && s.0 <= frag.1 && s.1 > frag.0
  }

  /** `frag` lies in another span of its path. */
  ghost predicate Contained(spans: set<Span>, frag: Span) {
    exists s :: s in spans && s != frag && s.0 <= frag.0 && frag.1 <= s.1
  }

  predicate OnLine(s: Span, line: nat) { s.0 <= line <= s.1 }

  /** To overlap is to share a line with another span that goes on below the first one. */
  lemma OverlapsInLines(spans: set<Span>, frag: Span)
    requires frag.0 <= frag.1 && forall s | s in spans :: s.0 <= s.1
    ensures Overlapped(spans, frag)
       <==> exists s, line :: s in spans && s != frag && OnLine(s, line) && OnLine(frag, line) && s.1 > frag.0
  {
    if s :| s in spans && s != frag && s.0 <= frag.1 && s.1 > frag.0 {
      var line := if s.0 <= frag.0 then frag.0 else s.0;
      assert OnLine(s, line) && OnLine(frag, line);
    }
  }

  /** To be contained is to have every line in one other span. */
  lemma ContainedInLines(spans: set<Span>, frag: Span)
    requires frag.0 <= frag.1
    ensures Contained(spans, frag)
       <==> exists s :: s in spans && s != frag && forall line | OnLine(frag, line) :: OnLine(s, line)
  {
    forall s: Span | s.0 <= frag.0 && frag.1 <= s.1
      ensures forall line | OnLine(frag, line) :: OnLine(s, line)
    {
    }
    forall s: Span | forall line | OnLine(frag, line) :: OnLine(s, line)
      ensures s.0 <= frag.0 && frag.1 <= s.1
    {
      assert OnLine(frag, frag.0) && OnLine(frag, frag.1);
    }
  }

  class IntervalIndex {
    var byPath: map<string, seq<Span>>
    var ids: set<FragmentId>

    function SpansFor(path: string): seq<Span>
      reads this`byPath
    {
      if path in byPath then byPath[path] else []
    }

    ghost predicate Ordered()
      reads this`byPath
    {
      forall path :: Sorted(SpansFor(path))
    }

    /** A path's list holds each span of its ids once and nothing else. */
    ghost predicate ExactFor(path: string)
      reads this
    {
      multiset(SpansFor(path)) == multiset(SpanSet(ids, path))
    }

    ghost predicate Exact()
      reads this
    {
      forall path :: ExactFor(path)
    }

    /** A path's list holds the spans of its ids, some perhaps more than once, and nothing else. */
    ghost predicate ListsFor(path: string)
      reads this
    {
      forall s :: s in SpansFor(path) <==> s in SpanSet(ids, path)
    }

    ghost predicate Lists()
      reads this
    {
      forall path :: ListsFor(path)
    }

    /** No span of a path starts before the one before it ends. */
    ghost predicate Clear()
      reads this`byPath
    {
      forall path :: Chained(SpansFor(path))
    }

    constructor ()
      ensures Ordered() && Exact() && Clear() && ids == {}
    {
      byPath, ids := map[], {};
    }

    /** The id's list has one such span more and no other list has changed. */
    twostate predicate Added(id: FragmentId)
      reads this
    {
      && ids == old(ids) + {id}
      && multiset(SpansFor(id.path)) == multiset(old(SpansFor(id.path))) + multiset{SpanOf(id)}
      && forall path | path != id.path :: SpansFor(path) == old(SpansFor(path))
    }

    twostate lemma AddedExact(id: FragmentId)
      requires Added(id) && old(Exact())
      ensures Exact() <==> id !in old(ids)
    {
      assert old(ExactFor(id.path));
      AddExact(old(SpansFor(id.path)), SpansFor(id.path), old(ids), id);
      forall path | path != id.path
        ensures ExactFor(path)
      {
        assert old(ExactFor(path));
        OtherPath(old(ids), id, path);
      }
      assert ExactFor(id.path) <==> id !in old(ids);
    }

    twostate lemma AddedLists(id: FragmentId)
      requires Added(id) && old(Lists())
      ensures Lists()
    {
      assert old(ListsFor(id.path));
      AddLists(old(SpansFor(id.path)), SpansFor(id.path), old(ids), id);
      forall path | path != id.path
        ensures ListsFor(path)
      {
        assert old(ListsFor(path));
        OtherPath(old(ids), id, path);
      }
    }

    /** Adding an absent id keeps the lists exact; adding a present one breaks its list. */
    method AddId(id: FragmentId)
      requires Ordered()
      modifies this
      ensures Ordered() && Added(id)
      ensures old(Exact()) ==> (Exact() <==> id !in old(ids))
      ensures old(Lists()) ==> Lists()
    {
      ids := ids + {id};
      var spans := InsertSpan(SpansFor(id.path), SpanOf(id));
      byPath := byPath[id.path := spans];
      assert forall path | path != id.path :: SpansFor(path) == old(SpansFor(path)) && old(Sorted(SpansFor(path)));
      if old(Exact()) {
        AddedExact(id);
      }
      if old(Lists()) {
        AddedLists(id);
      }
    }

    /** Takes one such span out of the id's list. */
    method DropSpan(id: FragmentId)
      requires Ordered()
      modifies this`byPath
      ensures Ordered()
      ensures multiset(SpansFor(id.path)) == multiset(old(SpansFor(id.path))) - multiset{SpanOf(id)}
      ensures forall path | path != id.path :: SpansFor(path) == old(SpansFor(path))
    {
      if id.path in byPath {
        assert Sorted(SpansFor(id.path));
        var spans := RemoveSpan(byPath[id.path], SpanOf(id));
        byPath := byPath[id.path := spans];
      }
      assert forall path | path != id.path :: SpansFor(path) == old(SpansFor(path)) && old(Sorted(SpansFor(path)));
    }

    /** The id's list has one such span less and no other list has changed. */
    twostate predicate Removed(id: FragmentId)
      reads this
    {
      && ids == old(ids) - {id}
      && multiset(SpansFor(id.path)) == multiset(old(SpansFor(id.path))) - multiset{SpanOf(id)}
      && forall path | path != id.path :: SpansFor(path) == old(SpansFor(path))
    }

    twostate lemma RemovedClear(id: FragmentId)
      requires Removed(id) && old(Ordered()) && Ordered() && old(Clear())
      ensures Clear()
    {
      assert old(Sorted(SpansFor(id.path))) && Sorted(SpansFor(id.path)) && old(Chained(SpansFor(id.path)));
      ChainedDrop(old(SpansFor(id.path)), SpansFor(id.path), SpanOf(id));
      assert forall path | path != id.path :: old(Chained(SpansFor(path)));
    }

    twostate lemma RemovedExact(id: FragmentId)
      requires Removed(id) && id in old(ids) && old(Exact())
      ensures Exact()
    {
      assert old(ExactFor(id.path));
      RemoveExact(old(SpansFor(id.path)), SpansFor(id.path), old(ids), id);
      forall path | path != id.path
        ensures ExactFor(path)
      {
        assert old(ExactFor(path));
        OtherPath(old(ids), id, path);
      }
    }

    twostate lemma RemovedLists(id: FragmentId)
      requires Removed(id) && id in old(ids) && old(Lists())
      ensures Lists() <==> multiset(old(SpansFor(id.path)))[SpanOf(id)] == 1
    {
      assert old(ListsFor(id.path));
      RemoveLists(old(SpansFor(id.path)), SpansFor(id.path), old(ids), id);
      assert ListsFor(id.path) <==> multiset(old(SpansFor(id.path)))[SpanOf(id)] == 1;
      forall path | path != id.path
        ensures ListsFor(path)
      {
        assert old(ListsFor(path));
        OtherPath(old(ids), id, path);
      }
    }

    /** Removing an id keeps chains and exact lists; a list that holds the spans of the ids, some
        more than once, is left so exactly when this one was there once. */
    method RemoveId(id: FragmentId)
      requires Ordered()
      modifies this
      ensures Ordered()
      ensures id in old(ids) ==> Removed(id)
      ensures id !in old(ids) ==> ids == old(ids) && byPath == old(byPath)
      ensures old(Exact()) ==> Exact()
      ensures old(Clear()) ==> Clear()
      ensures old(Lists()) && id in old(ids) ==>
                (Lists() <==> multiset(old(SpansFor(id.path)))[SpanOf(id)] == 1)
    {
      if id !in ids {
        return;
      }
      ids := ids - {id};
      DropSpan(id);
      assert Removed(id);
      if old(Clear()) {
        RemovedClear(id);
      }
      if old(Exact()) {
        RemovedExact(id);
      }
      if old(Lists()) {
        RemovedLists(id);
      }
    }

    predicate Contains(id: FragmentId)
      reads this
    {
      id in ids
    }

    method Overlaps(frag: FragmentId) returns (r: bool)
      requires Ordered() && ListsFor(frag.path)
      ensures r <==> Overlapped(SpanSet(ids, frag.path), SpanOf(frag))
    {
      if frag.path !in byPath {
        return false;
      }
      var spans := byPath[frag.path];
      assert spans == SpansFor(frag.path) && Sorted(SpansFor(frag.path));
      var upper := StartingBy(spans, frag.endLine);
      for i := 0 to upper
        invariant forall k | 0 <= k < i :: spans[k] == SpanOf(frag) || spans[k].1 <= frag.startLine
      {
        if spans[i] != SpanOf(frag) && spans[i].1 > frag.startLine {
          assert spans[i] in SpanSet(ids, frag.path);
          return true;
        }
      }
      return false;
    }

    method IsSupersetOf(frag: FragmentId) returns (r: bool)
      requires Ordered() && ListsFor(frag.path)
      ensures r <==> Contained(SpanSet(ids, frag.path), SpanOf(frag))
    {
      if frag.path !in byPath {
        return false;
      }
      var spans := byPath[frag.path];
      assert spans == SpansFor(frag.path) && Sorted(SpansFor(frag.path));
      var upper := StartingBy(spans, frag.startLine);
      for i := 0 to upper
        invariant forall k | 0 <= k < i :: spans[k] == SpanOf(frag) || frag.endLine > spans[k].1
      {
        if spans[i] != SpanOf(frag) && frag.endLine <= spans[i].1 {
          assert spans[i] in SpanSet(ids, frag.path);
          return true;
        }
      }
      return false;
    }

    /** The client of the index: adds a fragment it does not hold unless the fragment overlaps
        or lies in one it holds. */
    method AddIfClear(frag: FragmentId) returns (added: bool)
      requires Ordered() && Exact() && Clear() && frag.startLine <= frag.endLine
      modifies this
      ensures Ordered() && Exact() && Clear()
      ensures added <==> frag !in old(ids) && !Overlapped(SpanSet(old(ids), frag.path), SpanOf(frag))
                         && !Contained(SpanSet(old(ids), frag.path), SpanOf(frag))
      ensures ids == if added then old(ids) + {frag} else old(ids)
      ensures forall path | path != frag.path :: SpansFor(path) == old(SpansFor(path))
    {
      assert ExactFor(frag.path) && Chained(SpansFor(frag.path));
      if Contains(frag) {
        return false;
      }
      SameSpans(SpansFor(frag.path), SpanSet(ids, frag.path));
      var overlapping := Overlaps(frag);
      var contained := IsSupersetOf(frag);
      if overlapping || contained {
        return false;
      }
      ghost var before := SpansFor(frag.path);
      AddId(frag);
      assert Sorted(SpansFor(frag.path));
      ChainedAdd(before, SpansFor(frag.path), SpanOf(frag));
      assert forall path | path != frag.path :: old(Chained(SpansFor(path)));
      return true;
    }
  }

  /** Adding an id twice lists its span twice, and removing the id leaves one of them behind: the
      index then holds a span of no id. */
  method AddedTwice(id: FragmentId) returns (index: IntervalIndex)
    ensures fresh(index) && index.ids == {} && !index.Lists()
    ensures multiset(index.SpansFor(id.path)) == multiset{SpanOf(id)}
  {
    index := new IntervalIndex();
    assert index.ExactFor(id.path);
    index.AddId(id);
    index.AddId(id);
    index.RemoveId(id);
    assert SpanOf(id) in multiset(index.SpansFor(id.path));
    assert SpanSet({}, id.path) == {};
    assert !index.ListsFor(id.path);
  }

  lemma OtherPath(ids: set<FragmentId>, id: FragmentId, path: string)
    requires path != id.path
    ensures SpanSet(ids + {id}, path) == SpanSet(ids, path) == SpanSet(ids - {id}, path)
  {
  }

  lemma AddExact(spans: seq<Span>, spans': seq<Span>, ids: set<FragmentId>, id: FragmentId)
    requires multiset(spans) == multiset(SpanSet(ids, id.path))
    requires multiset(spans') == multiset(spans) + multiset{SpanOf(id)}
    ensures multiset(spans') == multiset(SpanSet(ids + {id}, id.path)) <==> id !in ids
  {
    SpanSetHas(ids, id);
    assert SpanSet(ids + {id}, id.path) == SpanSet(ids, id.path) + {SpanOf(id)};
    if id in ids {
      assert multiset(spans')[SpanOf(id)] == 2;
    }
  }

  lemma RemoveExact(spans: seq<Span>, spans': seq<Span>, ids: set<FragmentId>, id: FragmentId)
    requires multiset(spans) == multiset(SpanSet(ids, id.path)) && id in ids
    requires multiset(spans') == multiset(spans) - multiset{SpanOf(id)}
    ensures multiset(spans') == multiset(SpanSet(ids - {id}, id.path))
  {
    SpanSetHas(ids, id);
    assert SpanSet(ids - {id}, id.path) == SpanSet(ids, id.path) - {SpanOf(id)};
  }

  lemma AddLists(spans: seq<Span>, spans': seq<Span>, ids: set<FragmentId>, id: FragmentId)
    requires forall s :: s in spans <==> s in SpanSet(ids, id.path)
    requires multiset(spans') == multiset(spans) + multiset{SpanOf(id)}
    ensures forall s :: s in spans' <==> s in SpanSet(ids + {id}, id.path)
  {
    assert SpanSet(ids + {id}, id.path) == SpanSet(ids, id.path) + {SpanOf(id)};
    assert forall s :: s in spans' <==> s in multiset(spans');
    assert forall s :: s in spans <==> s in multiset(spans);
  }

  /** With a span less the list holds those of the ids left exactly when it was there once. */
  lemma RemoveLists(spans: seq<Span>, spans': seq<Span>, ids: set<FragmentId>, id: FragmentId)
    requires id in ids && forall s :: s in spans <==> s in SpanSet(ids, id.path)
    requires multiset(spans') == multiset(spans) - multiset{SpanOf(id)}
    ensures (forall s :: s in spans' <==> s in SpanSet(ids - {id}, id.path)) <==> multiset(spans)[SpanOf(id)] == 1
  {
    SpanSetHas(ids, id);
    assert SpanSet(ids - {id}, id.path) == SpanSet(ids, id.path) - {SpanOf(id)};
    assert forall s :: s in spans' <==> s in multiset(spans');
    assert forall s :: s in spans <==> s in multiset(spans);
    assert SpanOf(id) in spans && SpanOf(id) !in SpanSet(ids - {id}, id.path);
  }

  lemma SameSpans(spans: seq<Span>, held: set<Span>)
    requires multiset(spans) == multiset(held)
    ensures forall s :: s in spans <==> s in held
  {
    forall s
      ensures s in spans <==> s in held
    {
      assert s in spans <==> s in multiset(spans);
    }
  }

  // ---------- lines counted twice ----------

  /** In order, and each span starts no higher than the one before it ends. */
  ghost predicate Chained(spans: seq<Span>) {
    && (forall i | 0 <= i < |spans| :: spans[i].0 <= spans[i].1)
    && forall i, j | 0 <= i < j < |spans| :: Le(spans[i], spans[j]) && spans[i].1 <= spans[j].0
  }

  /** What does not overlap what is held keeps the chain. */
  lemma ChainedAdd(spans: seq<Span>, spans': seq<Span>, item: Span)
    requires Chained(spans) && Sorted(spans') && multiset(spans') == multiset(spans) + multiset{item}
    requires item.0 <= item.1 && item !in spans
    requires forall s | s in spans && s != item :: !(s.0 <= item.1 && s.1 > item.0)
    ensures Chained(spans')
  {
    var pos := SplitAt(spans, spans', item);
    forall i | 0 <= i < |spans|
      ensures i < pos ==> spans[i].1 <= item.0
      ensures i >= pos ==> item.1 <= spans[i].0
    {
      assert spans[i] in spans;
      assert i < pos ==> Le(spans'[i], spans'[pos]) && spans'[i] == spans[i];
      assert i >= pos ==> Le(spans'[pos], spans'[i + 1]) && spans'[i + 1] == spans[i];
    }
    ChainedAround(spans, pos, item);
  }

  lemma ChainedAround(spans: seq<Span>, pos: nat, item: Span)
    requires Chained(spans) && pos <= |spans| && item.0 <= item.1
    requires Sorted(spans[..pos] + [item] + spans[pos..])
    requires forall i | 0 <= i < pos :: spans[i].1 <= item.0
    requires forall i | pos <= i < |spans| :: item.1 <= spans[i].0
    ensures Chained(spans[..pos] + [item] + spans[pos..])
  {
    var all := spans[..pos] + [item] + spans[pos..];
    assert forall i | 0 <= i < |all| ::
        all[i] == if i < pos then spans[i] else if i == pos then item else spans[i - 1];
  }

  /** One span less keeps the chain. */
  lemma ChainedDrop(spans: seq<Span>, spans': seq<Span>, item: Span)
    requires Chained(spans) && Sorted(spans) && Sorted(spans')
    requires multiset(spans') == multiset(spans) - multiset{item}
    ensures Chained(spans')
  {
    if item in multiset(spans) {
      ChainedTaken(spans, spans', item);
    } else {
      SortedUnique(spans, spans');
    }
  }

  lemma ChainedTaken(spans: seq<Span>, spans': seq<Span>, item: Span)
    requires Chained(spans) && Sorted(spans) && Sorted(spans')
    requires multiset(spans) == multiset(spans') + multiset{item}
    ensures Chained(spans')
  {
    var pos := SplitAt(spans', spans, item);
    ChainedWithout(spans'[..pos], item, spans'[pos..]);
    assert spans' == spans'[..pos] + spans'[pos..];
  }

  lemma ChainedWithout(a: seq<Span>, item: Span, b: seq<Span>)
    requires Chained(a + [item] + b)
    ensures Chained(a + b)
  {
    var s, t := a + [item] + b, a + b;
    assert forall i | 0 <= i < |t| :: t[i] == s[if i < |a| then i else i + 1];
  }

  /** A sorted list with one element more is the list with that element put in. */
  lemma SplitAt(spans: seq<Span>, spans': seq<Span>, item: Span) returns (pos: nat)
    requires Sorted(spans) && Sorted(spans') && multiset(spans') == multiset(spans) + multiset{item}
    ensures pos <= |spans| && spans' == spans[..pos] + [item] + spans[pos..]
  {
    assert item in multiset(spans');
    pos :| 0 <= pos < |spans'| && spans'[pos] == item;
    var a, b := spans'[..pos], spans'[pos + 1..];
    assert spans' == a + [item] + b;
    WithoutOne(a, item, b);
    SortedWithoutOne(a, item, b);
    CancelOne(multiset(a + b), multiset(spans), item);
    SortedUnique(a + b, spans);
    assert (a + b)[..pos] == a && (a + b)[pos..] == b;
  }

  lemma CancelOne(a: multiset<Span>, b: multiset<Span>, item: Span)
    requires a + multiset{item} == b + multiset{item}
    ensures a == b
  {
    forall x
      ensures a[x] == b[x]
    {
      assert (a + multiset{item})[x] == (b + multiset{item})[x];
    }
  }

  lemma WithoutOne(a: seq<Span>, item: Span, b: seq<Span>)
    ensures multiset(a + [item] + b) == multiset(a + b) + multiset{item}
  {
    assert multiset([item]) == multiset{item};
  }

  lemma SortedWithoutOne(a: seq<Span>, item: Span, b: seq<Span>)
    requires Sorted(a + [item] + b)
    ensures Sorted(a + b)
  {
    var s, t := a + [item] + b, a + b;
    assert forall i | 0 <= i < |t| :: t[i] == s[if i < |a| then i else i + 1];
  }

  lemma {:induction false} SortedUnique(a: seq<Span>, b: seq<Span>)
    requires Sorted(a) && Sorted(b) && multiset(a) == multiset(b)
    ensures a == b
    decreases |a|
  {
    assert |multiset(a)| == |a| && |multiset(b)| == |b|;
    if a != [] {
      assert a[0] in multiset(b) && b[0] in multiset(a);
      assert a[0] == b[0];
      assert a == [a[0]] + a[1..] && b == [b[0]] + b[1..];
      assert multiset(a[1..]) == multiset(a) - multiset{a[0]};
      assert multiset(b[1..]) == multiset(b) - multiset{b[0]};
      SortedUnique(a[1..], b[1..]);
    }
  }

  /** The `n` lines from `first` on. */
  ghost function Range(first: nat, n: nat): (lines: set<nat>)
    ensures forall line :: line in lines <==> first <= line < first + n
    ensures |lines| == n
  {
    if n == 0 then {} else Range(first, n - 1) + {first + n - 1}
  }

  ghost function SpanLines(span: Span): (lines: set<nat>)
    requires span.0 <= span.1
    ensures forall line :: line in lines <==> span.0 <= line <= span.1
    ensures |lines| == span.1 - span.0 + 1
  {
    Range(span.0, span.1 - span.0 + 1)
  }

  /** The distinct lines the spans cover. */
  ghost function LinesOf(spans: seq<Span>): (lines: set<nat>)
    requires forall i | 0 <= i < |spans| :: spans[i].0 <= spans[i].1
  {
    if spans == [] then {} else LinesOf(spans[..|spans| - 1]) + SpanLines(spans[|spans| - 1])
  }

  lemma {:induction false} LinesEndBy(spans: seq<Span>, last: nat)
    requires forall i | 0 <= i < |spans| :: spans[i].0 <= spans[i].1 <= last
    ensures forall line | line in LinesOf(spans) :: line <= last
    decreases |spans|
  {
    if spans != [] {
      LinesEndBy(spans[..|spans| - 1], last);
    }
  }

  /** The lines counted span by span. */
  ghost function TotalLines(spans: seq<Span>): nat
    requires forall i | 0 <= i < |spans| :: spans[i].0 <= spans[i].1
  {
    if spans == [] then 0 else TotalLines(spans[..|spans| - 1]) + |SpanLines(spans[|spans| - 1])|
  }

  /** Sets that share at most one element. */
  lemma UnionCount(a: set<nat>, b: set<nat>, x: nat)
    requires a * b <= {x}
    ensures |a + b| >= |a| + |b| - 1
  {
    assert |a + b| == |a| + |b| - |a * b|;
    if a * b != {} {
      assert a * b == {x};
    }
  }

  lemma ChainEndsBefore(spans: seq<Span>)
    requires Chained(spans) && spans != []
    ensures var init, last := spans[..|spans| - 1], spans[|spans| - 1];
            Chained(init) && forall i | 0 <= i < |init| :: init[i].1 <= last.0
  {}

  lemma ChainMeets(spans: seq<Span>)
    requires Chained(spans) && spans != []
    ensures var init, last := spans[..|spans| - 1], spans[|spans| - 1];
            LinesOf(init) * SpanLines(last) <= {last.0}
  {
    ChainEndsBefore(spans);
    LinesEndBy(spans[..|spans| - 1], spans[|spans| - 1].0);
    MeetAt(LinesOf(spans[..|spans| - 1]), spans[|spans| - 1]);
  }

  lemma MeetAt(before: set<nat>, last: Span)
    requires last.0 <= last.1 && forall line | line in before :: line <= last.0
    ensures before * SpanLines(last) <= {last.0}
  {}

  /** The index counts a line twice at most once for each span after the first. */
  lemma {:induction false} ChainedLines(spans: seq<Span>)
    requires Chained(spans) && spans != []
    ensures TotalLines(spans) <= |LinesOf(spans)| + |spans| - 1
    decreases |spans|
  {
    var n := |spans| - 1;
    var init, last := spans[..n], spans[n];
    if n == 0 {
      assert init == [] && LinesOf(init) == {};
    } else {
      ChainedLines(init);
      ChainMeets(spans);
      UnionCount(LinesOf(init), SpanLines(last), last.0);
    }
  }
}
