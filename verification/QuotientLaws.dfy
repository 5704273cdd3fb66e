/** What the quotient keeps of the fragment graph, and what quotients at different levels have to
    do with each other (`analytics.rs`). */
module QuotientLaws {
  import opened Text
  import opened Totals
  import opened Interval
  import opened Quotient

  // ---------- one quotient ----------

  lemma SameNodes(q: Question, g: Graph, h: Graph)
    requires IsQuotient(q, g) && IsQuotient(q, h)
    ensures g.nodes == h.nodes
  {
    assert g.nodes.Keys == h.nodes.Keys;
    forall k | k in g.nodes
      ensures g.nodes[k] == h.nodes[k]
    {
      assert g.nodes[k].fragmentCount as real == h.nodes[k].fragmentCount as real;
      assert g.nodes[k].tokenCount as real == h.nodes[k].tokenCount as real;
    }
  }

  lemma SameLink(q: Question, g: Graph, h: Graph, p: (string, string))
    requires IsQuotient(q, g) && IsQuotient(q, h) && p in g.links && p in h.links
    ensures g.links[p] == h.links[p]
  {
    assert g.LinkWeights()(p) == h.LinkWeights()(p);
    forall c
      ensures g.Kinds(p, c) == h.Kinds(p, c)
      ensures c in g.links[p].categories <==> g.Kinds(p, c) > 0
      ensures c in h.links[p].categories <==> h.Kinds(p, c) > 0
    {
      assert g.Kinds(p, c) as real == h.Kinds(p, c) as real;
    }
    assert g.links[p].categories.Keys == h.links[p].categories.Keys;
  }

  /** A question has one quotient. */
  lemma QuotientIsUnique(q: Question, g: Graph, h: Graph)
    requires IsQuotient(q, g) && IsQuotient(q, h)
    ensures g == h
  {
    SameNodes(q, g, h);
    assert g.links.Keys == h.links.Keys;
    forall p | p in g.links
      ensures g.links[p] == h.links[p]
    {
      SameLink(q, g, h, p);
    }
  }

  // ---------- a filter ----------

  ghost function Kept<T(!new)>(xs: seq<T>, keep: T -> bool): (kept: seq<T>)
    ensures forall x :: x in kept <==> x in xs && keep(x)
  {
    if xs == [] then []
    else Kept(xs[..|xs| - 1], keep) + if keep(xs[|xs| - 1]) then [xs[|xs| - 1]] else []
  }

  lemma {:induction false} TotalKept<T(!new)>(xs: seq<T>, w: T -> real, p: T -> bool, keep: T -> bool, p': T -> bool)
    requires forall x :: p(x) == (keep(x) && p'(x))
    ensures Total(xs, w, p) == Total(Kept(xs, keep), w, p')
    decreases |xs|
  {
    if xs != [] {
      var init, last := xs[..|xs| - 1], xs[|xs| - 1];
      TotalKept(init, w, p, keep, p');
      if keep(last) {
        assert (Kept(init, keep) + [last])[..|Kept(init, keep)|] == Kept(init, keep);
      } else {
        assert Kept(init, keep) + [] == Kept(init, keep);
      }
    }
  }

  ghost function InFilter(q: Question, wanted: set<Category>): FragmentEdge -> bool { e => q.CategoryOf(e) in wanted }

  /** The question without its filter, of the edges the filter admits. */
  ghost function Unfiltered(q: Question, wanted: set<Category>): Question {
    q.(edges := Kept(q.edges, InFilter(q, wanted)), filter := None)
  }

  lemma UnfilteredAdmits(q: Question, wanted: set<Category>, e: FragmentEdge)
    requires q.filter == Some(wanted)
    ensures q.Admits(e) <==> InFilter(q, wanted)(e) && Unfiltered(q, wanted).Admits(e)
    ensures q.Ends(e) == Unfiltered(q, wanted).Ends(e) && q.CategoryOf(e) == Unfiltered(q, wanted).CategoryOf(e)
  {
    var u := Unfiltered(q, wanted);
    assert forall id :: q.Knows(id) <==> u.Knows(id);
  }

  lemma UnfilteredTotals(q: Question, wanted: set<Category>, p: (string, string), c: Category)
    requires q.filter == Some(wanted)
    ensures var u := Unfiltered(q, wanted);
      && Total(q.edges, Weight(), q.Between(p)) == Total(u.edges, Weight(), u.Between(p))
      && Total(q.edges, One(), q.OfKind(p, c)) == Total(u.edges, One(), u.OfKind(p, c))
  {
    var u := Unfiltered(q, wanted);
    forall e
      ensures q.Between(p)(e) == (InFilter(q, wanted)(e) && u.Between(p)(e))
      ensures q.OfKind(p, c)(e) == (InFilter(q, wanted)(e) && u.OfKind(p, c)(e))
    {
      UnfilteredAdmits(q, wanted, e);
    }
    TotalKept(q.edges, Weight(), q.Between(p), InFilter(q, wanted), u.Between(p));
    TotalKept(q.edges, One(), q.OfKind(p, c), InFilter(q, wanted), u.OfKind(p, c));
  }

  lemma UnfilteredNodes(q: Question, wanted: set<Category>, nodes: map<string, Node>)
    requires NodesBuilt(q, nodes, q.fragments)
    ensures NodesBuilt(Unfiltered(q, wanted), nodes, q.fragments)
  {
    var u := Unfiltered(q, wanted);
    forall k | k in nodes
      ensures Total(q.fragments, One(), q.Member(k)) == Total(q.fragments, One(), u.Member(k))
      ensures Total(q.fragments, Tokens(), q.Member(k)) == Total(q.fragments, Tokens(), u.Member(k))
    {
      TotalSame(q.fragments, One(), q.Member(k), u.Member(k));
      TotalSame(q.fragments, Tokens(), q.Member(k), u.Member(k));
    }
  }

  lemma UnfilteredLinks(q: Question, wanted: set<Category>, p: (string, string))
    requires q.filter == Some(wanted)
    ensures var u := Unfiltered(q, wanted);
            (exists e | e in q.edges :: q.Admits(e) && q.Ends(e) == p)
            <==> exists e | e in u.edges :: u.Admits(e) && u.Ends(e) == p
  {
    var u := Unfiltered(q, wanted);
    forall e
      ensures q.Admits(e) <==> InFilter(q, wanted)(e) && u.Admits(e)
      ensures q.Ends(e) == u.Ends(e)
    {
      UnfilteredAdmits(q, wanted, e);
    }
  }

  /** A filter asks of the edges of its categories and of no other. */
  lemma FilterKeepsEdges(q: Question, wanted: set<Category>, g: Graph)
    requires q.filter == Some(wanted) && IsQuotient(q, g)
    ensures IsQuotient(Unfiltered(q, wanted), g)
  {
    var u := Unfiltered(q, wanted);
    UnfilteredNodes(q, wanted, g.nodes);
    forall p: (string, string)
      ensures Total(q.edges, Weight(), q.Between(p)) == Total(u.edges, Weight(), u.Between(p))
    {
      UnfilteredTotals(q, wanted, p, Generic);
    }
    forall p: (string, string), c: Category
      ensures Total(q.edges, One(), q.OfKind(p, c)) == Total(u.edges, One(), u.OfKind(p, c))
    {
      UnfilteredTotals(q, wanted, p, c);
    }
    FilteredSelves(q, u, g);
    forall p: (string, string)
      ensures p in g.links <==> p.0 != p.1 && exists e | e in u.edges :: u.Admits(e) && u.Ends(e) == p
    {
      UnfilteredLinks(q, wanted, p);
    }
    FilteredLinks(q, u, g);
  }

  lemma FilteredSelves(q: Question, u: Question, g: Graph)
    requires SelvesBuilt(q, g.nodes, q.edges)
    requires forall p: (string, string) ::
               Total(q.edges, Weight(), q.Between(p)) == Total(u.edges, Weight(), u.Between(p))
    ensures SelvesBuilt(u, g.nodes, u.edges)
  {
    forall k | k in g.nodes
      ensures g.nodes[k].selfWeight == Total(u.edges, Weight(), u.Between((k, k)))
    {
      assert Total(q.edges, Weight(), q.Between((k, k))) == Total(u.edges, Weight(), u.Between((k, k)));
    }
  }

  lemma FilteredLinks(q: Question, u: Question, g: Graph)
    requires LinksBuilt(q, g, q.edges) && KindsBuilt(q, g, q.edges)
    requires forall p: (string, string) ::
               Total(q.edges, Weight(), q.Between(p)) == Total(u.edges, Weight(), u.Between(p))
    requires forall p: (string, string), c ::
               Total(q.edges, One(), q.OfKind(p, c)) == Total(u.edges, One(), u.OfKind(p, c))
    requires forall p: (string, string) ::
               p in g.links <==> p.0 != p.1 && exists e | e in u.edges :: u.Admits(e) && u.Ends(e) == p
    ensures LinksBuilt(u, g, u.edges) && KindsBuilt(u, g, u.edges)
  {
    forall p: (string, string) | p.0 != p.1
      ensures g.LinkWeights()(p) == Total(u.edges, Weight(), u.Between(p))
    {
      assert g.LinkWeights()(p) == Total(q.edges, Weight(), q.Between(p));
    }
    forall p: (string, string), c | p.0 != p.1
      ensures g.Kinds(p, c) as real == Total(u.edges, One(), u.OfKind(p, c))
    {
      assert g.Kinds(p, c) as real == Total(q.edges, One(), q.OfKind(p, c));
    }
  }

  // ---------- one grouping coarser than another ----------

  /** The links a condition on ends holds of, and the groups whose inner edges it holds of. */
  ghost function LinksWith(g: Graph, with: ((string, string)) -> bool): set<(string, string)> {
    set l | l in g.links && with(l)
  }

  ghost function GroupsWith(g: Graph, with: ((string, string)) -> bool): set<string> {
    set k | k in g.nodes && with((k, k))
  }

  ghost function Diagonal(with: ((string, string)) -> bool): ((string, string)) -> bool {
    p => with(p) && p.0 == p.1
  }

  ghost function OffDiagonal(with: ((string, string)) -> bool): ((string, string)) -> bool {
    p => with(p) && p.0 != p.1
  }

  /** The admitted edges whose groups meet a condition. */
  ghost function EndsMeet(q: Question, with: ((string, string)) -> bool): FragmentEdge -> bool {
    e => q.Admits(e) && with(q.Ends(e))
  }

  lemma EndsAreGroups(q: Question, g: Graph, e: FragmentEdge)
    requires IsQuotient(q, g) && e in q.edges && q.Admits(e)
    ensures q.key(e.src) in g.nodes && q.key(e.dst) in g.nodes
    ensures q.key(e.src) != q.key(e.dst) ==> q.Ends(e) in g.links
  {
    var f :| f in q.fragments && f.id == e.src;
    var h :| h in q.fragments && h.id == e.dst;
  }

  lemma InnerWeight(q: Question, g: Graph, with: ((string, string)) -> bool)
    requires IsQuotient(q, g)
    ensures Total(q.edges, Weight(), EndsMeet(q, Diagonal(with)))
         == SumBy(GroupsWith(g, with), g.SelfWeights())
  {
    var p := EndsMeet(q, Diagonal(with));
    var group := (e: FragmentEdge) => q.key(e.src);
    forall e | e in q.edges && p(e)
      ensures group(e) in GroupsWith(g, with)
    {
      EndsAreGroups(q, g, e);
    }
    forall k | k in GroupsWith(g, with)
      ensures g.SelfWeights()(k) == Total(q.edges, Weight(), InClass(p, group, k))
    {
      TotalSame(q.edges, Weight(), q.Between((k, k)), InClass(p, group, k));
    }
    Partition(q.edges, Weight(), p, group, GroupsWith(g, with), g.SelfWeights());
  }

  lemma CrossingWeight(q: Question, g: Graph, with: ((string, string)) -> bool)
    requires IsQuotient(q, g)
    ensures Total(q.edges, Weight(), EndsMeet(q, OffDiagonal(with)))
         == SumBy(LinksWith(g, with), g.LinkWeights())
  {
    var p := EndsMeet(q, OffDiagonal(with));
    var ends := (e: FragmentEdge) => q.Ends(e);
    forall e | e in q.edges && p(e)
      ensures ends(e) in LinksWith(g, with)
    {
      EndsAreGroups(q, g, e);
    }
    forall l | l in LinksWith(g, with)
      ensures g.LinkWeights()(l) == Total(q.edges, Weight(), InClass(p, ends, l))
    {
      TotalSame(q.edges, Weight(), q.Between(l), InClass(p, ends, l));
    }
    Partition(q.edges, Weight(), p, ends, LinksWith(g, with), g.LinkWeights());
  }

  /** Whatever set of ends is asked about, the quotient holds all the weight the fragment graph
      has there. */
  lemma WeightIsPooled(q: Question, g: Graph, with: ((string, string)) -> bool)
    requires IsQuotient(q, g)
    ensures Total(q.edges, Weight(), EndsMeet(q, with))
         == SumBy(GroupsWith(g, with), g.SelfWeights()) + SumBy(LinksWith(g, with), g.LinkWeights())
  {
    InnerWeight(q, g, with);
    CrossingWeight(q, g, with);
    var inside := (e: FragmentEdge) => q.Ends(e).0 == q.Ends(e).1;
    var p := EndsMeet(q, with);
    forall e: FragmentEdge
      ensures Both(p, inside)(e) == EndsMeet(q, Diagonal(with))(e)
      ensures Except(p, inside)(e) == EndsMeet(q, OffDiagonal(with))(e)
    {
      assert p(e) == (q.Admits(e) && with(q.Ends(e)));
    }
    TotalSplit(q.edges, Weight(), p, inside);
    TotalSame(q.edges, Weight(), Both(p, inside), EndsMeet(q, Diagonal(with)));
    TotalSame(q.edges, Weight(), Except(p, inside), EndsMeet(q, OffDiagonal(with)));
  }

  /** The admitted edges of a category whose groups meet a condition. */
  ghost function KindMeets(q: Question, with: ((string, string)) -> bool, kind: Category): FragmentEdge -> bool {
    e => q.Admits(e) && with(q.Ends(e)) && q.CategoryOf(e) == kind
  }

  /** Whatever set of pairs of different groups is asked about, the links count all the edges of
      each category there. */
  lemma KindsArePooled(q: Question, g: Graph, with: ((string, string)) -> bool, kind: Category)
    requires IsQuotient(q, g) && forall k :: !with((k, k))
    ensures Total(q.edges, One(), KindMeets(q, with, kind)) == SumBy(LinksWith(g, with), g.KindCounts(kind))
  {
    var p := KindMeets(q, with, kind);
    var ends := (e: FragmentEdge) => q.Ends(e);
    forall e | e in q.edges && p(e)
      ensures ends(e) in LinksWith(g, with)
    {
      EndsAreGroups(q, g, e);
    }
    forall l | l in LinksWith(g, with)
      ensures g.KindCounts(kind)(l) == Total(q.edges, One(), InClass(p, ends, l))
    {
      TotalSame(q.edges, One(), q.OfKind(l, kind), InClass(p, ends, l));
    }
    Partition(q.edges, One(), p, ends, LinksWith(g, with), g.KindCounts(kind));
  }

  /** No admitted weight is lost or counted twice. */
  lemma WeightIsConserved(q: Question, g: Graph)
    requires IsQuotient(q, g)
    ensures Total(q.edges, Weight(), q.Admitted())
         == SumBy(g.nodes.Keys, g.SelfWeights()) + SumBy(g.links.Keys, g.LinkWeights())
  {
    var all := (p: (string, string)) => true;
    WeightIsPooled(q, g, all);
    assert GroupsWith(g, all) == g.nodes.Keys && LinksWith(g, all) == g.links.Keys;
    TotalSame(q.edges, Weight(), q.Admitted(), EndsMeet(q, all));
  }

  // ---------- fragments and tokens ----------

  ghost function KeyWith(q: Question, with: string -> bool): Fragment -> bool { (f: Fragment) => with(q.key(f.id)) }

  ghost function KeysWith(g: Graph, with: string -> bool): set<string> { set k | k in g.nodes && with(k) }

  /** Whatever set of groups is asked about, the quotient counts all its fragments and tokens. */
  lemma FragmentsArePooled(q: Question, g: Graph, with: string -> bool)
    requires IsQuotient(q, g)
    ensures Total(q.fragments, One(), KeyWith(q, with)) == SumBy(KeysWith(g, with), g.Fragments())
    ensures Total(q.fragments, Tokens(), KeyWith(q, with)) == SumBy(KeysWith(g, with), g.TokenCounts())
  {
    var p := KeyWith(q, with);
    var group := (f: Fragment) => q.key(f.id);
    forall k | k in KeysWith(g, with)
      ensures g.Fragments()(k) == Total(q.fragments, One(), InClass(p, group, k))
      ensures g.TokenCounts()(k) == Total(q.fragments, Tokens(), InClass(p, group, k))
    {
      TotalSame(q.fragments, One(), q.Member(k), InClass(p, group, k));
      TotalSame(q.fragments, Tokens(), q.Member(k), InClass(p, group, k));
    }
    Partition(q.fragments, One(), p, group, KeysWith(g, with), g.Fragments());
    Partition(q.fragments, Tokens(), p, group, KeysWith(g, with), g.TokenCounts());
  }

  lemma {:induction false} TotalOfOnes<T(!new)>(xs: seq<T>)
    ensures Total(xs, One(), All()) == |xs| as real
    decreases |xs|
  {
    if xs != [] {
      TotalOfOnes(xs[..|xs| - 1]);
    }
  }

  /** Every fragment is counted in one group, with its tokens. */
  lemma FragmentsAreConserved(q: Question, g: Graph)
    requires IsQuotient(q, g)
    ensures SumBy(g.nodes.Keys, g.Fragments()) == |q.fragments| as real
    ensures SumBy(g.nodes.Keys, g.TokenCounts()) == Total(q.fragments, Tokens(), All())
  {
    var all := (k: string) => true;
    FragmentsArePooled(q, g, all);
    assert KeysWith(g, all) == g.nodes.Keys;
    TotalSame(q.fragments, One(), KeyWith(q, all), All());
    TotalSame(q.fragments, Tokens(), KeyWith(q, all), All());
    TotalOfOnes(q.fragments);
  }

  // ---------- levels ----------

  /** The two questions differ only in that `coarse` groups the groups of `fine` by `h`. */
  ghost predicate Coarsens(fine: Question, coarse: Question, h: string -> string) {
    && fine.fragments == coarse.fragments && fine.edges == coarse.edges
    && (forall a, b :: fine.category(a, b) == coarse.category(a, b)) && fine.filter == coarse.filter
    && forall id :: coarse.key(id) == h(fine.key(id))
  }

  function Under(h: string -> string, d: string): string -> bool { k => h(k) == d }

  function Onto(h: string -> string, p: (string, string)): ((string, string)) -> bool {
    (l: (string, string)) => h(l.0) == p.0 && h(l.1) == p.1
  }

  lemma CoarserAdmits(fine: Question, coarse: Question, h: string -> string, e: FragmentEdge)
    requires Coarsens(fine, coarse, h)
    ensures coarse.Admits(e) == fine.Admits(e)
    ensures coarse.Ends(e) == (h(fine.Ends(e).0), h(fine.Ends(e).1))
  {
    assert forall id :: fine.Knows(id) == coarse.Knows(id);
  }

  lemma CoarserCounts(fine: Question, coarse: Question, h: string -> string, g: Graph, c: Graph, d: string)
    requires Coarsens(fine, coarse, h) && IsQuotient(fine, g) && IsQuotient(coarse, c) && d in c.nodes
    ensures c.Fragments()(d) == SumBy(KeysWith(g, Under(h, d)), g.Fragments())
    ensures c.TokenCounts()(d) == SumBy(KeysWith(g, Under(h, d)), g.TokenCounts())
  {
    FragmentsArePooled(fine, g, Under(h, d));
    TotalSame(fine.fragments, One(), coarse.Member(d), KeyWith(fine, Under(h, d)));
    TotalSame(fine.fragments, Tokens(), coarse.Member(d), KeyWith(fine, Under(h, d)));
  }

  lemma CoarserWeight(fine: Question, coarse: Question, h: string -> string, g: Graph, p: (string, string))
    requires Coarsens(fine, coarse, h) && IsQuotient(fine, g)
    ensures Total(coarse.edges, Weight(), coarse.Between(p))
         == SumBy(GroupsWith(g, Onto(h, p)), g.SelfWeights()) + SumBy(LinksWith(g, Onto(h, p)), g.LinkWeights())
  {
    WeightIsPooled(fine, g, Onto(h, p));
    forall e: FragmentEdge
      ensures coarse.Between(p)(e) == EndsMeet(fine, Onto(h, p))(e)
    {
      CoarserAdmits(fine, coarse, h, e);
    }
    TotalSame(fine.edges, Weight(), coarse.Between(p), EndsMeet(fine, Onto(h, p)));
  }

  lemma CoarserSelf(fine: Question, coarse: Question, h: string -> string, g: Graph, c: Graph, d: string)
    requires Coarsens(fine, coarse, h) && IsQuotient(fine, g) && IsQuotient(coarse, c) && d in c.nodes
    ensures c.SelfWeights()(d) == SumBy(KeysWith(g, Under(h, d)), g.SelfWeights())
                                + SumBy(LinksWith(g, Onto(h, (d, d))), g.LinkWeights())
  {
    CoarserWeight(fine, coarse, h, g, (d, d));
    assert GroupsWith(g, Onto(h, (d, d))) == KeysWith(g, Under(h, d));
  }

  lemma CoarserLink(fine: Question, coarse: Question, h: string -> string, g: Graph, c: Graph, p: (string, string))
    requires Coarsens(fine, coarse, h) && IsQuotient(fine, g) && IsQuotient(coarse, c) && p in c.links
    ensures c.LinkWeights()(p) == SumBy(LinksWith(g, Onto(h, p)), g.LinkWeights())
  {
    CoarserWeight(fine, coarse, h, g, p);
    assert GroupsWith(g, Onto(h, p)) == {};
  }

  lemma CoarserOfKind(fine: Question, coarse: Question, h: string -> string, p: (string, string), kind: Category)
    requires Coarsens(fine, coarse, h)
    ensures Total(coarse.edges, One(), coarse.OfKind(p, kind))
         == Total(fine.edges, One(), KindMeets(fine, Onto(h, p), kind))
  {
    forall e: FragmentEdge
      ensures coarse.OfKind(p, kind)(e) == KindMeets(fine, Onto(h, p), kind)(e)
    {
      CoarserAdmits(fine, coarse, h, e);
      assert coarse.CategoryOf(e) == fine.CategoryOf(e);
      assert Onto(h, p)(fine.Ends(e)) <==> coarse.Ends(e) == p;
    }
    TotalSame(fine.edges, One(), coarse.OfKind(p, kind), KindMeets(fine, Onto(h, p), kind));
  }

  lemma CoarserKinds(fine: Question, coarse: Question, h: string -> string, g: Graph, c: Graph,
                     p: (string, string), kind: Category)
    requires Coarsens(fine, coarse, h) && IsQuotient(fine, g) && IsQuotient(coarse, c) && p in c.links
    ensures c.KindCounts(kind)(p) == SumBy(LinksWith(g, Onto(h, p)), g.KindCounts(kind))
  {
    KindsArePooled(fine, g, Onto(h, p), kind);
    CoarserOfKind(fine, coarse, h, p, kind);
  }

  lemma CoarserNodes(fine: Question, coarse: Question, h: string -> string, g: Graph, c: Graph)
    requires Coarsens(fine, coarse, h) && NodesBuilt(fine, g.nodes, fine.fragments)
    requires NodesBuilt(coarse, c.nodes, coarse.fragments)
    ensures c.nodes.Keys == set k | k in g.nodes :: h(k)
  {
    forall d | d in c.nodes
      ensures exists k :: k in g.nodes && h(k) == d
    {
      var f :| f in fine.fragments && coarse.key(f.id) == d;
      assert fine.key(f.id) in g.nodes;
    }
    forall k | k in g.nodes
      ensures h(k) in c.nodes
    {
      var f :| f in fine.fragments && fine.key(f.id) == k;
      assert coarse.key(f.id) == h(k);
    }
  }

  lemma CoarserLinks(fine: Question, coarse: Question, h: string -> string, g: Graph, c: Graph)
    requires Coarsens(fine, coarse, h)
    requires LinksBuilt(fine, g, fine.edges) && LinksBuilt(coarse, c, coarse.edges)
    ensures c.links.Keys == set l | l in g.links && h(l.0) != h(l.1) :: (h(l.0), h(l.1))
  {
    forall p | p in c.links
      ensures exists l :: l in g.links && h(l.0) != h(l.1) && (h(l.0), h(l.1)) == p
    {
      var e :| e in coarse.edges && coarse.Admits(e) && coarse.Ends(e) == p;
      CoarserAdmits(fine, coarse, h, e);
      assert fine.Ends(e) in g.links;
    }
    forall l | l in g.links && h(l.0) != h(l.1)
      ensures (h(l.0), h(l.1)) in c.links
    {
      var e :| e in fine.edges && fine.Admits(e) && fine.Ends(e) == l;
      CoarserAdmits(fine, coarse, h, e);
    }
  }

  /** Group `d` holds what the groups `h` sends to it held. */
  ghost predicate Gathers(g: Graph, c: Graph, h: string -> string, d: string) {
    && c.Fragments()(d) == SumBy(KeysWith(g, Under(h, d)), g.Fragments())
    && c.TokenCounts()(d) == SumBy(KeysWith(g, Under(h, d)), g.TokenCounts())
    && c.SelfWeights()(d) == SumBy(KeysWith(g, Under(h, d)), g.SelfWeights())
                           + SumBy(LinksWith(g, Onto(h, (d, d))), g.LinkWeights())
  }

  /** Link `p` holds what the links `h` sends to it held, category by category. */
  ghost predicate GathersLink(g: Graph, c: Graph, h: string -> string, p: (string, string)) {
    && c.LinkWeights()(p) == SumBy(LinksWith(g, Onto(h, p)), g.LinkWeights())
    && forall kind :: c.KindCounts(kind)(p) == SumBy(LinksWith(g, Onto(h, p)), g.KindCounts(kind))
  }

  /** Grouping the groups of the finer quotient gives the coarser one: its nodes and links, their
      counts of fragments, tokens and edges of each category, and every weight, where a link inside
      one coarse group becomes self weight. */
  lemma CoarserIsRegrouped(fine: Question, coarse: Question, h: string -> string, g: Graph, c: Graph)
    requires Coarsens(fine, coarse, h) && IsQuotient(fine, g) && IsQuotient(coarse, c)
    ensures c.nodes.Keys == set k | k in g.nodes :: h(k)
    ensures c.links.Keys == set l | l in g.links && h(l.0) != h(l.1) :: (h(l.0), h(l.1))
    ensures forall d | d in c.nodes :: Gathers(g, c, h, d)
    ensures forall p | p in c.links :: GathersLink(g, c, h, p)
  {
    CoarserNodes(fine, coarse, h, g, c);
    CoarserLinks(fine, coarse, h, g, c);
    forall d | d in c.nodes
      ensures Gathers(g, c, h, d)
    {
      CoarserCounts(fine, coarse, h, g, c, d);
      CoarserSelf(fine, coarse, h, g, c, d);
    }
    forall p | p in c.links
      ensures GathersLink(g, c, h, p)
    {
      CoarserLink(fine, coarse, h, g, c, p);
      forall kind
        ensures c.KindCounts(kind)(p) == SumBy(LinksWith(g, Onto(h, p)), g.KindCounts(kind))
      {
        CoarserKinds(fine, coarse, h, g, c, p, kind);
      }
    }
  }

  // ---------- the three levels ----------

  /** Every fragment group lies in one file, and the file is read off its key: the line numbers
      follow the last colon. */
  function FileOf(key: string): string {
    if key == "" then ""
    else if key[|key| - 1] == ':' then key[..|key| - 1]
    else FileOf(key[..|key| - 1])
  }

  lemma {:induction false} FileOfKey(file: string, lines: string)
    requires ':' !in lines
    ensures FileOf(file + ":" + lines) == file
    decreases |lines|
  {
    var key := file + ":" + lines;
    if lines == "" {
      assert key[..|key| - 1] == file;
    } else {
      FileOfKey(file, lines[..|lines| - 1]);
      assert key[..|key| - 1] == file + ":" + lines[..|lines| - 1];
      assert key[|key| - 1] == lines[|lines| - 1];
    }
  }

  /** `first-last`, as a key ends. */
  function LinesKey(a: nat, b: nat): string { NatText(a) + "-" + NatText(b) }

  lemma LinesKeyReads(a: nat, b: nat)
    ensures var (lines, k) := (LinesKey(a, b), IndexOf(LinesKey(a, b), '-'));
            ':' !in lines && k < |lines| && ParseNat(lines[..k]) == Some(a) && ParseNat(lines[k + 1..]) == Some(b)
  {
    var x, y := NatText(a), NatText(b);
    assert forall c | c in x || c in y :: IsDigit(c);
    assert LinesKey(a, b) == x + ['-'] + y;
    IndexOfPart(x, '-', y);
    ParseNatOfNatText(a);
    ParseNatOfNatText(b);
  }

  lemma LinesKeysAreDistinct(a: nat, b: nat, c: nat, d: nat)
    ensures LinesKey(a, b) == LinesKey(c, d) <==> a == c && b == d
  {
    LinesKeyReads(a, b);
    LinesKeyReads(c, d);
  }

  lemma SameFileAndLines(file: string, lines: string, file': string, lines': string)
    requires ':' !in lines && ':' !in lines'
    ensures file + ":" + lines == file' + ":" + lines' <==> file == file' && lines == lines'
  {
    FileOfKey(file, lines);
    FileOfKey(file', lines');
    assert (file + ":" + lines)[|file| + 1..] == lines && (file' + ":" + lines')[|file'| + 1..] == lines';
  }

  /** Two ids share a key per fragment exactly when they are of the same lines of one file, and per
      file exactly when they are of one file, by what is left of its path below the root. */
  lemma KeysAreDistinct(a: FragmentId, b: FragmentId, paths: Paths)
    ensures GroupKey(a, PerFragment, paths) == GroupKey(b, PerFragment, paths)
       <==> paths.relative(a.path) == paths.relative(b.path) && a.startLine == b.startLine && a.endLine == b.endLine
    ensures GroupKey(a, PerFile, paths) == GroupKey(b, PerFile, paths)
       <==> paths.relative(a.path) == paths.relative(b.path)
  {
    KeyParts(a, paths, LinesKey(a.startLine, a.endLine));
    KeyParts(b, paths, LinesKey(b.startLine, b.endLine));
    LinesKeyReads(a.startLine, a.endLine);
    LinesKeyReads(b.startLine, b.endLine);
    SameFileAndLines(paths.relative(a.path), LinesKey(a.startLine, a.endLine),
                     paths.relative(b.path), LinesKey(b.startLine, b.endLine));
    LinesKeysAreDistinct(a.startLine, a.endLine, b.startLine, b.endLine);
  }

  lemma KeyParts(id: FragmentId, paths: Paths, lines: string)
    requires lines == LinesKey(id.startLine, id.endLine)
    ensures GroupKey(id, PerFragment, paths) == paths.relative(id.path) + ":" + lines
  {
    ConcatAssociates(paths.relative(id.path) + ":", NatText(id.startLine), "-");
    ConcatAssociates(paths.relative(id.path) + ":", NatText(id.startLine) + "-", NatText(id.endLine));
  }

  lemma GroupKeysNest(id: FragmentId, paths: Paths)
    ensures FileOf(GroupKey(id, PerFragment, paths)) == GroupKey(id, PerFile, paths)
    ensures paths.Directory(GroupKey(id, PerFile, paths)) == GroupKey(id, PerDirectory, paths)
  {
    var lines := NatText(id.startLine) + "-" + NatText(id.endLine);
    forall i | 0 <= i < |lines|
      ensures lines[i] != ':'
    {
      DigitsValueOfNatText(id.startLine);
      DigitsValueOfNatText(id.endLine);
    }
    FileOfKey(paths.relative(id.path), lines);
    assert GroupKey(id, PerFragment, paths) == paths.relative(id.path) + ":" + lines;
  }

  /** Grouping the file quotient by directory is the directory quotient, and grouping the fragment
      quotient by file is the file quotient. */
  lemma LevelsNest(q: Question, paths: Paths)
    ensures Coarsens(q.(key := Grouping(PerFile, paths)), q.(key := Grouping(PerDirectory, paths)),
                     file => paths.Directory(file))
    ensures Coarsens(q.(key := Grouping(PerFragment, paths)), q.(key := Grouping(PerFile, paths)), FileOf)
  {
    forall id
      ensures FileOf(GroupKey(id, PerFragment, paths)) == GroupKey(id, PerFile, paths)
      ensures paths.Directory(GroupKey(id, PerFile, paths)) == GroupKey(id, PerDirectory, paths)
    {
      GroupKeysNest(id, paths);
    }
  }
}
