/** The quotient of a fragment graph by a grouping of its fragments (`analytics.rs`). */
module Quotient {
  import opened Text
  import opened Totals
  import opened Interval

  datatype Category = Semantic | Structural | Sibling | Config | KeyMatch | Document | Similarity | History
                    | TestEdge | Generic

  datatype Fragment = Fragment(id: FragmentId, tokenCount: nat)

  datatype FragmentEdge = FragmentEdge(src: FragmentId, dst: FragmentId, weight: real)

  /** Row `r` of a compressed sparse graph is the stretch `indptr[r]..indptr[r + 1]`. */
  datatype Csr = Csr(n: nat, indptr: seq<nat>, indices: seq<nat>, weights: seq<real>, idxToNode: seq<FragmentId>)
  {
    ghost predicate Valid() {
      && |indptr| == n + 1 && |idxToNode| == n
      && |weights| == |indices|
      && indptr[0] == 0 && indptr[n] == |indices|
      && (forall i, j | 0 <= i <= j <= n :: indptr[i] <= indptr[j])
      && (forall k | 0 <= k < |indices| :: indices[k] < n)
    }

    /** Place `k` belongs to row `row`. */
    ghost predicate InRow(row: nat, k: nat)
      requires Valid()
    {
      row < n && indptr[row] <= k < indptr[row + 1]
    }

    /** The edge in place `k` when its row is `row`. */
    ghost function At(row: nat, k: nat): FragmentEdge
      requires Valid() && row < n && k < |indices|
    {
      FragmentEdge(idxToNode[row], idxToNode[indices[k]], weights[k])
    }
  }

  /** Every stored edge once, in storage order, leaving the node whose row holds it. */
  ghost predicate Lists(fwd: Csr, edges: seq<FragmentEdge>)
    requires fwd.Valid()
  {
    && |edges| == |fwd.indices|
    && forall row: nat, k: nat | fwd.InRow(row, k) :: k < |fwd.indices| && edges[k] == fwd.At(row, k)
  }

  method ForwardEdges(fwd: Csr) returns (edges: seq<FragmentEdge>)
    requires fwd.Valid()
    ensures Lists(fwd, edges)
  {
    edges := [];
    for src := 0 to fwd.n
      invariant |edges| == fwd.indptr[src]
      invariant forall row: nat, k: nat | row < src && fwd.InRow(row, k) :: k < |edges| && edges[k] == fwd.At(row, k)
    {
      for k := fwd.indptr[src] to fwd.indptr[src + 1]
        invariant |edges| == k
        invariant forall row: nat, j: nat | row < src && fwd.InRow(row, j) :: j < |edges| && edges[j] == fwd.At(row, j)
        invariant forall j | fwd.indptr[src] <= j < k :: edges[j] == fwd.At(src, j)
      {
        edges := edges + [FragmentEdge(fwd.idxToNode[src], fwd.idxToNode[fwd.indices[k]], fwd.weights[k])];
      }
    }
  }

  // ---------- what is asked ----------

  /** A grouping of fragments, the edges between them, and which categories of edge count. */
  datatype Question = Question(
    fragments: seq<Fragment>,
    edges: seq<FragmentEdge>,
    key: FragmentId -> string,
    category: (FragmentId, FragmentId) -> Option<Category>,
    filter: Option<set<Category>>)
  {
    ghost predicate Knows(id: FragmentId) { exists f | f in fragments :: f.id == id }

    function CategoryOf(e: FragmentEdge): Category {
      var found := category(e.src, e.dst);
      if found.Some? then found.value else Generic
    }

    ghost predicate Admits(e: FragmentEdge) {
      Knows(e.src) && Knows(e.dst) && (filter.Some? ==> CategoryOf(e) in filter.value)
    }

    function Ends(e: FragmentEdge): (string, string) { (key(e.src), key(e.dst)) }

    ghost function Admitted(): FragmentEdge -> bool { e => Admits(e) }

    ghost function Between(ends: (string, string)): FragmentEdge -> bool { e => Admits(e) && Ends(e) == ends }

    ghost function OfKind(ends: (string, string), c: Category): FragmentEdge -> bool {
      e => Admits(e) && Ends(e) == ends && CategoryOf(e) == c
    }

    ghost function Member(k: string): Fragment -> bool { (f: Fragment) => key(f.id) == k }
  }

  function Weight(): FragmentEdge -> real { (e: FragmentEdge) => e.weight }
  function One<T>(): T -> real { x => 1.0 }
  function Tokens(): Fragment -> real { (f: Fragment) => f.tokenCount as real }
  ghost function All<T>(): T -> bool { x => true }

  // ---------- the quotient ----------

  datatype Node = Node(fragmentCount: nat, tokenCount: nat, selfWeight: real)

  datatype Link = Link(weight: real, categories: map<Category, nat>)

  datatype Graph = Graph(nodes: map<string, Node>, links: map<(string, string), Link>)
  {
    function Fragments(): string -> real { k => if k in nodes then nodes[k].fragmentCount as real else 0.0 }
    function TokenCounts(): string -> real { k => if k in nodes then nodes[k].tokenCount as real else 0.0 }
    function SelfWeights(): string -> real { k => if k in nodes then nodes[k].selfWeight else 0.0 }
    function LinkWeights(): ((string, string)) -> real { p => if p in links then links[p].weight else 0.0 }

    function Kinds(p: (string, string), c: Category): nat {
      if p in links && c in links[p].categories then links[p].categories[c] else 0
    }

    function KindCounts(c: Category): ((string, string)) -> real { p => Kinds(p, c) as real }
  }

  ghost predicate NodesBuilt(q: Question, nodes: map<string, Node>, fragments: seq<Fragment>) {
    && (forall k :: k in nodes <==> exists f | f in fragments :: q.key(f.id) == k)
    && forall k | k in nodes ::
         && nodes[k].fragmentCount as real == Total(fragments, One(), q.Member(k))
         && nodes[k].tokenCount as real == Total(fragments, Tokens(), q.Member(k))
  }

  ghost predicate SelvesBuilt(q: Question, nodes: map<string, Node>, edges: seq<FragmentEdge>) {
    forall k | k in nodes :: nodes[k].selfWeight == Total(edges, Weight(), q.Between((k, k)))
  }

  ghost predicate LinksBuilt(q: Question, g: Graph, edges: seq<FragmentEdge>) {
    && (forall p: (string, string) ::
          p in g.links <==> p.0 != p.1 && exists e | e in edges :: q.Admits(e) && q.Ends(e) == p)
    && (forall p: (string, string) | p.0 != p.1 :: g.LinkWeights()(p) == Total(edges, Weight(), q.Between(p)))
  }

  ghost predicate KindsBuilt(q: Question, g: Graph, edges: seq<FragmentEdge>) {
    forall p: (string, string), c | p.0 != p.1 :: g.Kinds(p, c) as real == Total(edges, One(), q.OfKind(p, c))
  }

  /** A category is listed only where an edge of it was counted. */
  ghost predicate KindsListed(g: Graph) {
    forall p, c | p in g.links && c in g.links[p].categories :: g.Kinds(p, c) > 0
  }

  /** The quotient of the edges seen so far, over all the groups. */
  ghost predicate Built(q: Question, g: Graph, edges: seq<FragmentEdge>) {
    && NodesBuilt(q, g.nodes, q.fragments)
    && SelvesBuilt(q, g.nodes, edges)
    && LinksBuilt(q, g, edges)
    && KindsBuilt(q, g, edges)
    && KindsListed(g)
  }

  /** The graph is the quotient the question asks for. */
  ghost predicate IsQuotient(q: Question, g: Graph) { Built(q, g, q.edges) }

  // ---------- building it ----------

  function Enter(nodes: map<string, Node>, k: string, tokens: nat): map<string, Node> {
    var node := if k in nodes then nodes[k] else Node(0, 0, 0.0);
    nodes[k := node.(fragmentCount := node.fragmentCount + 1, tokenCount := node.tokenCount + tokens)]
  }

  lemma LastCounts<T(!new)>(before: seq<T>, x: T, w: T -> real, p: T -> bool)
    ensures Total(before + [x], w, p) == Total(before, w, p) + if p(x) then w(x) else 0.0
  {
    assert (before + [x])[..|before + [x]| - 1] == before;
  }

  lemma EnterBuilds(q: Question, nodes: map<string, Node>, before: seq<Fragment>, f: Fragment)
    requires NodesBuilt(q, nodes, before)
    ensures NodesBuilt(q, Enter(nodes, q.key(f.id), f.tokenCount), before + [f])
  {
    var after, next := before + [f], Enter(nodes, q.key(f.id), f.tokenCount);
    forall k | k in next
      ensures next[k].fragmentCount as real == Total(after, One(), q.Member(k))
      ensures next[k].tokenCount as real == Total(after, Tokens(), q.Member(k))
    {
      LastCounts(before, f, One(), q.Member(k));
      LastCounts(before, f, Tokens(), q.Member(k));
      if k !in nodes {
        TotalNone(before, One(), q.Member(k));
        TotalNone(before, Tokens(), q.Member(k));
      }
    }
    assert f in after && forall x :: x in after <==> x in before || x == f;
  }

  /** Every known id leads to its group. */
  ghost predicate Leads(q: Question, keys: set<string>, groupOf: map<FragmentId, string>, fragments: seq<Fragment>) {
    && (forall id :: id in groupOf <==> exists f | f in fragments :: f.id == id)
    && forall id | id in groupOf :: groupOf[id] == q.key(id) && q.key(id) in keys
  }

  lemma LeadsNext(q: Question, keys: set<string>, groupOf: map<FragmentId, string>, before: seq<Fragment>, f: Fragment)
    requires Leads(q, keys, groupOf, before)
    ensures Leads(q, keys + {q.key(f.id)}, groupOf[f.id := q.key(f.id)], before + [f])
  {
    assert forall x :: x in before + [f] <==> x in before || x == f;
  }

  ghost predicate Unweighted(nodes: map<string, Node>) { forall k | k in nodes :: nodes[k].selfWeight == 0.0 }

  lemma EnterKeys(nodes: map<string, Node>, k: string, tokens: nat)
    ensures Enter(nodes, k, tokens).Keys == nodes.Keys + {k}
    ensures Unweighted(nodes) ==> Unweighted(Enter(nodes, k, tokens))
  {}

  method EnterFragment(
    q: Question, ghost before: seq<Fragment>, f: Fragment, nodes: map<string, Node>, groupOf: map<FragmentId, string>)
    returns (nextNodes: map<string, Node>, nextGroupOf: map<FragmentId, string>)
    requires NodesBuilt(q, nodes, before) && Unweighted(nodes) && Leads(q, nodes.Keys, groupOf, before)
    ensures NodesBuilt(q, nextNodes, before + [f]) && Unweighted(nextNodes)
    ensures Leads(q, nextNodes.Keys, nextGroupOf, before + [f])
  {
    var k := q.key(f.id);
    EnterBuilds(q, nodes, before, f);
    LeadsNext(q, nodes.Keys, groupOf, before, f);
    EnterKeys(nodes, k, f.tokenCount);
    nextGroupOf := groupOf[f.id := k];
    nextNodes := Enter(nodes, k, f.tokenCount);
  }

  lemma NothingEntered(q: Question)
    ensures NodesBuilt(q, map[], []) && Unweighted(map[]) && Leads(q, {}, map[], [])
  {}

  method EnterFragments(q: Question) returns (nodes: map<string, Node>, groupOf: map<FragmentId, string>)
    ensures NodesBuilt(q, nodes, q.fragments) && Unweighted(nodes)
    ensures Leads(q, nodes.Keys, groupOf, q.fragments)
  {
    nodes, groupOf := map[], map[];
    NothingEntered(q);
    for i := 0 to |q.fragments|
      invariant NodesBuilt(q, nodes, q.fragments[..i]) && Unweighted(nodes)
      invariant Leads(q, nodes.Keys, groupOf, q.fragments[..i])
    {
      assert q.fragments[..i + 1] == q.fragments[..i] + [q.fragments[i]];
      nodes, groupOf := EnterFragment(q, q.fragments[..i], q.fragments[i], nodes, groupOf);
    }
    assert q.fragments[..|q.fragments|] == q.fragments;
  }

  // One admitted edge, in a group or across.

  function AddSelf(nodes: map<string, Node>, k: string, w: real): map<string, Node>
    requires k in nodes
  {
    nodes[k := nodes[k].(selfWeight := nodes[k].selfWeight + w)]
  }

  function AddLink(links: map<(string, string), Link>, p: (string, string), w: real, c: Category)
    : map<(string, string), Link>
  {
    var link := if p in links then links[p] else Link(0.0, map[]);
    var count := if c in link.categories then link.categories[c] else 0;
    links[p := Link(link.weight + w, link.categories[c := count + 1])]
  }

  lemma SkipBuilds(q: Question, g: Graph, before: seq<FragmentEdge>, e: FragmentEdge)
    requires Built(q, g, before) && !q.Admits(e)
    ensures Built(q, g, before + [e])
  {
    var after := before + [e];
    forall p ensures Total(after, Weight(), q.Between(p)) == Total(before, Weight(), q.Between(p)) {
      LastCounts(before, e, Weight(), q.Between(p));
    }
    forall p, c ensures Total(after, One(), q.OfKind(p, c)) == Total(before, One(), q.OfKind(p, c)) {
      LastCounts(before, e, One(), q.OfKind(p, c));
    }
    assert forall x :: x in after <==> x in before || x == e;
  }

  lemma SelfWeighs(q: Question, nodes: map<string, Node>, before: seq<FragmentEdge>, e: FragmentEdge)
    requires NodesBuilt(q, nodes, q.fragments) && SelvesBuilt(q, nodes, before)
    requires q.Admits(e) && q.key(e.src) == q.key(e.dst) && q.key(e.src) in nodes
    ensures NodesBuilt(q, AddSelf(nodes, q.key(e.src), e.weight), q.fragments)
    ensures SelvesBuilt(q, AddSelf(nodes, q.key(e.src), e.weight), before + [e])
  {
    forall k | k in nodes
      ensures Total(before + [e], Weight(), q.Between((k, k)))
           == Total(before, Weight(), q.Between((k, k))) + if k == q.key(e.src) then e.weight else 0.0
    {
      LastCounts(before, e, Weight(), q.Between((k, k)));
    }
  }

  lemma SelfLeavesLinks(q: Question, g: Graph, nodes: map<string, Node>, before: seq<FragmentEdge>, e: FragmentEdge)
    requires LinksBuilt(q, g, before) && KindsBuilt(q, g, before) && q.key(e.src) == q.key(e.dst)
    ensures LinksBuilt(q, g.(nodes := nodes), before + [e]) && KindsBuilt(q, g.(nodes := nodes), before + [e])
  {
    var next := g.(nodes := nodes);
    forall p: (string, string) | p.0 != p.1
      ensures next.LinkWeights()(p) == Total(before + [e], Weight(), q.Between(p))
    {
      LastCounts(before, e, Weight(), q.Between(p));
      assert g.LinkWeights()(p) == Total(before, Weight(), q.Between(p));
    }
    forall p: (string, string), c | p.0 != p.1
      ensures next.Kinds(p, c) as real == Total(before + [e], One(), q.OfKind(p, c))
    {
      LastCounts(before, e, One(), q.OfKind(p, c));
      assert g.Kinds(p, c) as real == Total(before, One(), q.OfKind(p, c));
    }
    assert forall x :: x in before + [e] <==> x in before || x == e;
  }

  lemma SelfBuilds(q: Question, g: Graph, before: seq<FragmentEdge>, e: FragmentEdge)
    requires Built(q, g, before) && q.Admits(e) && q.key(e.src) == q.key(e.dst) && q.key(e.src) in g.nodes
    ensures Built(q, g.(nodes := AddSelf(g.nodes, q.key(e.src), e.weight)), before + [e])
  {
    SelfWeighs(q, g.nodes, before, e);
    SelfLeavesLinks(q, g, AddSelf(g.nodes, q.key(e.src), e.weight), before, e);
  }

  lemma LinkCounts(q: Question, g: Graph, before: seq<FragmentEdge>, e: FragmentEdge)
    requires Built(q, g, before) && q.Admits(e) && q.key(e.src) != q.key(e.dst)
    ensures KindsBuilt(q, g.(links := AddLink(g.links, q.Ends(e), e.weight, q.CategoryOf(e))), before + [e])
  {
    var after := before + [e];
    var next := g.(links := AddLink(g.links, q.Ends(e), e.weight, q.CategoryOf(e)));
    forall p: (string, string), c | p.0 != p.1
      ensures next.Kinds(p, c) as real == Total(after, One(), q.OfKind(p, c))
    {
      LastCounts(before, e, One(), q.OfKind(p, c));
      assert g.Kinds(p, c) as real == Total(before, One(), q.OfKind(p, c));
    }
  }

  lemma LinkWeighs(q: Question, g: Graph, before: seq<FragmentEdge>, e: FragmentEdge)
    requires Built(q, g, before) && q.Admits(e) && q.key(e.src) != q.key(e.dst)
    ensures LinksBuilt(q, g.(links := AddLink(g.links, q.Ends(e), e.weight, q.CategoryOf(e))), before + [e])
  {
    var after := before + [e];
    var next := g.(links := AddLink(g.links, q.Ends(e), e.weight, q.CategoryOf(e)));
    forall p: (string, string) | p.0 != p.1
      ensures next.LinkWeights()(p) == Total(after, Weight(), q.Between(p))
    {
      LastCounts(before, e, Weight(), q.Between(p));
      assert g.LinkWeights()(p) == Total(before, Weight(), q.Between(p));
    }
    assert e in after && forall x :: x in after <==> x in before || x == e;
  }

  lemma LinkLists(g: Graph, p: (string, string), w: real, c: Category)
    requires KindsListed(g)
    ensures KindsListed(g.(links := AddLink(g.links, p, w, c)))
  {
  }

  lemma LinkLeavesSelves(q: Question, nodes: map<string, Node>, before: seq<FragmentEdge>, e: FragmentEdge)
    requires SelvesBuilt(q, nodes, before) && q.key(e.src) != q.key(e.dst)
    ensures SelvesBuilt(q, nodes, before + [e])
  {
    forall k | k in nodes
      ensures Total(before + [e], Weight(), q.Between((k, k))) == Total(before, Weight(), q.Between((k, k)))
    {
      LastCounts(before, e, Weight(), q.Between((k, k)));
    }
  }

  lemma LinkBuilds(q: Question, g: Graph, before: seq<FragmentEdge>, e: FragmentEdge)
    requires Built(q, g, before) && q.Admits(e) && q.key(e.src) != q.key(e.dst)
    ensures Built(q, g.(links := AddLink(g.links, q.Ends(e), e.weight, q.CategoryOf(e))), before + [e])
  {
    LinkCounts(q, g, before, e);
    LinkWeighs(q, g, before, e);
    LinkLists(g, q.Ends(e), e.weight, q.CategoryOf(e));
    LinkLeavesSelves(q, g.nodes, before, e);
  }

  lemma NothingBuilt(q: Question, nodes: map<string, Node>)
    requires NodesBuilt(q, nodes, q.fragments) && Unweighted(nodes)
    ensures Built(q, Graph(nodes, map[]), [])
  {}

  /** What the closure handed to the edge walk does with one edge. */
  method AddEdge(
    q: Question, groupOf: map<FragmentId, string>, ghost before: seq<FragmentEdge>, g: Graph, e: FragmentEdge)
    returns (next: Graph)
    requires Built(q, g, before)
    requires forall id :: id in groupOf <==> q.Knows(id)
    requires forall id | id in groupOf :: groupOf[id] == q.key(id) && q.key(id) in g.nodes
    ensures Built(q, next, before + [e]) && next.nodes.Keys == g.nodes.Keys
  {
    var c := q.CategoryOf(e);
    if e.src !in groupOf || e.dst !in groupOf || (q.filter.Some? && c !in q.filter.value) {
      SkipBuilds(q, g, before, e);
      next := g;
    } else if groupOf[e.src] == groupOf[e.dst] {
      SelfBuilds(q, g, before, e);
      next := g.(nodes := AddSelf(g.nodes, groupOf[e.src], e.weight));
    } else {
      LinkBuilds(q, g, before, e);
      next := g.(links := AddLink(g.links, (groupOf[e.src], groupOf[e.dst]), e.weight, c));
    }
  }

  method QuotientGraph(q: Question) returns (g: Graph)
    ensures IsQuotient(q, g)
  {
    var nodes, groupOf := EnterFragments(q);
    g := Graph(nodes, map[]);
    NothingBuilt(q, nodes);
    for i := 0 to |q.edges|
      invariant Built(q, g, q.edges[..i])
      invariant g.nodes.Keys == nodes.Keys
    {
      assert q.edges[..i + 1] == q.edges[..i] + [q.edges[i]];
      g := AddEdge(q, groupOf, q.edges[..i], g, q.edges[i]);
    }
    assert q.edges[..|q.edges|] == q.edges;
  }

  // ---------- the levels ----------

  datatype Level = PerFragment | PerFile | PerDirectory

  /** How paths are read: what is left of one below the root, and the directory part, empty for a
      file in the root. */
  datatype Paths = Paths(relative: string -> string, parent: string -> string) {
    function Directory(file: string): string {
      var p := parent(file);
      if p == "" then "." else p
    }
  }

  function GroupKey(id: FragmentId, level: Level, paths: Paths): string {
    var file := paths.relative(id.path);
    match level
    case PerFragment => file + ":" + NatText(id.startLine) + "-" + NatText(id.endLine)
    case PerFile => file
    case PerDirectory => paths.Directory(file)
  }

  /** An edge without a category counts as a generic one. */
  lemma UncategorisedIsGeneric(q: Question, p: (string, string), c: Category)
    requires forall e | e in q.edges :: q.category(e.src, e.dst).None?
    ensures Total(q.edges, One(), q.OfKind(p, c)) == if c == Generic then Total(q.edges, One(), q.Between(p)) else 0.0
  {
    if c == Generic {
      TotalSame(q.edges, One(), q.OfKind(p, c), q.Between(p));
    } else {
      TotalNone(q.edges, One(), q.OfKind(p, c));
    }
  }

  function Grouping(level: Level, paths: Paths): FragmentId -> string { id => GroupKey(id, level, paths) }

  /** The quotient of the whole graph at a level; a graph that was never stored has no edges. */
  method QuotientAt(
    fwd: Option<Csr>, fragments: seq<Fragment>, level: Level, paths: Paths,
    category: (FragmentId, FragmentId) -> Option<Category>, filter: Option<set<Category>>)
    returns (g: Graph)
    requires fwd.Some? ==> fwd.value.Valid()
    ensures exists edges ::
              && (if fwd.Some? then Lists(fwd.value, edges) else edges == [])
              && IsQuotient(Question(fragments, edges, Grouping(level, paths), category, filter), g)
  {
    var edges := [];
    if fwd.Some? {
      edges := ForwardEdges(fwd.value);
    }
    g := QuotientGraph(Question(fragments, edges, Grouping(level, paths), category, filter));
  }
}
