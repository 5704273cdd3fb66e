/** The coupling of each group of a quotient graph (`analytics.rs`). */
module Coupling {
  import opened Text
  import opened Totals
  import opened Quotient
  import opened QuotientLaws
  import opened Sorting

  /** To three decimals, halves away from zero. */
  function Round3(v: real): real {
    if v < 0.0 then -((-v * 1000.0 + 0.5).Floor as real / 1000.0) else (v * 1000.0 + 0.5).Floor as real / 1000.0
  }

  datatype Metrics = Metrics(
    name: string, cohesion: real, coupling: real, instability: real, fanIn: nat, fanOut: nat)

  function Leaves(k: string): ((string, string)) -> bool { (l: (string, string)) => l.0 == k }
  function Enters(k: string): ((string, string)) -> bool { (l: (string, string)) => l.1 == k }

  ghost function FanOut(g: Graph, k: string): nat { |LinksWith(g, Leaves(k))| }
  ghost function FanIn(g: Graph, k: string): nat { |LinksWith(g, Enters(k))| }

  /** The weight of the links at a group, either way. */
  ghost function Inter(g: Graph, k: string): real {
    SumBy(LinksWith(g, Leaves(k)), g.LinkWeights()) + SumBy(LinksWith(g, Enters(k)), g.LinkWeights())
  }

  function Share(part: real, whole: real): real { if whole > 0.0 then part / whole else 0.0 }

  function Measure(k: string, intra: real, inter: real, fanIn: nat, fanOut: nat): Metrics {
    var total := intra + inter;
    Metrics(k, Round3(Share(intra, total)), Round3(Share(inter, total)),
            Round3(Share(fanOut as real, (fanIn + fanOut) as real)), fanIn, fanOut)
  }

  ghost function MetricsOf(g: Graph, k: string): Metrics
    requires k in g.nodes
  {
    Measure(k, g.nodes[k].selfWeight, Inter(g, k), FanIn(g, k), FanOut(g, k))
  }

  // ---------- walking the links ----------

  /** What has been gathered at each group from the links seen so far. */
  datatype Tally = Tally(weight: map<string, real>, others: map<string, set<string>>)
  {
    function WeightAt(k: string): real { if k in weight then weight[k] else 0.0 }
    function OthersAt(k: string): set<string> { if k in others then others[k] else {} }

    function Add(k: string, other: string, w: real): Tally {
      Tally(weight[k := WeightAt(k) + w], others[k := OthersAt(k) + {other}])
    }
  }

  /** The links of `done` at group `k`: those with `k` as the near end. */
  ghost function At(done: set<(string, string)>, near: ((string, string)) -> string, k: string): set<(string, string)> {
    set l | l in done && near(l) == k
  }

  ghost predicate Tallied(
    t: Tally, g: Graph, done: set<(string, string)>,
    near: ((string, string)) -> string, far: ((string, string)) -> string)
  {
    && (forall k :: t.WeightAt(k) == SumBy(At(done, near, k), g.LinkWeights()))
    && (forall k :: t.OthersAt(k) == set l | l in At(done, near, k) :: far(l))
  }

  lemma AddTallies(
    t: Tally, g: Graph, done: set<(string, string)>, l: (string, string),
    near: ((string, string)) -> string, far: ((string, string)) -> string)
    requires Tallied(t, g, done, near, far) && l !in done
    ensures Tallied(t.Add(near(l), far(l), g.LinkWeights()(l)), g, done + {l}, near, far)
  {
    var next := t.Add(near(l), far(l), g.LinkWeights()(l));
    forall k
      ensures next.WeightAt(k) == SumBy(At(done + {l}, near, k), g.LinkWeights())
      ensures next.OthersAt(k) == set m | m in At(done + {l}, near, k) :: far(m)
    {
      if k == near(l) {
        SumByWithout(At(done + {l}, near, k), g.LinkWeights(), l);
        assert At(done + {l}, near, k) - {l} == At(done, near, k);
        assert At(done + {l}, near, k) == At(done, near, k) + {l};
      } else {
        assert At(done + {l}, near, k) == At(done, near, k);
      }
    }
  }

  function Source(): ((string, string)) -> string { (l: (string, string)) => l.0 }
  function Target(): ((string, string)) -> string { (l: (string, string)) => l.1 }

  /** The tally of the links no longer to be seen. */
  ghost predicate Seen(
    t: Tally, g: Graph, todo: set<(string, string)>,
    near: ((string, string)) -> string, far: ((string, string)) -> string)
  {
    Tallied(t, g, g.links.Keys - todo, near, far)
  }

  lemma SeeOne(
    t: Tally, g: Graph, todo: set<(string, string)>, l: (string, string),
    near: ((string, string)) -> string, far: ((string, string)) -> string)
    requires Seen(t, g, todo, near, far) && l in todo && l in g.links
    ensures Seen(t.Add(near(l), far(l), g.links[l].weight), g, todo - {l}, near, far)
  {
    AddTallies(t, g, g.links.Keys - todo, l, near, far);
    assert g.links.Keys - (todo - {l}) == g.links.Keys - todo + {l};
  }

  lemma NoneSeen(g: Graph, near: ((string, string)) -> string, far: ((string, string)) -> string)
    ensures Seen(Tally(map[], map[]), g, g.links.Keys, near, far)
  {
    assert forall k :: At(g.links.Keys - g.links.Keys, near, k) == {};
  }

  lemma AllSeen(t: Tally, g: Graph, near: ((string, string)) -> string, far: ((string, string)) -> string)
    requires Seen(t, g, {}, near, far)
    ensures Tallied(t, g, g.links.Keys, near, far)
  {
    assert g.links.Keys - {} == g.links.Keys;
  }

  method TallyLinks(g: Graph) returns (leaving: Tally, entering: Tally)
    ensures Tallied(leaving, g, g.links.Keys, Source(), Target())
    ensures Tallied(entering, g, g.links.Keys, Target(), Source())
  {
    leaving, entering := Tally(map[], map[]), Tally(map[], map[]);
    NoneSeen(g, Source(), Target());
    NoneSeen(g, Target(), Source());
    var todo := g.links.Keys;
    while todo != {}
      invariant todo <= g.links.Keys
      invariant Seen(leaving, g, todo, Source(), Target())
      invariant Seen(entering, g, todo, Target(), Source())
      decreases |todo|
    {
      var l :| l in todo;
      SeeOne(leaving, g, todo, l, Source(), Target());
      SeeOne(entering, g, todo, l, Target(), Source());
      leaving := leaving.Add(Source()(l), Target()(l), g.links[l].weight);
      entering := entering.Add(Target()(l), Source()(l), g.links[l].weight);
      todo := todo - {l};
    }
    AllSeen(leaving, g, Source(), Target());
    AllSeen(entering, g, Target(), Source());
  }

  /** Links that share an end differ at the other. */
  lemma {:induction false} OthersCount(
    at: set<(string, string)>, near: ((string, string)) -> string, far: ((string, string)) -> string, k: string)
    requires forall l | l in at :: near(l) == k
    requires forall l, m | l in at && m in at && near(l) == near(m) && far(l) == far(m) :: l == m
    ensures |set l | l in at :: far(l)| == |at|
    decreases at
  {
    if at != {} {
      var l :| l in at;
      OthersCount(at - {l}, near, far, k);
      assert (set m | m in at :: far(m)) == (set m | m in at - {l} :: far(m)) + {far(l)};
    }
  }

  lemma LeavingAt(t: Tally, g: Graph, k: string)
    requires Tallied(t, g, g.links.Keys, Source(), Target())
    ensures t.WeightAt(k) == SumBy(LinksWith(g, Leaves(k)), g.LinkWeights()) && |t.OthersAt(k)| == FanOut(g, k)
  {
    assert At(g.links.Keys, Source(), k) == LinksWith(g, Leaves(k));
    OthersCount(LinksWith(g, Leaves(k)), Source(), Target(), k);
  }

  lemma EnteringAt(t: Tally, g: Graph, k: string)
    requires Tallied(t, g, g.links.Keys, Target(), Source())
    ensures t.WeightAt(k) == SumBy(LinksWith(g, Enters(k)), g.LinkWeights()) && |t.OthersAt(k)| == FanIn(g, k)
  {
    assert At(g.links.Keys, Target(), k) == LinksWith(g, Enters(k));
    OthersCount(LinksWith(g, Enters(k)), Target(), Source(), k);
  }

  method MetricsAt(g: Graph, leaving: Tally, entering: Tally, k: string) returns (m: Metrics)
    requires k in g.nodes && leaving.WeightAt(k) + entering.WeightAt(k) == Inter(g, k)
    requires |leaving.OthersAt(k)| == FanOut(g, k) && |entering.OthersAt(k)| == FanIn(g, k)
    ensures m == MetricsOf(g, k)
  {
    m := Measure(k, g.nodes[k].selfWeight, leaving.WeightAt(k) + entering.WeightAt(k),
                 |entering.OthersAt(k)|, |leaving.OthersAt(k)|);
  }

  lemma OneEach(keys: seq<string>, results: seq<Metrics>, k: string)
    requires |results| == |keys| && forall j | 0 <= j < |keys| :: results[j].name == keys[j]
    ensures k in keys <==> exists i | 0 <= i < |results| :: results[i].name == k
  {
    if k in keys {
      var i :| 0 <= i < |keys| && keys[i] == k;
      assert results[i].name == k;
    }
  }

  lemma NamesAreOrdered(names: set<string>)
    ensures StrictOrder(names, Less)
  {
    forall a, b, c | Less(a, b) && Less(b, c)
      ensures Less(a, c)
    {
      LessIsTransitive(a, b, c);
    }
    forall a, b
      ensures !Less(a, a) && (a != b ==> Less(a, b) || Less(b, a))
    {
      LessIsIrreflexive(a);
      LessIsTotal(a, b);
    }
  }

  method SortedNames(g: Graph) returns (names: seq<string>)
    ensures forall k :: k in names <==> k in g.nodes
    ensures forall i, j | 0 <= i < j < |names| :: Less(names[i], names[j])
  {
    NamesAreOrdered(g.nodes.Keys);
    names := Sort(g.nodes.Keys, Less);
  }

  method CouplingMetrics(g: Graph) returns (results: seq<Metrics>)
    ensures forall k :: k in g.nodes <==> exists i | 0 <= i < |results| :: results[i].name == k
    ensures forall i | 0 <= i < |results| :: results[i].name in g.nodes && results[i] == MetricsOf(g, results[i].name)
    ensures forall i, j | 0 <= i < j < |results| :: Less(results[i].name, results[j].name)
  {
    var leaving, entering := TallyLinks(g);
    var keys := SortedNames(g);
    results := [];
    for i := 0 to |keys|
      invariant |results| == i
      invariant forall j | 0 <= j < i :: keys[j] in g.nodes && results[j] == MetricsOf(g, keys[j])
    {
      LeavingAt(leaving, g, keys[i]);
      EnteringAt(entering, g, keys[i]);
      var m := MetricsAt(g, leaving, entering, keys[i]);
      results := results + [m];
    }
    forall k
      ensures k in g.nodes <==> exists i | 0 <= i < |results| :: results[i].name == k
    {
      OneEach(keys, results, k);
    }
  }

  // ---------- what the metrics mean ----------

  /** One end of the edge, and not the other, is in the group. */
  function Touches(k: string): ((string, string)) -> bool {
    (p: (string, string)) => (p.0 == k) != (p.1 == k)
  }

  lemma {:induction false} SumByUnion<K(!new)>(a: set<K>, b: set<K>, f: K -> real)
    requires a !! b
    ensures SumBy(a + b, f) == SumBy(a, f) + SumBy(b, f)
    decreases a
  {
    if a == {} {
      assert a + b == b;
    } else {
      var k :| k in a;
      SumByWithout(a, f, k);
      SumByWithout(a + b, f, k);
      assert a + b - {k} == (a - {k}) + b;
      SumByUnion(a - {k}, b, f);
    }
  }

  /** Inside and outside weight are what the fragment graph has with both ends, and with one end,
      in the group. */
  lemma MetricsMeasureEdges(q: Question, g: Graph, k: string)
    requires IsQuotient(q, g) && k in g.nodes
    ensures g.nodes[k].selfWeight == Total(q.edges, Weight(), q.Between((k, k)))
    ensures Inter(g, k) == Total(q.edges, Weight(), EndsMeet(q, Touches(k)))
  {
    WeightIsPooled(q, g, Touches(k));
    assert GroupsWith(g, Touches(k)) == {};
    assert LinksWith(g, Touches(k)) == LinksWith(g, Leaves(k)) + LinksWith(g, Enters(k));
    SumByUnion(LinksWith(g, Leaves(k)), LinksWith(g, Enters(k)), g.LinkWeights());
  }

  ghost function FansIn(g: Graph): string -> real { k => FanIn(g, k) as real }
  ghost function FansOut(g: Graph): string -> real { k => FanOut(g, k) as real }

  lemma LinkEndsAreGroups(q: Question, g: Graph, l: (string, string))
    requires IsQuotient(q, g) && l in g.links
    ensures l.0 in g.nodes && l.1 in g.nodes
  {
    var e :| e in q.edges && q.Admits(e) && q.Ends(e) == l;
    EndsAreGroups(q, g, e);
  }

  lemma FansInAddUp(g: Graph)
    requires forall l | l in g.links :: l.1 in g.nodes
    ensures SumBy(g.nodes.Keys, FansIn(g)) == |g.links| as real
  {
    forall k | k in g.nodes.Keys
      ensures FansIn(g)(k) == |ClassOf(g.links.Keys, Target(), k)| as real
    {
      assert ClassOf(g.links.Keys, Target(), k) == LinksWith(g, Enters(k));
    }
    CountByClass(g.links.Keys, Target(), g.nodes.Keys, FansIn(g));
  }

  lemma FansOutAddUp(g: Graph)
    requires forall l | l in g.links :: l.0 in g.nodes
    ensures SumBy(g.nodes.Keys, FansOut(g)) == |g.links| as real
  {
    forall k | k in g.nodes.Keys
      ensures FansOut(g)(k) == |ClassOf(g.links.Keys, Source(), k)| as real
    {
      assert ClassOf(g.links.Keys, Source(), k) == LinksWith(g, Leaves(k));
    }
    CountByClass(g.links.Keys, Source(), g.nodes.Keys, FansOut(g));
  }

  /** Every link goes out of one group and into one. */
  lemma FansAddUp(q: Question, g: Graph)
    requires IsQuotient(q, g)
    ensures SumBy(g.nodes.Keys, FansIn(g)) == |g.links| as real
    ensures SumBy(g.nodes.Keys, FansOut(g)) == |g.links| as real
  {
    forall l | l in g.links
      ensures l.0 in g.nodes && l.1 in g.nodes
    {
      LinkEndsAreGroups(q, g, l);
    }
    FansInAddUp(g);
    FansOutAddUp(g);
  }

  /** `x` is the thousandth nearest to `part` of `whole`. */
  ghost predicate NearestShare(x: real, part: real, whole: real) {
    && x * 1000.0 == (x * 1000.0).Floor as real
    && -whole <= 2000.0 * (x * whole - part) <= whole
  }

  lemma RoundedIsNearest(v: real)
    requires v >= 0.0
    ensures Round3(v) * 1000.0 == (v * 1000.0 + 0.5).Floor as real
    ensures -0.0005 <= Round3(v) - v <= 0.0005
  {
  }

  lemma SharedIsNearest(part: real, whole: real)
    requires 0.0 <= part && 0.0 < whole
    ensures NearestShare(Round3(Share(part, whole)), part, whole)
  {
    var v := part / whole;
    assert v * whole == part;
    assert v >= 0.0;
    RoundedIsNearest(v);
    var d := Round3(v) - v;
    assert Round3(v) * whole - part == d * whole;
    assert -0.0005 * whole <= d * whole <= 0.0005 * whole;
  }

  /** The group of the other end of each link that leaves, and of each that enters. */
  ghost function LinkedFrom(g: Graph, k: string): set<string> {
    set l | l in g.links && l.0 == k :: l.1
  }

  ghost function LinkedTo(g: Graph, k: string): set<string> {
    set l | l in g.links && l.1 == k :: l.0
  }

  /** What is reported: the fans are the numbers of groups linked from this one and to it, the
      instability is the part of the first in both, and cohesion and coupling are the parts of the
      inside and the outside weight in both, each to the nearest thousandth. */
  lemma MetricsStand(g: Graph, k: string)
    requires k in g.nodes && 0.0 <= g.nodes[k].selfWeight && 0.0 <= Inter(g, k)
    ensures var m := MetricsOf(g, k);
      && m.name == k && m.fanOut == |LinkedFrom(g, k)| && m.fanIn == |LinkedTo(g, k)|
      && (if m.fanIn + m.fanOut == 0 then m.instability == 0.0
          else NearestShare(m.instability, m.fanOut as real, (m.fanIn + m.fanOut) as real))
    ensures var (m, inner, outer) := (MetricsOf(g, k), g.nodes[k].selfWeight, Inter(g, k));
            if inner + outer == 0.0 then m.cohesion == 0.0 && m.coupling == 0.0
            else NearestShare(m.cohesion, inner, inner + outer) && NearestShare(m.coupling, outer, inner + outer)
  {
    FansAreGroups(g, k);
    var m := MetricsOf(g, k);
    if m.fanIn + m.fanOut > 0 {
      SharedIsNearest(m.fanOut as real, (m.fanIn + m.fanOut) as real);
    }
    var (inner, outer) := (g.nodes[k].selfWeight, Inter(g, k));
    if inner + outer > 0.0 {
      SharedIsNearest(inner, inner + outer);
      SharedIsNearest(outer, inner + outer);
    }
  }

  lemma FansAreGroups(g: Graph, k: string)
    ensures FanOut(g, k) == |LinkedFrom(g, k)| && FanIn(g, k) == |LinkedTo(g, k)|
  {
    LinkedFromIs(g, k);
    LinkedToIs(g, k);
    OthersCount(LinksWith(g, Leaves(k)), Source(), Target(), k);
    OthersCount(LinksWith(g, Enters(k)), Target(), Source(), k);
  }

  lemma LinkedFromIs(g: Graph, k: string)
    ensures LinkedFrom(g, k) == set l | l in LinksWith(g, Leaves(k)) :: Target()(l)
  {
    var others := set l | l in LinksWith(g, Leaves(k)) :: Target()(l);
    forall l | l in g.links && l.0 == k
      ensures l.1 in others
    {
      assert l in LinksWith(g, Leaves(k)) && Target()(l) == l.1;
    }
    forall l | l in LinksWith(g, Leaves(k))
      ensures Target()(l) in LinkedFrom(g, k)
    {
      assert l in g.links && l.0 == k && Target()(l) == l.1;
    }
  }

  lemma LinkedToIs(g: Graph, k: string)
    ensures LinkedTo(g, k) == set l | l in LinksWith(g, Enters(k)) :: Source()(l)
  {
    var others := set l | l in LinksWith(g, Enters(k)) :: Source()(l);
    forall l | l in g.links && l.1 == k
      ensures l.0 in others
    {
      assert l in LinksWith(g, Enters(k)) && Source()(l) == l.0;
    }
    forall l | l in LinksWith(g, Enters(k))
      ensures Source()(l) in LinkedTo(g, k)
    {
      assert l in g.links && l.1 == k && Source()(l) == l.0;
    }
  }

  /** Shares of a whole that has weight add up to 1 before rounding. */
  lemma SharesAddUp(a: real, b: real)
    requires a + b > 0.0
    ensures Share(a, a + b) + Share(b, a + b) == 1.0
  {}

  lemma ShareIsNonNegative(a: real, b: real)
    requires 0.0 <= a && 0.0 < a + b
    ensures 0.0 <= Share(a, a + b)
  {}

  predicate Halfway(share: real) { share * 1000.0 == (share * 1000.0).Floor as real + 0.5 }

  lemma NearestAddUp(x: real, y: real)
    requires x + y == 1000.0
    ensures (x + 0.5).Floor + (y + 0.5).Floor == if x == x.Floor as real + 0.5 then 1001 else 1000
  {
    var m := x.Floor;
    if x < m as real + 0.5 {
      assert (x + 0.5).Floor == m;
    } else {
      assert (x + 0.5).Floor == m + 1;
    }
  }

  lemma RoundedSharesAddUp(a: real, b: real)
    requires 0.0 <= a && 0.0 <= b && a + b == 1.0
    ensures Round3(a) + Round3(b) == if Halfway(a) then 1.001 else 1.0
  {
    NearestAddUp(a * 1000.0, b * 1000.0);
  }

  /** A group whose reported cohesion and coupling add up to more than 1. */
  lemma SharesRoundUpTogether()
    ensures var g := Graph(map["a" := Node(1, 0, 1.0), "b" := Node(1, 0, 0.0)],
                           map[("a", "b") := Link(1999.0, map[])]);
            var m := MetricsOf(g, "a");
            m.cohesion == 0.001 && m.coupling == 1.0
  {
    var l := ("a", "b");
    var g := Graph(map["a" := Node(1, 0, 1.0), "b" := Node(1, 0, 0.0)], map[l := Link(1999.0, map[])]);
    assert LinksWith(g, Leaves("a")) == {l} && LinksWith(g, Enters("a")) == {};
    SumByWithout({l}, g.LinkWeights(), l);
    assert {l} - {l} == {};
    assert Inter(g, "a") == 1999.0;
    assert Round3(Share(1.0, 2000.0)) == 0.001;
    assert Round3(Share(1999.0, 2000.0)) == 1.0;
  }

  /** The reported cohesion and coupling of a group that has weight, all of it non-negative, add up
      to 1 exactly when the cohesion is not halfway between two thousandths: otherwise both are
      rounded up. */
  lemma CohesionAndCoupling(g: Graph, k: string)
    requires k in g.nodes && 0.0 <= g.nodes[k].selfWeight && 0.0 <= Inter(g, k)
    requires 0.0 < g.nodes[k].selfWeight + Inter(g, k)
    ensures var m := MetricsOf(g, k);
            m.cohesion + m.coupling == 1.0
            <==> !Halfway(Share(g.nodes[k].selfWeight, g.nodes[k].selfWeight + Inter(g, k)))
  {
    var a, b := g.nodes[k].selfWeight, Inter(g, k);
    SharesAddUp(a, b);
    ShareIsNonNegative(a, b);
    ShareIsNonNegative(b, a);
    RoundedSharesAddUp(Share(a, a + b), Share(b, a + b));
  }
}
