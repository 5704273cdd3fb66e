/** The document as the fitter changes it in place (`artifact.rs`). */
module Document {
  import opened Text
  import opened Runs
  import opened Budget
  import opened BudgetRuns

  /** The class each path was given; a later entry replaces an earlier one. */
  method CollectClasses(changes: seq<Change>) returns (classes: Classes)
    ensures Classify(changes, classes)
    ensures classes == ClassesOf(changes)
  {
    classes := map[];
    for i := 0 to |changes|
      invariant classes == ClassesOf(changes[..i])
    {
      if changes[i].class_.Some? {
        classes := classes[PathOr(changes[i]) := changes[i].class_.value];
      }
      assert changes[..i + 1][..i] == changes[..i];
    }
    assert changes[..|changes|] == changes;
    ClassesAreLast(changes);
  }

  /** The number of fragments of each file. */
  method CountPerFile(fs: seq<Fragment>) returns (perFile: map<string, nat>)
    ensures forall i | 0 <= i < |fs| ::
      fs[i].path in perFile && perFile[fs[i].path] == CountIn(fs, fs[i].path, |fs|)
  {
    perFile := map[];
    for k := 0 to |fs|
      invariant forall path :: (if path in perFile then perFile[path] else 0) == CountIn(fs, path, k)
      invariant forall i | 0 <= i < k :: fs[i].path in perFile
    {
      var path := fs[k].path;
      perFile := perFile[path := (if path in perFile then perFile[path] else 0) + 1];
    }
  }

  lemma LowestNext(
    fs: seq<Fragment>, classes: Classes, tier: Tier, second: bool, i: nat, best: Option<nat>, next: Option<nat>)
    requires i < |fs| && best == Lowest(fs, classes, tier, second, i)
    requires next
          == if Candidate(fs, second, i)
                && (best.None? || TierOf(fs[best.value], classes, tier) <= TierOf(fs[i], classes, tier))
             then Some(i) else best
    ensures next == Lowest(fs, classes, tier, second, i + 1)
  {}

  method LowestFromTheTail(fs: seq<Fragment>, perFile: map<string, nat>, classes: Classes, tier: Tier, second: bool)
    returns (best: Option<nat>)
    requires forall i | 0 <= i < |fs| ::
      fs[i].path in perFile && perFile[fs[i].path] == CountIn(fs, fs[i].path, |fs|)
    ensures best == Lowest(fs, classes, tier, second, |fs|)
  {
    best := None;
    for i := 0 to |fs|
      invariant best == Lowest(fs, classes, tier, second, i)
    {
      ghost var before := best;
      if !second || perFile[fs[i].path] > 1 {
        if best.None? || TierOf(fs[best.value], classes, tier) <= TierOf(fs[i], classes, tier) {
          best := Some(i);
        }
      }
      LowestNext(fs, classes, tier, second, i, before, best);
    }
  }

  method FindDropIndex(fs: seq<Fragment>, classes: Classes, tier: Tier) returns (index: Option<nat>)
    ensures index == DropIndex(fs, classes, tier)
  {
    var k := |fs|;
    while k > 0
      invariant 0 <= k <= |fs|
      invariant LastContext(fs, k) == LastContext(fs, |fs|)
    {
      if !fs[k - 1].Changed() {
        return Some(k - 1);
      }
      k := k - 1;
    }
    var perFile := CountPerFile(fs);
    index := LowestFromTheTail(fs, perFile, classes, tier, true);
    if index.None? {
      index := LowestFromTheTail(fs, perFile, classes, tier, false);
    }
  }

  class Document {
    const budget: Option<nat>
    const rawDiff: string
    var fragments: Option<seq<Fragment>>
    var fragmentCount: Option<nat>
    var changes: Option<seq<Change>>
    var coverage: Option<Coverage>

    function State(): Doc
      reads this
    {
      Doc(budget, rawDiff, fragments, fragmentCount, changes, coverage)
    }

    constructor (d: Doc)
      ensures State() == d
    {
      budget, rawDiff := d.budget, d.rawDiff;
      fragments, fragmentCount, changes, coverage := d.fragments, d.fragmentCount, d.changes, d.coverage;
    }

    /** Shortens fragment `i` from its tail; `false` when too little of it is left. */
    method HalveWitness(i: nat) returns (halved: bool)
      requires fragments.Some? && i < |fragments.value|
      modifies this`fragments
      ensures halved <==> Halved(old(fragments.value[i])).Some?
      ensures fragments == if halved then Some(old(fragments.value)[i := Halved(old(fragments.value[i])).value])
                           else old(fragments)
    {
      var f := fragments.value[i];
      if f.content.None? {
        return false;
      }
      var lines, hidden := Lines(f.content.value), 0;
      if lines != [] {
        var count := MarkerCount(lines[|lines| - 1]);
        if count.Some? {
          hidden := count.value;
          lines := lines[..|lines| - 1];
        }
      }
      if |lines| < 2 {
        return false;
      }
      var keep := Keep(|lines|);
      hidden := hidden + |lines| - keep;
      var clipped := JoinLines(lines[..keep] + [Marker(hidden)]);
      var start := StartOf(f.lines);
      fragments := Some(fragments.value[i := f.(lines := Span(start, keep), content := Some(clipped))]);
      return true;
    }

    method RecordCut(unrepresented: bool)
      modifies this`coverage
      ensures coverage == Some(CutCoverage(old(coverage), unrepresented))
    {
      if coverage.None? {
        coverage := Some(Coverage(Some("partial"), []));
      }
      var c := coverage.value;
      if CUT !in c.limitReasons {
        c := c.(limitReasons := c.limitReasons + [CUT]);
      }
      if unrepresented {
        c := c.(status := Some("degraded"));
      } else if c.status == Some("complete") {
        c := c.(status := Some("partial"));
      }
      coverage := Some(c);
    }

    /** Sets every change's flag; returns whether a selectable one has no fragment left. */
    method MarkChanges(paths: set<string>) returns (unrepresented: bool)
      modifies this`changes
      ensures changes == if old(changes).Some? then Some(MarkAll(old(changes.value), paths)) else None
      ensures unrepresented <==> old(changes).Some? && Unrepresented(old(changes.value), paths)
    {
      unrepresented := false;
      if changes.None? {
        return;
      }
      ghost var before := changes.value;
      var marked := changes.value;
      for i := 0 to |marked|
        invariant |marked| == |before|
        invariant forall k | 0 <= k < i :: marked[k] == before[k].(represented := Some(IsShown(before[k], paths)))
        invariant forall k | i <= k < |marked| :: marked[k] == before[k]
        invariant unrepresented <==> exists k :: 0 <= k < i && !IsShown(before[k], paths) && !before[k].noFragments
      {
        var shown := IsShown(marked[i], paths);
        unrepresented := unrepresented || (!shown && !marked[i].noFragments);
        marked := marked[i := marked[i].(represented := Some(shown))];
      }
      assert marked == MarkAll(before, paths);
      changes := Some(marked);
    }

    /** A changed fragment is shortened if it can be; any other goes. */
    method CutFragment(i: nat)
      requires fragments.Some? && i < |fragments.value|
      modifies this`fragments
      ensures fragments == Some(CutFragments(old(fragments.value), i))
    {
      var halved := false;
      if fragments.value[i].Changed() {
        halved := HalveWitness(i);
      }
      if !halved {
        fragments := Some(fragments.value[..i] + fragments.value[i + 1..]);
      }
    }

    /** One fragment fewer, or a changed one shortened; `false` once nothing is left to drop. */
    method DropOneFragment(tier: Tier) returns (dropped: bool)
      modifies this
      ensures dropped <==> DropOne(old(State()), tier).Some?
      ensures State() == if dropped then DropOne(old(State()), tier).value else old(State())
    {
      var classes := CollectClasses(if changes.Some? then changes.value else []);
      if fragments.None? {
        return false;
      }
      var index := FindDropIndex(fragments.value, classes, tier);
      if index.None? {
        return false;
      }
      CutFragment(index.value);
      fragmentCount := Some(|fragments.value|);
      var unrepresented := MarkChanges(Paths(fragments.value));
      RecordCut(unrepresented);
      return true;
    }

    /** Cut until the charge fits the recorded budget; returns the text of what is left. */
    method Fit(tier: Tier, render: Render, count: string -> nat) returns (rendered: string)
      modifies this
      ensures State() == Fitted(old(State()), tier, render, count)
      ensures rendered == render(State(), true)
    {
      rendered := render(State(), true);
      var limit := RecordedBudget(State());
      if limit.None? {
        return;
      }
      StepShrinks(tier);
      ghost var stop := Fits(limit.value, render, count);
      while true
        invariant State().budget == old(State().budget)
        invariant rendered == render(State(), true)
        invariant Until(Step(tier), Measure, stop, State()) == Until(Step(tier), Measure, stop, old(State()))
        decreases Measure(State())
      {
        var charged := if rawDiff != "" then count(render(State(), false)) else count(rendered);
        if charged <= limit.value {
          break;
        }
        ghost var before := State();
        var dropped := DropOneFragment(tier);
        if !dropped {
          break;
        }
        DropOneShrinks(before, tier);
        rendered := render(State(), true);
      }
    }
  }
}
