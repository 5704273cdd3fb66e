/** What whole runs of the budget fitter keep: they end, they keep the book, and a larger
    budget never shows less. */
module BudgetRuns {
  import opened Text
  import opened Budget
  import opened Runs

  // ---------- the fit ends ----------

  lemma {:induction false} WeightOfConcat(a: seq<Fragment>, b: seq<Fragment>)
    ensures WeightOf(a + b) == WeightOf(a) + WeightOf(b)
    decreases |a|
  {
    if a == [] {
      assert a + b == b;
    } else {
      assert (a + b)[1..] == a[1..] + b;
      WeightOfConcat(a[1..], b);
    }
  }

  lemma WeightAt(fs: seq<Fragment>, i: nat, tail: seq<Fragment>)
    requires i < |fs|
    ensures WeightOf(fs) == WeightOf(fs[..i]) + Weight(fs[i]) + WeightOf(fs[i + 1..])
    ensures WeightOf(fs[..i] + tail) == WeightOf(fs[..i]) + WeightOf(tail)
  {
    assert fs == fs[..i] + fs[i..];
    WeightOfConcat(fs[..i], fs[i..]);
    WeightOfConcat(fs[..i], tail);
  }

  lemma HalvedWeighsLess(f: Fragment)
    requires Halved(f).Some?
    ensures Weight(Halved(f).value) < Weight(f)
  {
    HalvedShows(f);
  }

  lemma CutWeighsLess(fs: seq<Fragment>, i: nat)
    requires i < |fs|
    ensures WeightOf(CutFragments(fs, i)) < WeightOf(fs)
  {
    WeightAt(fs, i, fs[i + 1..]);
    if fs[i].Changed() && Halved(fs[i]).Some? {
      HalvedWeighsLess(fs[i]);
      var cut := fs[i := Halved(fs[i]).value];
      WeightAt(cut, i, []);
      assert cut[..i] == fs[..i] && cut[i + 1..] == fs[i + 1..];
    }
  }

  lemma DropOneShrinks(d: Doc, tier: Tier)
    requires DropOne(d, tier).Some?
    ensures Measure(DropOne(d, tier).value) < Measure(d)
  {
    CutWeighsLess(d.fragments.value, DropIndex(d.fragments.value, DocClasses(d), tier).value);
  }

  /** One cut, as a step of a run. */
  function Step(tier: Tier): Doc -> Option<Doc> {
    (d: Doc) => DropOne(d, tier)
  }

  lemma StepShrinks(tier: Tier)
    ensures Shrinking(Step(tier), Measure)
  {
    forall d: Doc | DropOne(d, tier).Some?
      ensures Measure(DropOne(d, tier).value) < Measure(d)
    {
      DropOneShrinks(d, tier);
    }
  }

  function Fits(budget: nat, render: Render, count: string -> nat): Doc -> bool {
    (d: Doc) => ChargedTokens(d, render, count) <= budget
  }

  /** The fit: cut until the charge is within the recorded budget. */
  function Fitted(d: Doc, tier: Tier, render: Render, count: string -> nat): Doc {
    match RecordedBudget(d)
    case None => d
    case Some(budget) =>
      StepShrinks(tier);
      Until(Step(tier), Measure, Fits(budget, render, count), d)
  }

  predicate NothingLeft(d: Doc) {
    d.fragments.None? || d.fragments.value == []
  }

  /** A budget of 1 to 9,999,999 is met, or no fragment is left to cut; with none, or any other,
      nothing is cut. */
  lemma FitEnds(d: Doc, tier: Tier, render: Render, count: string -> nat)
    ensures var r := Fitted(d, tier, render, count);
            if d.budget.Some? && 1 <= d.budget.value <= 9_999_999 then
              count(render(r, r.rawDiff == "")) <= d.budget.value || r.fragments.None? || r.fragments.value == []
            else r == d
  {
    if RecordedBudget(d).Some? {
      StepShrinks(tier);
      UntilEnds(Step(tier), Measure, Fits(d.budget.value, render, count), d);
    }
  }

  /** The fit stops the first time the charge is within the budget. */
  lemma FitIsFirst(d: Doc, tier: Tier, render: Render, count: string -> nat) returns (n: nat)
    requires d.budget.Some? && 1 <= d.budget.value <= 9_999_999
    ensures Fitted(d, tier, render, count) == Iterate(Step(tier), d, n)
    ensures forall m | 0 <= m < n ::
              var x := Iterate(Step(tier), d, m); count(render(x, x.rawDiff == "")) > d.budget.value
  {
    StepShrinks(tier);
    n := UntilIsIterate(Step(tier), Measure, Fits(d.budget.value, render, count), d);
    forall m | 0 <= m < n
      ensures ChargedTokens(Iterate(Step(tier), d, m), render, count) > d.budget.value
    {
      assert !Fits(d.budget.value, render, count)(Iterate(Step(tier), d, m));
    }
  }

  // ---------- the book is kept ----------

  function Severity(status: Option<string>): nat {
    if status == Some("complete") then 0 else if status == Some("degraded") then 2 else 1
  }

  function DocSeverity(d: Doc): nat {
    if d.coverage.Some? then Severity(d.coverage.value.status) else 0
  }

  /** The flag of a change says whether a fragment of its file is left, and a selectable
      change without one makes the status degraded. */
  ghost predicate HonestChange(d: Doc, c: Change)
    requires d.fragments.Some? && d.coverage.Some?
  {
    && c.represented.Some?
    && (c.represented.value <==> c.path.Some? && exists f :: f in d.fragments.value && f.path == c.path.value)
    && (!c.represented.value && !c.noFragments ==> d.coverage.value.status == Some("degraded"))
  }

  /** The counts and flags of a document agree with the fragments it holds. */
  ghost predicate Honest(d: Doc) {
    && d.fragments.Some? && d.fragmentCount == Some(|d.fragments.value|)
    && d.coverage.Some? && CUT in d.coverage.value.limitReasons
    && (d.changes.Some? ==> forall c | c in d.changes.value :: HonestChange(d, c))
  }

  /** Marked changes are honest, and one of them is left unrepresented exactly when some change that
      yielded fragments has none. */
  lemma MarksAreHonest(before: seq<Change>, paths: set<string>)
    ensures var after := MarkAll(before, paths);
      && (forall c | c in after :: c.represented == Some(IsShown(c, paths)))
      && (Unrepresented(before, paths) <==> exists c :: c in after && c.represented == Some(false) && !c.noFragments)
  {
    var after := MarkAll(before, paths);
    forall c | c in after
      ensures c.represented == Some(IsShown(c, paths))
      ensures c.represented == Some(false) && !c.noFragments ==> Unrepresented(before, paths)
    {
      var i :| 0 <= i < |after| && after[i] == c;
      assert before[i] in before;
    }
    if Unrepresented(before, paths) {
      var c :| c in before && !IsShown(c, paths) && !c.noFragments;
      var i :| 0 <= i < |before| && before[i] == c;
      assert after[i] in after && after[i].represented == Some(false);
    }
  }

  lemma DropOneIsHonest(d: Doc, tier: Tier)
    requires DropOne(d, tier).Some?
    ensures var next := DropOne(d, tier).value;
      && Honest(next)
      && DocSeverity(d) <= DocSeverity(next)
      && (next.coverage.value.status == Some("degraded") <==>
            || (d.coverage.Some? && d.coverage.value.status == Some("degraded"))
            || (next.changes.Some?
                && exists c :: c in next.changes.value && c.represented == Some(false) && !c.noFragments))
  {
    if d.changes.Some? {
      MarksAreHonest(d.changes.value, Paths(DropOne(d, tier).value.fragments.value));
    }
  }

  /** The status never improves along a run. */
  lemma StatusNeverImproves(d: Doc, n: nat, m: nat, tier: Tier)
    requires n <= m
    ensures DocSeverity(Iterate(Step(tier), d, n)) <= DocSeverity(Iterate(Step(tier), d, m))
  {
    forall x: Doc | DropOne(x, tier).Some?
      ensures DocSeverity(x) <= DocSeverity(DropOne(x, tier).value)
    {
      DropOneIsHonest(x, tier);
    }
    IterateDescends(Step(tier), (x: Doc) => true, (x: Doc, y: Doc) => DocSeverity(y) <= DocSeverity(x), d, n, m);
  }

  /** After any number of cuts, at least one of which was made, the book is right. */
  lemma RunIsHonest(d: Doc, n: nat, tier: Tier)
    requires n > 0 && DropOne(d, tier).Some?
    ensures Honest(Iterate(Step(tier), d, n))
  {
    StepIsHonest(tier);
    IterateBrings(Step(tier), Honesty(), d, n);
  }

  ghost function Honesty(): Doc -> bool { (d: Doc) => Honest(d) }

  lemma StepIsHonest(tier: Tier)
    ensures forall d | Step(tier)(d).Some? :: Honesty()(Step(tier)(d).value)
  {
    forall d | Step(tier)(d).Some?
      ensures Honesty()(Step(tier)(d).value)
    {
      DropOneIsHonest(d, tier);
    }
  }

  // ---------- later shows less ----------

  /** The same fragment, showing no more lines but for carriage returns at their ends, and naming
      the rest. */
  predicate ShowsLess(a: Fragment, b: Fragment) {
    && a.path == b.path && a.role == b.role
    && Trimmed(ShownOf(a).0) <= Trimmed(ShownOf(b).0)
    && |ShownOf(a).0| + ShownOf(a).1 == |ShownOf(b).0| + ShownOf(b).1
  }

  /** The same with every shown line exactly as it was. */
  predicate ShowsPrefix(a: Fragment, b: Fragment) {
    ShowsLess(a, b) && ShownOf(a).0 <= ShownOf(b).0
  }

  type Comparison = (Fragment, Fragment) -> bool

  ghost predicate Preorder(less: Comparison) {
    (forall x :: less(x, x)) && forall x, y, z :: less(x, y) && less(y, z) ==> less(x, z)
  }

  /** `a` is `b` with fragments left out and the others showing less. */
  predicate Fewer(a: seq<Fragment>, b: seq<Fragment>, less: Comparison)
    decreases |b|
  {
    if b == [] then a == []
    else (a != [] && less(a[0], b[0]) && Fewer(a[1..], b[1..], less)) || Fewer(a, b[1..], less)
  }

  lemma {:induction false} FewerRefl(a: seq<Fragment>, less: Comparison)
    requires Preorder(less)
    ensures Fewer(a, a, less)
  {
    if a != [] {
      FewerRefl(a[1..], less);
    }
  }

  lemma {:induction false} FewerTrans(a: seq<Fragment>, b: seq<Fragment>, c: seq<Fragment>, less: Comparison)
    requires Preorder(less) && Fewer(a, b, less) && Fewer(b, c, less)
    ensures Fewer(a, c, less)
    decreases |b| + |c|
  {
    if c != [] {
      if Fewer(b, c[1..], less) {
        FewerTrans(a, b, c[1..], less);
      } else if Fewer(a, b[1..], less) {
        FewerTrans(a, b[1..], c[1..], less);
      } else {
        FewerTrans(a[1..], b[1..], c[1..], less);
      }
    }
  }

  /** Fewer fragments behind the same head. */
  lemma {:induction false} FewerAt(fs: seq<Fragment>, i: nat, tail: seq<Fragment>, less: Comparison)
    requires Preorder(less) && i <= |fs| && Fewer(tail, fs[i..], less)
    ensures Fewer(fs[..i] + tail, fs, less)
    decreases i
  {
    if i == 0 {
      assert fs[..0] + tail == tail;
    } else {
      assert fs[1..][i - 1..] == fs[i..];
      FewerAt(fs[1..], i - 1, tail, less);
      assert (fs[..i] + tail)[1..] == fs[1..][..i - 1] + tail;
    }
  }

  /** With none left out, each shows less. */
  lemma {:induction false} FewerPointwise(a: seq<Fragment>, b: seq<Fragment>, less: Comparison)
    requires Fewer(a, b, less)
    ensures |a| <= |b|
    ensures |a| == |b| ==> forall i | 0 <= i < |a| :: less(a[i], b[i])
    decreases |b|
  {
    if b != [] {
      if Fewer(a, b[1..], less) {
        FewerPointwise(a, b[1..], less);
      } else {
        FewerPointwise(a[1..], b[1..], less);
        assert forall i | 1 <= i < |a| :: a[i] == a[1..][i - 1];
        assert |a| == |b| ==> forall i | 1 <= i < |b| :: b[i] == b[1..][i - 1];
      }
    }
  }

  lemma ReplacedShowsFewer(fs: seq<Fragment>, i: nat, f: Fragment, less: Comparison)
    requires Preorder(less) && i < |fs| && less(f, fs[i])
    ensures Fewer(fs[i := f], fs, less)
  {
    HeadShowsFewer(f, fs[i], fs[i + 1..], less);
    SplitAt(fs, i, f);
    FewerAt(fs, i, [f] + fs[i + 1..], less);
  }

  lemma HeadShowsFewer(f: Fragment, g: Fragment, rest: seq<Fragment>, less: Comparison)
    requires Preorder(less) && less(f, g)
    ensures Fewer([f] + rest, [g] + rest, less)
  {
    FewerRefl(rest, less);
    assert ([f] + rest)[1..] == rest && ([g] + rest)[1..] == rest;
  }

  lemma RemovedShowsFewer(fs: seq<Fragment>, i: nat, less: Comparison)
    requires Preorder(less) && i < |fs|
    ensures Fewer(fs[..i] + fs[i + 1..], fs, less)
  {
    FewerRefl(fs[i + 1..], less);
    assert fs[i..][1..] == fs[i + 1..];
    FewerAt(fs, i, fs[i + 1..], less);
  }

  /** A shortened fragment shows less, whatever its text. */
  lemma HalvedShowsLess(f: Fragment)
    requires Halved(f).Some?
    ensures ShowsLess(Halved(f).value, f)
  {
    HalvedShows(f);
    var lines := ShownOf(f).0;
    forall i | 0 <= i < Keep(|lines|)
      ensures Trimmed(Stripped(lines[..Keep(|lines|)]))[i] == Trimmed(lines)[i]
    {
      TrimOfStrip(lines[i]);
    }
  }

  lemma StrippedPlain(lines: seq<string>)
    ensures Stripped(lines) == lines <==> PlainLines(lines)
  {
    assert forall i | 0 <= i < |lines| :: Stripped(lines)[i] == StripCR(lines[i]);
  }

  /** Shortening shows a prefix exactly when no line it keeps ends with a carriage return:
      writing the lines back makes `\r\n` of it, which reads as the line end. */
  lemma HalvedIsPrefixIff(f: Fragment)
    requires Halved(f).Some?
    ensures var kept := ShownOf(f).0[..Keep(|ShownOf(f).0|)];
            ShownOf(Halved(f).value).0 <= ShownOf(f).0 <==> PlainLines(kept)
  {
    HalvedShows(f);
    var lines := ShownOf(f).0;
    var kept := lines[..Keep(|lines|)];
    StrippedPlain(kept);
    assert Stripped(kept) <= lines <==> Stripped(kept) == kept;
  }

  lemma TwoReturnsRead()
    ensures Lines("a\r\r\nb\n") == ["a\r", "b"]
  {
    var text := "a\r\r\nb\n";
    IndexOfUnique(text, '\n', 3);
    assert text[..3] == "a\r\r" && text[4..] == "b\n";
    IndexOfUnique("b\n", '\n', 1);
    assert "b\n"[..1] == "b" && "b\n"[2..] == "";
    assert StripCR("a\r\r") == "a\r" && StripCR("b") == "b";
    assert Lines(text) == ["a\r"] + (["b"] + []);
  }

  /** A fragment whose shortening shows no prefix: it shows `a\r`, and then `a`. */
  lemma CarriageReturnIsLost()
    ensures var f := Fragment("p", "changed", "1-2", Some("a\r\r\nb\n"));
      && ShownOf(f).0 == ["a\r", "b"] && !CleanCut(f)
      && Halved(f).Some? && ShownOf(Halved(f).value).0 == ["a"]
      && !(ShownOf(Halved(f).value).0 <= ShownOf(f).0)
  {
    var f := Fragment("p", "changed", "1-2", Some("a\r\r\nb\n"));
    TwoReturnsRead();
    assert StripCR("a\r") == "a";
    assert MarkerCount("b").None? by {
      assert "b"[0] != MARKER_PREFIX[0];
    }
    assert ShownOf(f) == (["a\r", "b"], 0);
    HalvedShows(f);
    assert ["a\r", "b"][..1] == ["a\r"];
    assert ["a"][0] != ["a\r", "b"][0];
  }

  function FragmentsOf(d: Doc): seq<Fragment> {
    if d.fragments.Some? then d.fragments.value else []
  }

  function RunFragments(d: Doc, n: nat, tier: Tier): seq<Fragment> {
    FragmentsOf(Iterate(Step(tier), d, n))
  }

  lemma LessIsPreorder()
    ensures Preorder(ShowsLess) && Preorder(ShowsPrefix)
  {}

  lemma DropOneShowsFewer(d: Doc, tier: Tier)
    requires DropOne(d, tier).Some?
    ensures Fewer(FragmentsOf(DropOne(d, tier).value), FragmentsOf(d), ShowsLess)
  {
    LessIsPreorder();
    var fs := d.fragments.value;
    var i := DropIndex(fs, DocClasses(d), tier).value;
    if fs[i].Changed() && Halved(fs[i]).Some? {
      HalvedShowsLess(fs[i]);
      ReplacedShowsFewer(fs, i, Halved(fs[i]).value, ShowsLess);
    } else {
      RemovedShowsFewer(fs, i, ShowsLess);
    }
  }

  /** Fewer fragments showing less, as an order of documents. */
  function Below(less: Comparison): (Doc, Doc) -> bool {
    (x: Doc, y: Doc) => Fewer(FragmentsOf(x), FragmentsOf(y), less)
  }

  lemma BelowIsPreorder(less: Comparison)
    requires Preorder(less)
    ensures forall x: Doc :: Below(less)(x, x)
    ensures forall x: Doc, y: Doc, z: Doc :: Below(less)(x, y) && Below(less)(y, z) ==> Below(less)(x, z)
  {
    forall x: Doc
      ensures Below(less)(x, x)
    {
      FewerRefl(FragmentsOf(x), less);
    }
    forall x: Doc, y: Doc, z: Doc | Below(less)(x, y) && Below(less)(y, z)
      ensures Below(less)(x, z)
    {
      FewerTrans(FragmentsOf(x), FragmentsOf(y), FragmentsOf(z), less);
    }
  }

  /** Along a run fragments only go and only show less, whatever the text. */
  lemma LaterShowsFewer(d: Doc, n: nat, m: nat, tier: Tier)
    requires n <= m
    ensures Fewer(RunFragments(d, m, tier), RunFragments(d, n, tier), ShowsLess)
  {
    LessIsPreorder();
    BelowIsPreorder(ShowsLess);
    forall x: Doc | Step(tier)(x).Some?
      ensures Below(ShowsLess)(Step(tier)(x).value, x)
    {
      DropOneShowsFewer(x, tier);
    }
    IterateDescends(Step(tier), (x: Doc) => true, Below(ShowsLess), d, n, m);
    assert Below(ShowsLess)(Iterate(Step(tier), d, m), Iterate(Step(tier), d, n));
  }

  // ---------- when the lines shown are exactly a prefix ----------

  /** Shortening the fragment, if it can come to that, keeps no line that ends with a carriage
      return. */
  predicate CleanCut(f: Fragment) {
    f.Changed() && Halved(f).Some? ==> PlainLines(ShownOf(f).0[..Keep(|ShownOf(f).0|)])
  }

  ghost predicate CleanCuts(d: Doc) {
    forall f | f in FragmentsOf(d) :: CleanCut(f)
  }

  lemma HalvedIsClean(f: Fragment)
    requires f.Changed() && Halved(f).Some? && CleanCut(f)
    ensures ShowsPrefix(Halved(f).value, f) && CleanCut(Halved(f).value)
  {
    HalvedShowsLess(f);
    HalvedIsPrefixIff(f);
    HalvedShows(f);
    StrippedPlain(ShownOf(f).0[..Keep(|ShownOf(f).0|)]);
  }

  lemma DropOneShowsPrefixes(d: Doc, tier: Tier)
    requires DropOne(d, tier).Some? && CleanCuts(d)
    ensures CleanCuts(DropOne(d, tier).value)
    ensures Fewer(FragmentsOf(DropOne(d, tier).value), FragmentsOf(d), ShowsPrefix)
  {
    LessIsPreorder();
    var fs := d.fragments.value;
    var i := DropIndex(fs, DocClasses(d), tier).value;
    assert fs[i] in fs;
    if fs[i].Changed() && Halved(fs[i]).Some? {
      HalvedIsClean(fs[i]);
      ReplacedShowsFewer(fs, i, Halved(fs[i]).value, ShowsPrefix);
    } else {
      RemovedShowsFewer(fs, i, ShowsPrefix);
    }
  }

  lemma LaterShowsPrefixes(d: Doc, n: nat, m: nat, tier: Tier)
    requires n <= m && CleanCuts(d)
    ensures Fewer(RunFragments(d, m, tier), RunFragments(d, n, tier), ShowsPrefix)
  {
    LessIsPreorder();
    BelowIsPreorder(ShowsPrefix);
    var inv := (x: Doc) => CleanCuts(x);
    forall x: Doc | inv(x) && Step(tier)(x).Some?
      ensures inv(Step(tier)(x).value) && Below(ShowsPrefix)(Step(tier)(x).value, x)
    {
      DropOneShowsPrefixes(x, tier);
    }
    IterateDescends(Step(tier), inv, Below(ShowsPrefix), d, n, m);
    assert Below(ShowsPrefix)(Iterate(Step(tier), d, m), Iterate(Step(tier), d, n));
  }

  /** The fragment the next step of a run cuts. */
  ghost predicate CutsNext(d: Doc, f: Fragment, tier: Tier) {
    && DropOne(d, tier).Some?
    && f == d.fragments.value[DropIndex(d.fragments.value, DocClasses(d), tier).value]
  }

  lemma SomethingGoes(fs: seq<Fragment>, classes: Classes, tier: Tier)
    requires fs != []
    ensures DropIndex(fs, classes, tier).Some?
  {
    assert Candidate(fs, false, 0);
  }

  /** Sooner or later the run cuts every fragment as it was at the start. */
  lemma {:induction false} EachIsCut(d: Doc, f: Fragment, tier: Tier) returns (n: nat)
    requires f in FragmentsOf(d)
    ensures CutsNext(Iterate(Step(tier), d, n), f, tier)
    decreases Measure(d)
  {
    SomethingGoes(d.fragments.value, DocClasses(d), tier);
    if CutsNext(d, f, tier) {
      return 0;
    }
    var next := DropOne(d, tier).value;
    DropOneShrinks(d, tier);
    StaysUncut(d, f, tier);
    n := EachIsCut(next, f, tier);
    IterateFirst(Step(tier), d, n);
    n := n + 1;
  }

  lemma StaysUncut(d: Doc, f: Fragment, tier: Tier)
    requires f in FragmentsOf(d) && DropOne(d, tier).Some? && !CutsNext(d, f, tier)
    ensures f in FragmentsOf(DropOne(d, tier).value)
  {
    var fs := d.fragments.value;
    var p := DropIndex(fs, DocClasses(d), tier).value;
    var q :| 0 <= q < |fs| && fs[q] == f;
    OthersStay(fs, p, q);
  }

  lemma OthersStay(fs: seq<Fragment>, p: nat, q: nat)
    requires p < |fs| && q < |fs| && p != q
    ensures fs[q] in CutFragments(fs, p)
  {
    var left := CutFragments(fs, p);
    if fs[p].Changed() && Halved(fs[p]).Some? {
      assert left == fs[p := Halved(fs[p]).value];
      assert left[q] == fs[q];
    } else {
      assert left == fs[..p] + fs[p + 1..];
      assert left[if q < p then q else q - 1] == fs[q];
    }
  }

  /** A step that shortens a fragment whose kept lines are not clean shows no prefix. */
  lemma UncleanStepShows(d: Doc, f: Fragment, tier: Tier)
    requires CutsNext(d, f, tier) && !CleanCut(f)
    ensures !Fewer(FragmentsOf(DropOne(d, tier).value), FragmentsOf(d), ShowsPrefix)
  {
    var before, after := FragmentsOf(d), FragmentsOf(DropOne(d, tier).value);
    var p := DropIndex(before, DocClasses(d), tier).value;
    HalvedIsPrefixIff(f);
    assert after == before[p := Halved(f).value];
    if Fewer(after, before, ShowsPrefix) {
      FewerPointwise(after, before, ShowsPrefix);
    }
  }

  lemma NextOfRun(d: Doc, n: nat, tier: Tier)
    requires DropOne(Iterate(Step(tier), d, n), tier).Some?
    ensures Iterate(Step(tier), d, n + 1) == DropOne(Iterate(Step(tier), d, n), tier).value
    ensures forall m | 0 <= m <= n :: DropOne(Iterate(Step(tier), d, m), tier).Some?
  {
    IterateLast(Step(tier), d, n);
  }

  lemma UncleanRun(d: Doc, tier: Tier) returns (n: nat, m: nat)
    requires !CleanCuts(d)
    ensures m == n + 1 && DropOne(Iterate(Step(tier), d, n), tier).Some?
    ensures !Fewer(RunFragments(d, m, tier), RunFragments(d, n, tier), ShowsPrefix)
  {
    var f :| f in FragmentsOf(d) && !CleanCut(f);
    n := EachIsCut(d, f, tier);
    m := n + 1;
    UncleanStepShows(Iterate(Step(tier), d, n), f, tier);
    NextOfRun(d, n, tier);
  }

  /** Along every stretch of the run the lines shown are exactly a prefix of those shown before,
      if and only if no changed fragment of the document would keep a line that ends with a
      carriage return. */
  lemma RunShowsPrefixesIff(d: Doc, tier: Tier)
    ensures (forall n: nat, m: nat | n <= m :: Fewer(RunFragments(d, m, tier), RunFragments(d, n, tier), ShowsPrefix))
       <==> CleanCuts(d)
  {
    if CleanCuts(d) {
      forall n: nat, m: nat | n <= m
        ensures Fewer(RunFragments(d, m, tier), RunFragments(d, n, tier), ShowsPrefix)
      {
        LaterShowsPrefixes(d, n, m, tier);
      }
    } else {
      var n, m := UncleanRun(d, tier);
    }
  }

  // ---------- a larger budget never shows less ----------

  /** The renderer does not print the recorded budget (markdown and text do not). */
  ghost predicate BudgetBlind(render: Render) {
    forall d: Doc, b: Option<nat>, raw: bool :: render(d.(budget := b), raw) == render(d, raw)
  }

  function WithBudget(b: nat): Doc -> Doc {
    (d: Doc) => d.(budget := Some(b))
  }

  lemma RunIgnoresBudget(d: Doc, b: nat, n: nat, tier: Tier)
    ensures Iterate(Step(tier), WithBudget(b)(d), n) == WithBudget(b)(Iterate(Step(tier), d, n))
  {
    IterateCommutes(Step(tier), WithBudget(b), d, n);
  }

  lemma SameCharge(d: Doc, b1: nat, b2: nat, render: Render, count: string -> nat)
    requires BudgetBlind(render)
    ensures ChargedTokens(WithBudget(b1)(d), render, count) == ChargedTokens(WithBudget(b2)(d), render, count)
  {
    var raw := d.rawDiff == "";
    assert render(d.(budget := Some(b1)), raw) == render(d, raw) == render(d.(budget := Some(b2)), raw);
  }

  /** Where the fit of a document that records budget `b` stops in the run of the document. */
  lemma FitStopsAt(d: Doc, b: nat, tier: Tier, render: Render, count: string -> nat) returns (n: nat)
    requires b >= 1
    ensures Fitted(WithBudget(b)(d), tier, render, count) == WithBudget(b)(Iterate(Step(tier), d, n))
    ensures b < UNLIMITED_BUDGET_TOKENS ==> forall m | 0 <= m < n ::
              ChargedTokens(WithBudget(b)(Iterate(Step(tier), d, m)), render, count) > b
    ensures b >= UNLIMITED_BUDGET_TOKENS ==> n == 0
    ensures b < UNLIMITED_BUDGET_TOKENS ==>
              || ChargedTokens(WithBudget(b)(Iterate(Step(tier), d, n)), render, count) <= b
              || DropOne(WithBudget(b)(Iterate(Step(tier), d, n)), tier).None?
  {
    n := 0;
    if b < UNLIMITED_BUDGET_TOKENS {
      StepShrinks(tier);
      n := UntilIsIterate(Step(tier), Measure, Fits(b, render, count), WithBudget(b)(d));
      UntilEnds(Step(tier), Measure, Fits(b, render, count), WithBudget(b)(d));
      forall m: nat
        ensures Iterate(Step(tier), WithBudget(b)(d), m) == WithBudget(b)(Iterate(Step(tier), d, m))
      {
        RunIgnoresBudget(d, b, m, tier);
      }
    }
  }

  /** Two fits of a document with different budgets are two points of its one run, the larger
      budget's not after the smaller one's. */
  lemma FitsAreOrdered(d: Doc, b1: nat, b2: nat, tier: Tier, render: Render, count: string -> nat)
    returns (n: nat, m: nat)
    requires 1 <= b1 <= b2 && BudgetBlind(render)
    ensures n <= m
    ensures FittedFragments(d, b1, tier, render, count) == RunFragments(d, m, tier)
    ensures FittedFragments(d, b2, tier, render, count) == RunFragments(d, n, tier)
  {
    m := FitStopsAt(d, b1, tier, render, count);
    n := FitStopsAt(d, b2, tier, render, count);
    if m < n {
      var stop := Iterate(Step(tier), d, m);
      SameCharge(stop, b1, b2, render, count);
      assert DropOne(WithBudget(b1)(stop), tier).None? ==> DropOne(stop, tier).None?;
      IterateStuck(Step(tier), d, m, n);
      n := m;
    }
  }

  /** The fragments left when the document records budget `b`. */
  function FittedFragments(d: Doc, b: nat, tier: Tier, render: Render, count: string -> nat): seq<Fragment> {
    FragmentsOf(Fitted(WithBudget(b)(d), tier, render, count))
  }

  /** Every fragment left at a smaller budget is left at a larger one, and shows there at least the
      lines it shows here, but for carriage returns at their ends. */
  lemma LargerBudgetShowsNoLess(d: Doc, b1: nat, b2: nat, tier: Tier, render: Render, count: string -> nat)
    requires 1 <= b1 <= b2 && BudgetBlind(render)
    ensures Fewer(FittedFragments(d, b1, tier, render, count), FittedFragments(d, b2, tier, render, count), ShowsLess)
  {
    var n, m := FitsAreOrdered(d, b1, b2, tier, render, count);
    LaterShowsFewer(d, n, m, tier);
  }

  /** At any two budgets, for any renderer that does not print the budget and any count of tokens,
      the smaller one shows exactly prefixes of what the larger one shows. */
  ghost predicate BudgetsShowPrefixes(d: Doc, tier: Tier) {
    forall b1: nat, b2: nat, render: Render, count: string -> nat | 1 <= b1 <= b2 && BudgetBlind(render) ::
      Fewer(FittedFragments(d, b1, tier, render, count), FittedFragments(d, b2, tier, render, count), ShowsPrefix)
  }

  lemma LargerBudgetShowsPrefixesIff(d: Doc, tier: Tier)
    ensures BudgetsShowPrefixes(d, tier) <==> CleanCuts(d)
  {
    if CleanCuts(d) {
      forall b1: nat, b2: nat, render: Render, count: string -> nat | 1 <= b1 <= b2 && BudgetBlind(render)
        ensures Fewer(FittedFragments(d, b1, tier, render, count),
                      FittedFragments(d, b2, tier, render, count), ShowsPrefix)
      {
        var n, m := FitsAreOrdered(d, b1, b2, tier, render, count);
        LaterShowsPrefixes(d, n, m, tier);
      }
    } else {
      var n, m := UncleanRun(d, tier);
      BudgetsStopAt(d, n, m, tier);
    }
  }

  // Any step of a run lies between the fits of two budgets, for a renderer that prints how much is
  // left and a count of tokens that tells the two sides of the step apart.

  function Bars(n: nat): (s: string)
    ensures |s| == n
  {
    seq(n, i => '|')
  }

  function PrintsMeasure(): Render { (d: Doc, raw: bool) => Bars(Measure(d)) }

  function CountsSides(before: nat, after: nat): string -> nat {
    (s: string) => if |s| <= after then 1 else if |s| <= before then 2 else 3
  }

  lemma StepMeasures(d: Doc, n: nat, tier: Tier)
    requires DropOne(Iterate(Step(tier), d, n), tier).Some?
    ensures Measure(Iterate(Step(tier), d, n + 1)) < Measure(Iterate(Step(tier), d, n))
  {
    NextOfRun(d, n, tier);
    DropOneShrinks(Iterate(Step(tier), d, n), tier);
  }

  lemma {:induction false} Descends(f: nat -> nat, m: nat, n: nat)
    requires m < n && forall k: nat | m <= k < n :: f(k + 1) < f(k)
    ensures f(n) < f(m)
    decreases n - m
  {
    if m + 1 < n {
      assert f(m + 1) < f(m);
      Descends(f, m + 1, n);
    }
  }

  lemma RunMeasures(d: Doc, m: nat, n: nat, tier: Tier)
    requires m < n && forall k | m <= k < n :: DropOne(Iterate(Step(tier), d, k), tier).Some?
    ensures Measure(Iterate(Step(tier), d, n)) < Measure(Iterate(Step(tier), d, m))
  {
    var f := (k: nat) => Measure(Iterate(Step(tier), d, k));
    forall k: nat | m <= k < n
      ensures f(k + 1) < f(k)
    {
      StepMeasures(d, k, tier);
    }
    Descends(f, m, n);
  }

  lemma ChargeIsSide(d: Doc, b: nat, n: nat, before: nat, after: nat, tier: Tier)
    ensures ChargedTokens(WithBudget(b)(Iterate(Step(tier), d, n)), PrintsMeasure(), CountsSides(before, after))
         == CountsSides(before, after)(Bars(Measure(Iterate(Step(tier), d, n))))
  {}

  lemma StopsAtSide(d: Doc, b: nat, stop: nat, before: nat, after: nat, tier: Tier)
    requires 1 <= b <= 2 && forall m | 0 <= m < stop :: DropOne(Iterate(Step(tier), d, m), tier).Some?
    requires after < before
    requires Measure(Iterate(Step(tier), d, stop)) == if b == 2 then before else after
    ensures FittedFragments(d, b, tier, PrintsMeasure(), CountsSides(before, after)) == RunFragments(d, stop, tier)
  {
    var n := FitStopsAt(d, b, tier, PrintsMeasure(), CountsSides(before, after));
    ChargeIsSide(d, b, n, before, after, tier);
    ChargeIsSide(d, b, stop, before, after, tier);
    if n < stop {
      RunMeasures(d, n, stop, tier);
    }
    assert n == stop;
  }

  lemma AtBudgets(d: Doc, tier: Tier, b1: nat, b2: nat, render: Render, count: string -> nat)
    requires 1 <= b1 <= b2 && BudgetBlind(render)
    ensures BudgetsShowPrefixes(d, tier) ==>
              Fewer(FittedFragments(d, b1, tier, render, count),
                    FittedFragments(d, b2, tier, render, count), ShowsPrefix)
  {}

  /** Budgets 1 and 2 stop on the two sides of the step. */
  lemma SidesOfStep(d: Doc, n: nat, m: nat, tier: Tier) returns (count: string -> nat)
    requires m == n + 1 && DropOne(Iterate(Step(tier), d, n), tier).Some?
    ensures FittedFragments(d, 1, tier, PrintsMeasure(), count) == RunFragments(d, m, tier)
    ensures FittedFragments(d, 2, tier, PrintsMeasure(), count) == RunFragments(d, n, tier)
  {
    var here, next := Iterate(Step(tier), d, n), Iterate(Step(tier), d, m);
    NextOfRun(d, n, tier);
    DropOneShrinks(here, tier);
    StopsAtSide(d, 2, n, Measure(here), Measure(next), tier);
    StopsAtSide(d, 1, m, Measure(here), Measure(next), tier);
    count := CountsSides(Measure(here), Measure(next));
  }

  lemma MeasureIsBlind()
    ensures BudgetBlind(PrintsMeasure())
  {}

  lemma BudgetsStopAt(d: Doc, n: nat, m: nat, tier: Tier)
    requires m == n + 1 && DropOne(Iterate(Step(tier), d, n), tier).Some?
    requires !Fewer(RunFragments(d, m, tier), RunFragments(d, n, tier), ShowsPrefix)
    ensures !BudgetsShowPrefixes(d, tier)
  {
    var count := SidesOfStep(d, n, m, tier);
    MeasureIsBlind();
    AtBudgets(d, tier, 1, 2, PrintsMeasure(), count);
  }
}
