/** The document cut until its text fits the recorded budget (`artifact.rs`, the fitter). */
module Budget {
  import opened Text

  const UNLIMITED_BUDGET_TOKENS: nat := 10_000_000

  datatype Class = Content | Unknown | Mechanical | Generated | Layout

  datatype Fragment = Fragment(path: string, role: string, lines: string, content: Option<string>) {
    predicate Changed() { role == "changed" }
  }

  datatype Change = Change(path: Option<string>, class_: Option<Class>, noFragments: bool, represented: Option<bool>)

  /** A missing `limit_reasons` is an empty one: the serializer leaves an empty list out. */
  datatype Coverage = Coverage(status: Option<string>, limitReasons: seq<string>)

  datatype Doc = Doc(
    budget: Option<nat>, rawDiff: string,
    fragments: Option<seq<Fragment>>, fragmentCount: Option<nat>,
    changes: Option<seq<Change>>, coverage: Option<Coverage>
  )

  const CUT := "selection_budget_exceeded"

  // ---------- shortening one fragment ----------

  const MARKER_PREFIX := "\U{2026} ["
  const MARKER_SUFFIX := " more lines of this change]"

  function Marker(hidden: nat): string {
    MARKER_PREFIX + NatText(hidden) + MARKER_SUFFIX
  }

  /** The number a clip marker names. */
  function MarkerCount(line: string): Option<nat> {
    match StripPrefix(line, MARKER_PREFIX)
    case None => None
    case Some(rest) =>
      match StripSuffix(rest, MARKER_SUFFIX)
      case None => None
      case Some(n) => ParseNat(n)
  }

  /** The lines a fragment shows and the number it says it hides. */
  function Shown(lines: seq<string>): (r: (seq<string>, nat))
    ensures r.0 <= lines
  {
    if lines != [] && MarkerCount(lines[|lines| - 1]).Some? then
      (lines[..|lines| - 1], MarkerCount(lines[|lines| - 1]).value)
    else (lines, 0)
  }

  function ShownOf(f: Fragment): (seq<string>, nat) {
    if f.content.None? then ([], 0) else Shown(Lines(f.content.value))
  }

  function Keep(n: nat): (k: nat)
    requires n >= 2
    ensures 1 <= k < n
  {
    n * 3 / 4
  }

  function StartOf(lines: string): nat {
    match ParseNat(lines[..IndexOf(lines, '-')])
    case Some(n) => n
    case None => 1
  }

  function Span(start: nat, len: nat): string
    requires len >= 1
  {
    NatText(start) + "-" + NatText(start + len - 1)
  }

  /** The first lines, and how many follow them in all. */
  function Clipped(lines: seq<string>, hidden: nat): string
    requires |lines| >= 2
  {
    JoinLines(lines[..Keep(|lines|)] + [Marker(hidden + |lines| - Keep(|lines|))])
  }

  function Halved(f: Fragment): Option<Fragment> {
    if f.content.None? then None
    else
      var (lines, hidden) := ShownOf(f);
      if |lines| < 2 then None
      else
        Some(f.(lines := Span(StartOf(f.lines), Keep(|lines|)), content := Some(Clipped(lines, hidden))))
  }

  // ---------- which fragment goes next ----------

  type Classes = map<string, Class>

  function PathOr(c: Change): string {
    if c.path.Some? then c.path.value else ""
  }

  function ClassesOf(changes: seq<Change>): Classes {
    if changes == [] then map[]
    else
      var c := changes[|changes| - 1];
      var m := ClassesOf(changes[..|changes| - 1]);
      if c.class_.Some? then m[PathOr(c) := c.class_.value] else m
  }

  function ClassOf(classes: Classes, path: string): Class {
    if path in classes then classes[path] else Content
  }

  /** Change `i` is the last that gives `path` a class. A change without a path is of the path "". */
  ghost predicate ClassesLast(changes: seq<Change>, path: string, i: nat) {
    && i < |changes| && changes[i].class_.Some? && IsOf(changes[i], path)
    && forall j | i < j < |changes| && IsOf(changes[j], path) :: changes[j].class_.None?
  }

  predicate IsOf(c: Change, path: string) {
    c.path == Some(path) || (c.path.None? && path == "")
  }

  ghost predicate Unclassed(changes: seq<Change>, path: string) {
    forall i | 0 <= i < |changes| && IsOf(changes[i], path) :: changes[i].class_.None?
  }

  ghost predicate GivenLast(changes: seq<Change>, path: string, class_: Class) {
    exists i: nat :: ClassesLast(changes, path, i) && class_ == changes[i].class_.value
  }

  /** The class the changes give a path: that of the last one that gives it one, else content. */
  ghost predicate Given(changes: seq<Change>, path: string, class_: Class) {
    if Unclassed(changes, path) then class_ == Content else GivenLast(changes, path, class_)
  }

  ghost predicate Classed(changes: seq<Change>, path: string, classes: Classes) {
    if path in classes then GivenLast(changes, path, classes[path]) else Unclassed(changes, path)
  }

  /** A path has a class exactly when some change gives it one, and it is the last one given. */
  ghost predicate Classify(changes: seq<Change>, classes: Classes) {
    forall path :: Classed(changes, path, classes)
  }

  lemma GivenIsUnique(changes: seq<Change>, path: string, a: Class, b: Class)
    requires GivenLast(changes, path, a)
    ensures !Unclassed(changes, path) && (GivenLast(changes, path, b) ==> a == b)
  {
    var i: nat :| ClassesLast(changes, path, i) && a == changes[i].class_.value;
    if GivenLast(changes, path, b) {
      var j: nat :| ClassesLast(changes, path, j) && b == changes[j].class_.value;
      assert i == j;
    }
  }

  lemma GivenByNext(changes: seq<Change>, c: Change, path: string)
    requires c.class_.Some? && IsOf(c, path)
    ensures GivenLast(changes + [c], path, c.class_.value)
  {
    assert ClassesLast(changes + [c], path, |changes|);
  }

  lemma NotGivenByNext(changes: seq<Change>, c: Change, path: string, classes: Classes, next: Classes)
    requires Classed(changes, path, classes) && !(c.class_.Some? && IsOf(c, path))
    requires if path in classes then path in next && next[path] == classes[path] else path !in next
    ensures Classed(changes + [c], path, next)
  {
    var all := changes + [c];
    assert all[|changes|] == c && forall i | 0 <= i < |changes| :: all[i] == changes[i];
    if path in classes {
      var i: nat :| ClassesLast(changes, path, i) && classes[path] == changes[i].class_.value;
      assert ClassesLast(all, path, i);
    }
  }

  lemma ClassifyNext(changes: seq<Change>, classes: Classes, c: Change)
    requires Classify(changes, classes)
    ensures Classify(changes + [c], if c.class_.Some? then classes[PathOr(c) := c.class_.value] else classes)
  {
    var next := if c.class_.Some? then classes[PathOr(c) := c.class_.value] else classes;
    forall path
      ensures Classed(changes + [c], path, next)
    {
      if c.class_.Some? && IsOf(c, path) {
        GivenByNext(changes, c, path);
      } else {
        NotGivenByNext(changes, c, path, classes, next);
      }
    }
  }

  lemma {:induction false} ClassesAreLast(changes: seq<Change>)
    ensures Classify(changes, ClassesOf(changes))
    decreases |changes|
  {
    if changes != [] {
      ClassesAreLast(changes[..|changes| - 1]);
      ClassifyNext(changes[..|changes| - 1], ClassesOf(changes[..|changes| - 1]), changes[|changes| - 1]);
      assert changes == changes[..|changes| - 1] + [changes[|changes| - 1]];
    }
  }

  /** A path is ranked by the class the changes give it. */
  lemma ClassIsGiven(changes: seq<Change>, path: string, class_: Class)
    ensures Given(changes, path, class_) <==> ClassOf(ClassesOf(changes), path) == class_
  {
    var classes := ClassesOf(changes);
    ClassesAreLast(changes);
    assert Classed(changes, path, classes);
    if path in classes {
      GivenIsUnique(changes, path, classes[path], class_);
    }
  }

  /** The fragments of a file among the first `k`. */
  function CountIn(fs: seq<Fragment>, path: string, k: nat): nat
    requires k <= |fs|
  {
    if k == 0 then 0 else CountIn(fs, path, k - 1) + if fs[k - 1].path == path then 1 else 0
  }

  function LastContext(fs: seq<Fragment>, k: nat): (r: Option<nat>)
    requires k <= |fs|
    ensures r.Some? ==> r.value < k && !fs[r.value].Changed()
    ensures forall i | (if r.Some? then r.value + 1 else 0) <= i < k :: fs[i].Changed()
  {
    if k == 0 then None
    else if !fs[k - 1].Changed() then Some(k - 1)
    else LastContext(fs, k - 1)
  }

  type Tier = (string, Class) -> nat

  function TierOf(f: Fragment, classes: Classes, tier: Tier): nat {
    tier(f.path, ClassOf(classes, f.path))
  }

  predicate Candidate(fs: seq<Fragment>, second: bool, i: nat)
    requires i < |fs|
  {
    !second || CountIn(fs, fs[i].path, |fs|) > 1
  }

  /** The candidate of the greatest tier, then the greatest index, among the first `k`. */
  function Lowest(fs: seq<Fragment>, classes: Classes, tier: Tier, second: bool, k: nat): (r: Option<nat>)
    requires k <= |fs|
    ensures r.Some? ==> r.value < k && Candidate(fs, second, r.value)
    ensures forall i | 0 <= i < k && Candidate(fs, second, i) ::
      && r.Some?
      && (|| TierOf(fs[i], classes, tier) < TierOf(fs[r.value], classes, tier)
          || (TierOf(fs[i], classes, tier) == TierOf(fs[r.value], classes, tier) && i <= r.value))
  {
    if k == 0 then None
    else
      var best := Lowest(fs, classes, tier, second, k - 1);
      if !Candidate(fs, second, k - 1) then best
      else if best.None? || TierOf(fs[best.value], classes, tier) <= TierOf(fs[k - 1], classes, tier) then Some(k - 1)
      else best
  }

  function DropIndex(fs: seq<Fragment>, classes: Classes, tier: Tier): (r: Option<nat>)
    ensures r.Some? ==> r.value < |fs|
    ensures r.None? <==> fs == []
  {
    var context := LastContext(fs, |fs|);
    if context.Some? then context
    else
      var second := Lowest(fs, classes, tier, true, |fs|);
      if second.Some? then second
      else
        assert fs != [] ==> Candidate(fs, false, 0);
        Lowest(fs, classes, tier, false, |fs|)
  }

  // ---------- one cut ----------

  function CutFragments(fs: seq<Fragment>, i: nat): seq<Fragment>
    requires i < |fs|
  {
    if fs[i].Changed() && Halved(fs[i]).Some? then fs[i := Halved(fs[i]).value]
    else fs[..i] + fs[i + 1..]
  }

  function Paths(fs: seq<Fragment>): set<string> {
    set f | f in fs :: f.path
  }

  predicate IsShown(c: Change, paths: set<string>) {
    c.path.Some? && c.path.value in paths
  }

  function MarkAll(changes: seq<Change>, paths: set<string>): (r: seq<Change>)
    ensures |r| == |changes|
    ensures forall i | 0 <= i < |changes| :: r[i] == changes[i].(represented := Some(IsShown(changes[i], paths)))
  {
    if changes == [] then []
    else [changes[0].(represented := Some(IsShown(changes[0], paths)))] + MarkAll(changes[1..], paths)
  }

  /** Some change that yielded fragments has none left. */
  predicate Unrepresented(changes: seq<Change>, paths: set<string>) {
    exists c :: c in changes && !IsShown(c, paths) && !c.noFragments
  }

  function CutCoverage(coverage: Option<Coverage>, unrepresented: bool): Coverage {
    var c := if coverage.Some? then coverage.value else Coverage(Some("partial"), []);
    Coverage(
      if unrepresented then Some("degraded") else if c.status == Some("complete") then Some("partial") else c.status,
      if CUT in c.limitReasons then c.limitReasons else c.limitReasons + [CUT])
  }

  function DocClasses(d: Doc): Classes {
    ClassesOf(if d.changes.Some? then d.changes.value else [])
  }

  function DropOne(d: Doc, tier: Tier): Option<Doc> {
    if d.fragments.None? then None
    else
      var fs := d.fragments.value;
      var index := DropIndex(fs, DocClasses(d), tier);
      if index.None? then None
      else
        var left := CutFragments(fs, index.value);
        var changes := if d.changes.Some? then d.changes.value else [];
        Some(d.(fragments := Some(left),
                fragmentCount := Some(|left|),
                changes := if d.changes.Some? then Some(MarkAll(changes, Paths(left))) else None,
                coverage := Some(CutCoverage(d.coverage, Unrepresented(changes, Paths(left))))))
  }

  // ---------- the fit ----------

  function RecordedBudget(d: Doc): Option<nat> {
    if d.budget.Some? && 0 < d.budget.value < UNLIMITED_BUDGET_TOKENS then d.budget else None
  }

  /** The renderer of one format, with or without the raw diff. */
  type Render = (Doc, bool) -> string

  function ChargedTokens(d: Doc, render: Render, count: string -> nat): nat {
    count(render(d, d.rawDiff == ""))
  }

  /** What a fragment still has to lose. */
  function Weight(f: Fragment): nat { 1 + |ShownOf(f).0| }

  function WeightOf(fs: seq<Fragment>): nat {
    if fs == [] then 0 else Weight(fs[0]) + WeightOf(fs[1..])
  }

  function Measure(d: Doc): nat {
    if d.fragments.None? then 0 else WeightOf(d.fragments.value)
  }

  // ---------- shortening shows less ----------

  lemma Enclosed(prefix: string, text: string, suffix: string)
    ensures StripPrefix(prefix + text + suffix, prefix) == Some(text + suffix)
    ensures StripSuffix(text + suffix, suffix) == Some(text)
    ensures '\n' !in prefix && '\n' !in text && '\n' !in suffix ==> '\n' !in prefix + text + suffix
  {
    assert prefix + text + suffix == prefix + (text + suffix);
  }

  lemma MarkerReads(hidden: nat)
    ensures MarkerCount(Marker(hidden)) == Some(hidden)
    ensures '\n' !in Marker(hidden) && StripCR(Marker(hidden)) == Marker(hidden)
  {
    ParseNatOfNatText(hidden);
    Enclosed(MARKER_PREFIX, NatText(hidden), MARKER_SUFFIX);
    assert MARKER_SUFFIX[|MARKER_SUFFIX| - 1] == ']';
  }

  lemma ShownMarked(lines: seq<string>, hidden: nat)
    ensures Shown(lines + [Marker(hidden)]) == (lines, hidden)
  {
    MarkerReads(hidden);
    assert (lines + [Marker(hidden)])[..|lines|] == lines;
  }

  /** No line ends with a carriage return. */
  predicate PlainLines(lines: seq<string>) { forall i | 0 <= i < |lines| :: StripCR(lines[i]) == lines[i] }

  lemma LinesOfJoined(kept: seq<string>, last: string)
    requires forall i | 0 <= i < |kept| :: '\n' !in kept[i]
    requires '\n' !in last && StripCR(last) == last
    ensures Lines(JoinLines(kept + [last])) == Stripped(kept) + [last]
  {
    LinesOfAny(kept + [last]);
    StrippedAppend(kept, last);
  }

  /** The text shows these lines and says that so many are hidden. */
  ghost predicate Displays(text: string, lines: seq<string>, hidden: nat) { Shown(Lines(text)) == (lines, hidden) }

  lemma ClippedReads(kept: seq<string>, count: nat)
    requires forall i | 0 <= i < |kept| :: '\n' !in kept[i]
    ensures Displays(JoinLines(kept + [Marker(count)]), Stripped(kept), count)
  {
    MarkerReads(count);
    LinesOfJoined(kept, Marker(count));
    ShownMarked(Stripped(kept), count);
  }

  /** A shortened fragment shows the first lines of what was shown, up to a final `\r` of a
      line, and names the number of lines hidden in all. */
  lemma HalvedShows(f: Fragment)
    requires Halved(f).Some?
    ensures var (lines, hidden) := ShownOf(f);
      && |lines| >= 2
      && ShownOf(Halved(f).value) == (Stripped(lines[..Keep(|lines|)]), hidden + |lines| - Keep(|lines|))
  {
    var (lines, hidden) := ShownOf(f);
    LinesHoldNoLineFeed(f.content.value);
    HalvedContent(f);
    ClippedShows(lines, hidden);
  }

  lemma ClippedShows(lines: seq<string>, hidden: nat)
    requires |lines| >= 2 && forall i | 0 <= i < |lines| :: '\n' !in lines[i]
    ensures Displays(Clipped(lines, hidden), Stripped(lines[..Keep(|lines|)]), hidden + |lines| - Keep(|lines|))
  {
    var kept := lines[..Keep(|lines|)];
    assert forall i | 0 <= i < |kept| :: kept[i] == lines[i];
    ClippedReads(kept, hidden + |lines| - Keep(|lines|));
  }

  lemma HalvedContent(f: Fragment)
    requires Halved(f).Some?
    ensures var (lines, hidden) := ShownOf(f);
      && |lines| >= 2
      && ShownOf(Halved(f).value) == Shown(Lines(Clipped(lines, hidden)))
  {}

  /** Three quarters of the lines shown are kept, rounded down. */
  lemma HalvedKeeps(f: Fragment)
    requires Halved(f).Some?
    ensures var (n, k) := (|ShownOf(f).0|, |ShownOf(Halved(f).value).0|); 4 * k <= 3 * n < 4 * k + 4
  {
    HalvedShows(f);
  }

  /** The first and the last line a fragment names. */
  function LineRange(lines: string): Option<(nat, nat)> {
    var k := IndexOf(lines, '-');
    if k == |lines| then None
    else
      match (ParseNat(lines[..k]), ParseNat(lines[k + 1..]))
      case (Some(a), Some(b)) => Some((a, b))
      case _ => None
  }

  lemma SpanReads(start: nat, len: nat)
    requires len >= 1
    ensures LineRange(Span(start, len)) == Some((start, start + len - 1))
  {
    var a, b := NatText(start), NatText(start + len - 1);
    assert Span(start, len) == a + ['-'] + b;
    assert '-' !in a by {
      assert forall i | 0 <= i < |a| :: IsDigit(a[i]);
    }
    IndexOfPart(a, '-', b);
    ParseNatOfNatText(start);
    ParseNatOfNatText(start + len - 1);
  }

  /** A shortened fragment names as many lines as it shows, from its first one on, or from line 1
      if it named none. */
  lemma HalvedNamesLines(f: Fragment)
    requires Halved(f).Some?
    ensures var (k, named) := (|ShownOf(Halved(f).value).0|, LineRange(Halved(f).value.lines));
      && named.Some? && named.value.1 + 1 == named.value.0 + k
      && (LineRange(f.lines).Some? ==> named.value.0 == LineRange(f.lines).value.0)
      && (ParseNat(f.lines[..IndexOf(f.lines, '-')]).None? ==> named.value.0 == 1)
  {
    HalvedShows(f);
    SpanReads(StartOf(f.lines), Keep(|ShownOf(f).0|));
  }

  /** After a cut: the status is degraded when something is left unrepresented, never complete, and
      otherwise what it was, or partial; the reason is listed once, behind the others if it was not
      listed. */
  lemma CutCoverageStands(coverage: Option<Coverage>, unrepresented: bool)
    ensures var (c, reasons) := (CutCoverage(coverage, unrepresented),
                                 if coverage.Some? then coverage.value.limitReasons else []);
      && (unrepresented ==> c.status == Some("degraded"))
      && (!unrepresented && (coverage.None? || coverage.value.status == Some("complete")) ==>
            c.status == Some("partial"))
      && (!unrepresented && coverage.Some? && coverage.value.status != Some("complete") ==>
            c.status == coverage.value.status)
      && reasons <= c.limitReasons && CUT in c.limitReasons
      && |c.limitReasons| == |reasons| + (if CUT in reasons then 0 else 1)
  {
  }
}
