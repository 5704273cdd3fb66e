/** The order a run of the fitter takes fragments in: one order, fixed by the document it
    starts from. Context goes first, from the tail; then every changed fragment that is not the
    first of its file, the highest tier first and from the tail within a tier; then the first
    ones in the same way. */
module BudgetOrder {
  import opened Text
  import opened Runs
  import opened Budget
  import opened BudgetRuns

  // ---------- the order ----------

  ghost predicate FirstOfFile(all: seq<Fragment>, i: nat)
    requires i < |all|
  {
    forall j | 0 <= j < i :: !(all[j].Changed() && all[j].path == all[i].path)
  }

  ghost function Phase(all: seq<Fragment>, i: nat): nat
    requires i < |all|
  {
    if !all[i].Changed() then 2 else if FirstOfFile(all, i) then 0 else 1
  }

  ghost function Rank(all: seq<Fragment>, classes: Classes, tier: Tier, i: nat): nat
    requires i < |all|
  {
    if all[i].Changed() then TierOf(all[i], classes, tier) else 0
  }

  /** Fragment `i` goes before fragment `j`. */
  ghost predicate Sooner(all: seq<Fragment>, classes: Classes, tier: Tier, i: nat, j: nat)
    requires i < |all| && j < |all|
  {
    var (p, q) := (Phase(all, i), Phase(all, j));
    var (s, t) := (Rank(all, classes, tier, i), Rank(all, classes, tier, j));
    p > q || (p == q && (s > t || (s == t && i > j)))
  }

  // ---------- a document a run has reached ----------

  /** The first `k` lines and the number of those that follow. */
  function Prefix(lines: seq<string>, k: nat): string
    requires k <= |lines|
  {
    JoinLines(lines[..k] + [Marker(|lines| - k)])
  }

  /** `original` showing only its first `k` lines and naming the rest. */
  function ClipAt(original: Fragment, k: nat): Fragment
    requires original.content.Some? && 1 <= k <= |Lines(original.content.value)|
  {
    var lines := Lines(original.content.value);
    original.(lines := Span(StartOf(original.lines), k),
              content := Some(Prefix(lines, k)))
  }

  ghost predicate ClippedFrom(original: Fragment, f: Fragment) {
    && original.content.Some?
    && exists k :: 1 <= k < |Lines(original.content.value)| && f == ClipAt(original, k)
  }

  ghost predicate Increasing(kept: seq<nat>, n: nat) {
    && (forall p | 0 <= p < |kept| :: kept[p] < n)
    && (forall p, q | 0 <= p < q < |kept| :: kept[p] < kept[q])
  }

  /** The fragments at `kept` are what is left: whatever goes after one of them is left too. */
  ghost predicate Closed(all: seq<Fragment>, classes: Classes, tier: Tier, kept: seq<nat>)
    requires Increasing(kept, |all|)
  {
    forall p, j | 0 <= p < |kept| && 0 <= j < |all| && Sooner(all, classes, tier, kept[p], j) :: j in kept
  }

  ghost predicate SameFile(all: seq<Fragment>, fs: seq<Fragment>, kept: seq<nat>) {
    && Increasing(kept, |all|) && |fs| == |kept|
    && forall p | 0 <= p < |fs| :: fs[p].path == all[kept[p]].path && fs[p].role == all[kept[p]].role
  }

  /** `f` is `original`, shortened: it shows no more and names the rest. If the original's text is
      fresh, it is the original clipped at some line. */
  ghost predicate Shortened(original: Fragment, f: Fragment) {
    f.Changed() && ShowsLess(f, original) && (Fresh(original) ==> ClippedFrom(original, f))
  }

  /** `fs` is what a run from `all` has left: all untouched but the one that goes next, which
      may have been shortened. */
  ghost predicate Reached(all: seq<Fragment>, classes: Classes, tier: Tier, fs: seq<Fragment>, kept: seq<nat>) {
    && SameFile(all, fs, kept) && Closed(all, classes, tier, kept)
    && forall p | 0 <= p < |fs| && fs[p] != all[kept[p]] ::
         DropIndex(fs, classes, tier) == Some(p) && Shortened(all[kept[p]], fs[p])
  }

  // ---------- the next one to go is the soonest one left ----------

  lemma {:induction false} CountAtMostOne(fs: seq<Fragment>, path: string, p: nat, k: nat)
    requires k <= |fs| && forall q | 0 <= q < k && q != p :: fs[q].path != path
    ensures CountIn(fs, path, k) <= if p < k then 1 else 0
  {
    if k > 0 {
      CountAtMostOne(fs, path, p, k - 1);
    }
  }

  lemma {:induction false} CountAtLeast(fs: seq<Fragment>, path: string, p: nat, q: nat, k: nat)
    requires p < q < |fs| && k <= |fs| && fs[p].path == path && fs[q].path == path
    ensures CountIn(fs, path, k) >= if q < k then 2 else if p < k then 1 else 0
  {
    if k > 0 {
      CountAtLeast(fs, path, p, q, k - 1);
    }
  }

  /** A file has a second fragment exactly when some other fragment has its path. */
  lemma SecondIffOther(fs: seq<Fragment>, p: nat)
    requires p < |fs|
    ensures Candidate(fs, true, p) <==> exists q :: 0 <= q < |fs| && q != p && fs[q].path == fs[p].path
  {
    if q :| 0 <= q < |fs| && q != p && fs[q].path == fs[p].path {
      CountAtLeast(fs, fs[p].path, if p < q then p else q, if p < q then q else p, |fs|);
    } else {
      CountAtMostOne(fs, fs[p].path, p, |fs|);
    }
  }

  ghost predicate AllChanged(fs: seq<Fragment>) {
    forall p | 0 <= p < |fs| :: fs[p].Changed()
  }

  /** A changed fragment left that is not the first of its file has another one left above it. */
  lemma EarlierIsLeft(all: seq<Fragment>, classes: Classes, tier: Tier, fs: seq<Fragment>, kept: seq<nat>, q: nat)
    returns (e: nat)
    requires SameFile(all, fs, kept) && Closed(all, classes, tier, kept)
    requires q < |fs| && fs[q].Changed() && !FirstOfFile(all, kept[q])
    ensures e < q && fs[e].path == fs[q].path
  {
    var j :| 0 <= j < kept[q] && all[j].Changed() && all[j].path == all[kept[q]].path;
    assert Sooner(all, classes, tier, kept[q], j) && j < |all|;
    assert j in kept;
    e :| 0 <= e < |kept| && kept[e] == j;
  }

  lemma SecondIsNotFirst(all: seq<Fragment>, fs: seq<Fragment>, kept: seq<nat>, e: nat, q: nat)
    requires SameFile(all, fs, kept) && e < q < |fs| && fs[e].Changed() && fs[e].path == fs[q].path
    ensures !FirstOfFile(all, kept[q])
  {
    assert kept[e] < kept[q] && all[kept[e]].Changed();
  }

  lemma PickAmongSeconds(all: seq<Fragment>, classes: Classes, tier: Tier, fs: seq<Fragment>, kept: seq<nat>, p: nat)
    requires SameFile(all, fs, kept) && Closed(all, classes, tier, kept) && AllChanged(fs)
    requires Lowest(fs, classes, tier, true, |fs|) == Some(p)
    ensures p < |fs|
    ensures forall q | 0 <= q < |fs| && q != p :: Sooner(all, classes, tier, kept[p], kept[q])
  {
    SecondIffOther(fs, p);
    var o :| 0 <= o < |fs| && o != p && fs[o].path == fs[p].path;
    SecondIffOther(fs, o);
    assert TierOf(fs[o], classes, tier) == TierOf(fs[p], classes, tier) && o < p;
    SecondIsNotFirst(all, fs, kept, o, p);
    forall q | 0 <= q < |fs| && q != p
      ensures Sooner(all, classes, tier, kept[p], kept[q])
    {
      if !FirstOfFile(all, kept[q]) {
        var e := EarlierIsLeft(all, classes, tier, fs, kept, q);
        SecondIffOther(fs, q);
        assert Candidate(fs, true, q);
        assert q < p ==> kept[q] < kept[p];
      }
    }
  }

  lemma PickAmongFirsts(all: seq<Fragment>, classes: Classes, tier: Tier, fs: seq<Fragment>, kept: seq<nat>, p: nat)
    requires SameFile(all, fs, kept) && Closed(all, classes, tier, kept) && AllChanged(fs)
    requires Lowest(fs, classes, tier, true, |fs|) == None && Lowest(fs, classes, tier, false, |fs|) == Some(p)
    ensures p < |fs|
    ensures forall q | 0 <= q < |fs| && q != p :: Sooner(all, classes, tier, kept[p], kept[q])
  {
    forall q | 0 <= q < |fs|
      ensures FirstOfFile(all, kept[q])
    {
      if !FirstOfFile(all, kept[q]) {
        var e := EarlierIsLeft(all, classes, tier, fs, kept, q);
        SecondIffOther(fs, q);
        assert false;
      }
    }
    forall q | 0 <= q < |fs| && q != p
      ensures Sooner(all, classes, tier, kept[p], kept[q])
    {
      assert Candidate(fs, false, q);
      assert q < p ==> kept[q] < kept[p];
    }
  }

  lemma PickIsSoonest(all: seq<Fragment>, classes: Classes, tier: Tier, fs: seq<Fragment>, kept: seq<nat>, p: nat)
    requires SameFile(all, fs, kept) && Closed(all, classes, tier, kept)
    requires DropIndex(fs, classes, tier) == Some(p)
    ensures p < |fs|
    ensures forall q | 0 <= q < |fs| && q != p :: Sooner(all, classes, tier, kept[p], kept[q])
  {
    if LastContext(fs, |fs|).Some? {
      forall q | 0 <= q < |fs| && q != p
        ensures Sooner(all, classes, tier, kept[p], kept[q])
      {
        assert q < p ==> kept[q] < kept[p];
      }
    } else if Lowest(fs, classes, tier, true, |fs|).Some? {
      PickAmongSeconds(all, classes, tier, fs, kept, p);
    } else {
      PickAmongFirsts(all, classes, tier, fs, kept, p);
    }
  }

  /** Two different fragments go one after the other. */
  lemma SoonerIsTotal(all: seq<Fragment>, classes: Classes, tier: Tier, i: nat, j: nat)
    requires i < |all| && j < |all|
    ensures i != j ==> (Sooner(all, classes, tier, i, j) <==> !Sooner(all, classes, tier, j, i))
    ensures !Sooner(all, classes, tier, i, i)
  {
  }

  // ---------- a cut keeps the order ----------

  /** A fragment as selected: no line ends with `\r`, the last line is not a clip marker. */
  predicate Fresh(f: Fragment) {
    f.content.Some? ==>
      var lines := Lines(f.content.value);
      && PlainLines(lines)
      && (lines != [] ==> MarkerCount(lines[|lines| - 1]).None?)
  }

  lemma SpanStart(start: nat, len: nat)
    requires len >= 1
    ensures StartOf(Span(start, len)) == start
  {
    IndexOfPart(NatText(start), '-', NatText(start + len - 1));
    assert Span(start, len) == NatText(start) + ['-'] + NatText(start + len - 1);
    ParseNatOfNatText(start);
  }

  lemma PlainClipReads(kept: seq<string>, count: nat)
    requires PlainLines(kept) && forall i | 0 <= i < |kept| :: '\n' !in kept[i]
    ensures Displays(JoinLines(kept + [Marker(count)]), kept, count)
  {
    ClippedReads(kept, count);
    StrippedPlain(kept);
  }

  lemma PrefixIsPlain(lines: seq<string>, k: nat)
    requires k <= |lines| && PlainLines(lines) && forall i | 0 <= i < |lines| :: '\n' !in lines[i]
    ensures PlainLines(lines[..k]) && forall i | 0 <= i < k :: '\n' !in lines[..k][i]
  {}

  lemma PrefixReads(lines: seq<string>, k: nat)
    requires k <= |lines| && PlainLines(lines) && forall i | 0 <= i < |lines| :: '\n' !in lines[i]
    ensures Displays(Prefix(lines, k), lines[..k], |lines| - k)
  {
    PrefixIsPlain(lines, k);
    PlainClipReads(lines[..k], |lines| - k);
  }

  lemma ClipAtShows(original: Fragment, k: nat)
    requires original.content.Some? && Fresh(original) && 1 <= k < |Lines(original.content.value)|
    ensures var lines := Lines(original.content.value);
            ShownOf(ClipAt(original, k)) == (lines[..k], |lines| - k)
  {
    var lines := Lines(original.content.value);
    LinesHoldNoLineFeed(original.content.value);
    PrefixReads(lines, k);
  }

  lemma ClippedTwice(lines: seq<string>, k: nat)
    requires 2 <= k < |lines|
    ensures Clipped(lines[..k], |lines| - k) == Prefix(lines, Keep(k))
  {
    assert lines[..k][..Keep(k)] == lines[..Keep(k)];
  }

  /** Clipping once, or clipping what is clipped, is clipping the original. */
  lemma HalvedIsClip(original: Fragment, f: Fragment)
    requires Fresh(original) && (f == original || ClippedFrom(original, f)) && Halved(f).Some?
    ensures ClippedFrom(original, Halved(f).value)
  {
    var lines := Lines(original.content.value);
    if f == original {
      assert ShownOf(f) == (lines, 0);
      assert Halved(f).value == ClipAt(original, Keep(|lines|));
    } else {
      var k :| 1 <= k < |lines| && f == ClipAt(original, k);
      ClipAtShows(original, k);
      SpanStart(StartOf(original.lines), k);
      ClippedTwice(lines, k);
      assert Halved(f).value == ClipAt(original, Keep(k));
    }
  }

  /** Shortening again is shortening. */
  lemma HalvedIsShortened(original: Fragment, f: Fragment)
    requires f.Changed() && (f == original || Shortened(original, f)) && Halved(f).Some?
    ensures Shortened(original, Halved(f).value)
  {
    HalvedShowsLess(f);
    if Fresh(original) {
      HalvedIsClip(original, f);
    }
  }

  lemma ReachedClip(all: seq<Fragment>, classes: Classes, tier: Tier, fs: seq<Fragment>, kept: seq<nat>, p: nat)
    requires Reached(all, classes, tier, fs, kept) && DropIndex(fs, classes, tier) == Some(p)
    requires fs[p].Changed() && Halved(fs[p]).Some?
    ensures Reached(all, classes, tier, fs[p := Halved(fs[p]).value], kept)
  {
    var fs' := fs[p := Halved(fs[p]).value];
    HalvedIsShortened(all[kept[p]], fs[p]);
    PickReadsFilesOnly(all, classes, tier, fs, fs', kept);
  }

  /** Which fragment goes next depends on paths and roles only. */
  lemma PickReadsFilesOnly(all: seq<Fragment>, classes: Classes, tier: Tier, fs: seq<Fragment>, fs': seq<Fragment>,
                           kept: seq<nat>)
    requires SameFile(all, fs, kept) && SameFile(all, fs', kept) && Closed(all, classes, tier, kept)
    ensures DropIndex(fs, classes, tier) == DropIndex(fs', classes, tier)
  {
    if fs != [] {
      var p, q := DropIndex(fs, classes, tier).value, DropIndex(fs', classes, tier).value;
      PickIsSoonest(all, classes, tier, fs, kept, p);
      PickIsSoonest(all, classes, tier, fs', kept, q);
      SoonerIsTotal(all, classes, tier, kept[p], kept[q]);
    }
  }

  function Without<T>(s: seq<T>, p: nat): seq<T>
    requires p < |s|
  {
    s[..p] + s[p + 1..]
  }

  lemma WithoutAt<T>(s: seq<T>, p: nat, q: nat)
    requires p < |s| && q < |s| - 1
    ensures Without(s, p)[q] == s[if q < p then q else q + 1]
  {
  }

  lemma ClosedWithout(all: seq<Fragment>, classes: Classes, tier: Tier, kept: seq<nat>, p: nat)
    requires Increasing(kept, |all|) && Closed(all, classes, tier, kept) && p < |kept|
    requires forall q | 0 <= q < |kept| && q != p :: Sooner(all, classes, tier, kept[p], kept[q])
    ensures Increasing(Without(kept, p), |all|) && Closed(all, classes, tier, Without(kept, p))
  {
    var kept' := Without(kept, p);
    forall q, j | 0 <= q < |kept'| && 0 <= j < |all| && Sooner(all, classes, tier, kept'[q], j)
      ensures j in kept'
    {
      var q0 := if q < p then q else q + 1;
      assert kept'[q] == kept[q0];
      assert j in kept;
      SoonerIsTotal(all, classes, tier, kept[p], kept[q0]);
      assert j != kept[p];
      var r :| 0 <= r < |kept| && kept[r] == j;
      assert kept'[if r < p then r else r - 1] == j;
    }
  }

  lemma ReachedWithout(all: seq<Fragment>, classes: Classes, tier: Tier, fs: seq<Fragment>, kept: seq<nat>, p: nat)
    requires Reached(all, classes, tier, fs, kept) && DropIndex(fs, classes, tier) == Some(p)
    ensures p < |kept| && Reached(all, classes, tier, Without(fs, p), Without(kept, p))
  {
    PickIsSoonest(all, classes, tier, fs, kept, p);
    ClosedWithout(all, classes, tier, kept, p);
    forall q | 0 <= q < |Without(fs, p)|
      ensures Without(fs, p)[q] == all[Without(kept, p)[q]]
    {
      WithoutAt(fs, p, q);
      WithoutAt(kept, p, q);
    }
  }

  // ---------- whole runs ----------

  lemma {:induction false} ClassesOfMarked(a: seq<Change>, b: seq<Change>)
    requires |a| == |b| && forall i | 0 <= i < |a| :: a[i].path == b[i].path && a[i].class_ == b[i].class_
    ensures ClassesOf(a) == ClassesOf(b)
    decreases |a|
  {
    if a != [] {
      ClassesOfMarked(a[..|a| - 1], b[..|b| - 1]);
    }
  }

  /** A document of a run from fragments `all`. */
  ghost predicate InOrder(all: seq<Fragment>, classes: Classes, tier: Tier, d: Doc) {
    && d.fragments.Some? && DocClasses(d) == classes
    && exists kept :: Reached(all, classes, tier, d.fragments.value, kept)
  }

  lemma DropOneInOrder(all: seq<Fragment>, classes: Classes, tier: Tier, d: Doc)
    requires InOrder(all, classes, tier, d) && DropOne(d, tier).Some?
    ensures InOrder(all, classes, tier, DropOne(d, tier).value)
  {
    var fs := d.fragments.value;
    var next := DropOne(d, tier).value;
    var kept :| Reached(all, classes, tier, fs, kept);
    var p := DropIndex(fs, classes, tier).value;
    if d.changes.Some? {
      ClassesOfMarked(d.changes.value, next.changes.value);
    }
    if fs[p].Changed() && Halved(fs[p]).Some? {
      ReachedClip(all, classes, tier, fs, kept, p);
    } else {
      ReachedWithout(all, classes, tier, fs, kept, p);
    }
  }

  /** The static drop order: at every point of a run, what is left is a set of fragments closed
      under "goes later" in one order fixed at the start, all of them untouched but at most the
      next to go, which shows less and names the rest. */
  lemma RunFollowsOrder(d: Doc, n: nat, tier: Tier) returns (kept: seq<nat>)
    requires d.fragments.Some?
    ensures Iterate(Step(tier), d, n).fragments.Some?
    ensures Reached(d.fragments.value, DocClasses(d), tier, Iterate(Step(tier), d, n).fragments.value, kept)
  {
    var all, classes := d.fragments.value, DocClasses(d);
    var inv := (x: Doc) => InOrder(all, classes, tier, x);
    ReachedAtStart(all, classes, tier);
    assert inv(d);
    forall x: Doc | inv(x) && Step(tier)(x).Some?
      ensures inv(Step(tier)(x).value)
    {
      DropOneInOrder(all, classes, tier, x);
    }
    IterateKeeps(Step(tier), inv, d, n);
    kept :| Reached(all, classes, tier, Iterate(Step(tier), d, n).fragments.value, kept);
  }

  lemma ReachedAtStart(all: seq<Fragment>, classes: Classes, tier: Tier)
    ensures exists kept :: Reached(all, classes, tier, all, kept)
  {
    var kept: seq<nat> := seq(|all|, i => i);
    forall j | 0 <= j < |all|
      ensures j in kept
    {
      assert kept[j] == j;
    }
    assert Reached(all, classes, tier, all, kept);
  }

  // ---------- what the order means ----------

  /** While a fragment is left, every one that goes after it is left and untouched. */
  lemma LaterIsUntouched(all: seq<Fragment>, classes: Classes, tier: Tier, fs: seq<Fragment>, kept: seq<nat>,
                         p: nat, j: nat)
    returns (q: nat)
    requires Reached(all, classes, tier, fs, kept)
    requires p < |fs| && j < |all| && Sooner(all, classes, tier, kept[p], j)
    ensures q < |fs| && kept[q] == j && fs[q] == all[j]
  {
    assert j in kept;
    q :| 0 <= q < |kept| && kept[q] == j;
    if fs[q] != all[j] {
      PickIsSoonest(all, classes, tier, fs, kept, q);
      SoonerIsTotal(all, classes, tier, kept[p], j);
      assert false;
    }
  }

  /** No changed fragment is touched while context is left. */
  lemma ContextGoesFirst(all: seq<Fragment>, classes: Classes, tier: Tier, fs: seq<Fragment>, kept: seq<nat>,
                         p: nat, j: nat)
    returns (q: nat)
    requires Reached(all, classes, tier, fs, kept)
    requires p < |fs| && !fs[p].Changed() && j < |all| && all[j].Changed()
    ensures q < |fs| && kept[q] == j && fs[q] == all[j]
  {
    q := LaterIsUntouched(all, classes, tier, fs, kept, p, j);
  }

  /** No file's first changed fragment is touched while some file has two left. */
  lemma SecondsGoBeforeFirsts(all: seq<Fragment>, classes: Classes, tier: Tier, fs: seq<Fragment>, kept: seq<nat>,
                              e: nat, p: nat, j: nat)
    returns (q: nat)
    requires Reached(all, classes, tier, fs, kept)
    requires e < p < |fs| && fs[e].Changed() && fs[p].Changed() && fs[e].path == fs[p].path
    requires j < |all| && all[j].Changed() && FirstOfFile(all, j)
    ensures q < |fs| && kept[q] == j && fs[q] == all[j]
  {
    SecondIsNotFirst(all, fs, kept, e, p);
    q := LaterIsUntouched(all, classes, tier, fs, kept, p, j);
  }

  /** Among changed fragments of the same standing, one whose path and class, the last that the
      changes give the path, are of a lower tier is untouched while one of a higher tier is left. */
  lemma HigherTierGoesFirst(d: Doc, all: seq<Fragment>, tier: Tier, fs: seq<Fragment>, kept: seq<nat>,
                            p: nat, j: nat, higher: Class, lower: Class)
    returns (q: nat)
    requires Reached(all, DocClasses(d), tier, fs, kept)
    requires p < |fs| && fs[p].Changed() && j < |all| && all[j].Changed()
    requires FirstOfFile(all, kept[p]) <==> FirstOfFile(all, j)
    requires Given(ChangesOf(d), fs[p].path, higher) && Given(ChangesOf(d), all[j].path, lower)
    requires tier(all[j].path, lower) < tier(fs[p].path, higher)
    ensures q < |fs| && kept[q] == j && fs[q] == all[j]
  {
    ClassIsGiven(ChangesOf(d), fs[p].path, higher);
    ClassIsGiven(ChangesOf(d), all[j].path, lower);
    q := LaterIsUntouched(all, DocClasses(d), tier, fs, kept, p, j);
  }

  ghost function ChangesOf(d: Doc): seq<Change> {
    if d.changes.Some? then d.changes.value else []
  }

  /** At most one fragment is shortened: it is the next to go, what it shows is the start of what it
      showed but for carriage returns at line ends, and no line goes unnamed. */
  lemma OnlyNextIsClipped(all: seq<Fragment>, classes: Classes, tier: Tier, fs: seq<Fragment>, kept: seq<nat>, p: nat)
    requires Reached(all, classes, tier, fs, kept) && p < |fs| && fs[p] != all[kept[p]]
    ensures DropIndex(fs, classes, tier) == Some(p) && fs[p].Changed()
    ensures forall q | 0 <= q < |fs| && q != p :: fs[q] == all[kept[q]]
    ensures var (shown, hidden) := ShownOf(fs[p]);
            var (before, hiddenBefore) := ShownOf(all[kept[p]]);
            Trimmed(shown) <= Trimmed(before) && |shown| + hidden == |before| + hiddenBefore
  {
    assert Shortened(all[kept[p]], fs[p]);
  }

  /** For a fragment that was fresh it is its first lines exactly, and the number of the rest. */
  lemma FreshIsClipped(all: seq<Fragment>, classes: Classes, tier: Tier, fs: seq<Fragment>, kept: seq<nat>, p: nat)
    returns (k: nat)
    requires Reached(all, classes, tier, fs, kept) && p < |fs| && fs[p] != all[kept[p]] && Fresh(all[kept[p]])
    ensures all[kept[p]].content.Some?
    ensures var lines := Lines(all[kept[p]].content.value);
      && 1 <= k < |lines| && fs[p] == ClipAt(all[kept[p]], k)
      && ShownOf(fs[p]) == (lines[..k], |lines| - k)
  {
    var original := all[kept[p]];
    k :| 1 <= k < |Lines(original.content.value)| && fs[p] == ClipAt(original, k);
    ClipAtShows(original, k);
  }
}
