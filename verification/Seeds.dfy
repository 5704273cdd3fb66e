/** Which fragments a change seeds and how much of it each carries (`core.rs`). */
module Seeds {
  import opened Text
  import opened Totals
  import opened Interval
  import opened Excerpt

  /** `semantic` and `container` are what the kind says. */
  datatype Fragment = Fragment(id: FragmentId, semantic: bool, container: bool) {
    function LineCount(): int { id.endLine - id.startLine + 1 }
  }

  // ---------- the order of the candidates ----------

  predicate IdBefore(a: FragmentId, b: FragmentId) {
    || Less(a.path, b.path)
    || (a.path == b.path && (a.startLine < b.startLine || (a.startLine == b.startLine && a.endLine < b.endLine)))
  }

  lemma IdBeforeIsTotal(a: FragmentId, b: FragmentId)
    ensures a != b ==> (IdBefore(a, b) <==> !IdBefore(b, a))
    ensures !IdBefore(a, a)
  {
    LessIsTotal(a.path, b.path);
    LessIsIrreflexive(a.path);
  }

  lemma IdBeforeIsTransitive(a: FragmentId, b: FragmentId, c: FragmentId)
    requires IdBefore(a, b) && IdBefore(b, c)
    ensures IdBefore(a, c)
  {
    if Less(a.path, b.path) && Less(b.path, c.path) {
      LessIsTransitive(a.path, b.path, c.path);
    }
  }

  /** Three ways a hunk ranks fragments: the best cover, the nearest above, the nearest below. */
  datatype Ranking = Cover | Above | Below

  function Score(f: Fragment, rank: Ranking): (int, int) {
    match rank
    case Cover => (if f.semantic then 0 else 1, f.LineCount())
    case Above => (-(f.id.endLine as int), 0)
    case Below => (f.id.startLine, 0)
  }

  /** `a` is taken before `b`; the nearest above breaks ties by the greater id. */
  predicate Sooner(a: Fragment, b: Fragment, rank: Ranking) {
    var (s, t) := (Score(a, rank), Score(b, rank));
    || s.0 < t.0
    || (s.0 == t.0 && s.1 < t.1)
    || (s == t && if rank == Above then IdBefore(b.id, a.id) else IdBefore(a.id, b.id))
  }

  lemma SoonerIsTotal(a: Fragment, b: Fragment, rank: Ranking)
    ensures a.id != b.id ==> Sooner(a, b, rank) || Sooner(b, a, rank)
    ensures !(Sooner(a, b, rank) && Sooner(b, a, rank))
  {
    IdBeforeIsTotal(a.id, b.id);
    IdBeforeIsTotal(b.id, a.id);
  }

  lemma SoonerIsTransitive(a: Fragment, b: Fragment, c: Fragment, rank: Ranking)
    requires !Sooner(b, a, rank) && !Sooner(c, b, rank)
    ensures !Sooner(c, a, rank)
  {
    if Score(a, rank) == Score(b, rank) == Score(c, rank) && Sooner(c, a, rank) {
      IdBeforeIsTotal(a.id, b.id);
      IdBeforeIsTotal(b.id, c.id);
      if rank == Above {
        if a.id != b.id {
          IdBeforeIsTransitive(b.id, a.id, c.id);
        }
        IdBeforeIsTotal(b.id, c.id);
        IdBeforeIsTotal(c.id, b.id);
      } else {
        if b.id != c.id {
          IdBeforeIsTransitive(b.id, c.id, a.id);
        }
        IdBeforeIsTotal(b.id, a.id);
      }
    }
  }

  ghost predicate IsFirst(frags: set<Fragment>, f: Fragment, rank: Ranking) {
    f in frags && forall g | g in frags :: !Sooner(g, f, rank)
  }

  /** The first of a list of candidates; no other candidate's id could be. */
  method First(frags: seq<Fragment>, rank: Ranking) returns (best: Fragment)
    requires frags != []
    ensures IsFirst(Elements(frags), best, rank)
  {
    best := frags[0];
    SoonerIsTotal(best, best, rank);
    for i := 1 to |frags|
      invariant best in frags
      invariant forall j | 0 <= j < i :: !Sooner(frags[j], best, rank)
    {
      SoonerIsTotal(frags[i], best, rank);
      SoonerIsTotal(frags[i], frags[i], rank);
      if Sooner(frags[i], best, rank) {
        forall j | 0 <= j < i
          ensures !Sooner(frags[j], frags[i], rank)
        {
          SoonerIsTransitive(frags[i], best, frags[j], rank);
        }
        best := frags[i];
      }
    }
  }

  lemma FirstIsUnique(frags: set<Fragment>, f: Fragment, g: Fragment, rank: Ranking)
    requires IsFirst(frags, f, rank) && IsFirst(frags, g, rank)
    ensures f.id == g.id
  {
    SoonerIsTotal(f, g, rank);
  }

  // ---------- the fragments one hunk seeds ----------

  predicate Covering(f: Fragment, h: Span) { f.id.startLine <= h.0 && h.1 <= f.id.endLine }

  predicate Overlapping(f: Fragment, h: Span) { f.id.startLine <= h.1 && f.id.endLine >= h.0 }

  predicate EndsAbove(f: Fragment, h: Span) { f.id.endLine < h.0 }

  predicate StartsBelow(f: Fragment, h: Span) { f.id.startLine > h.1 }

  /** `f` is seeded by a hunk of lines `h` among `frags`: the best of those that cover it; if
      none does, every one it overlaps; if none, the nearest on each side. */
  ghost predicate IsSeed(frags: set<Fragment>, h: Span, f: Fragment) {
    var covering := set g | g in frags && Covering(g, h);
    var overlapping := set g | g in frags && Overlapping(g, h);
    if covering != {} then IsFirst(covering, f, Cover)
    else if overlapping != {} then f in overlapping
    else || IsFirst((set g | g in frags && EndsAbove(g, h)), f, Above)
         || IsFirst((set g | g in frags && StartsBelow(g, h)), f, Below)
  }

  ghost function SeedIds(frags: set<Fragment>, h: Span): set<FragmentId> {
    set f | f in frags && IsSeed(frags, h, f) :: f.id
  }

  /** No other cover is of a better kind, has fewer lines, or as many and a lesser id. */
  ghost predicate TightestCover(frags: set<Fragment>, h: Span, f: Fragment) {
    && f in frags && f.id.startLine <= h.0 && h.1 <= f.id.endLine
    && forall g | g in frags && g.id.startLine <= h.0 && h.1 <= g.id.endLine ::
         && (g.semantic ==> f.semantic)
         && (g.semantic == f.semantic ==> f.id.endLine - f.id.startLine <= g.id.endLine - g.id.startLine)
         && (g.semantic == f.semantic && f.id.endLine - f.id.startLine == g.id.endLine - g.id.startLine ==>
               !IdBefore(g.id, f.id))
  }

  /** No other fragment above the hunk ends later, or there and has a greater id. */
  ghost predicate NearestAbove(frags: set<Fragment>, h: Span, f: Fragment) {
    && f in frags && f.id.endLine < h.0
    && forall g | g in frags && g.id.endLine < h.0 ::
         g.id.endLine <= f.id.endLine && (g.id.endLine == f.id.endLine ==> !IdBefore(f.id, g.id))
  }

  /** No other fragment below the hunk starts earlier, or there and has a lesser id. */
  ghost predicate NearestBelow(frags: set<Fragment>, h: Span, f: Fragment) {
    && f in frags && f.id.startLine > h.1
    && forall g | g in frags && g.id.startLine > h.1 ::
         g.id.startLine >= f.id.startLine && (g.id.startLine == f.id.startLine ==> !IdBefore(g.id, f.id))
  }

  ghost predicate CoveredBySome(frags: set<Fragment>, h: Span) {
    exists g :: g in frags && g.id.startLine <= h.0 && h.1 <= g.id.endLine
  }

  ghost predicate OverlappedBySome(frags: set<Fragment>, h: Span) {
    exists g :: g in frags && g.id.startLine <= h.1 && h.0 <= g.id.endLine
  }

  /** The seeds of a hunk, in start and end lines: one tightest cover; where nothing covers it, all
      that overlap it; where nothing does, the nearest above, if there is one, and below. */
  ghost predicate SeedsInLines(frags: set<Fragment>, h: Span, core: set<FragmentId>) {
    if CoveredBySome(frags, h) then
      exists f :: TightestCover(frags, h, f) && core == {f.id}
    else if OverlappedBySome(frags, h) then
      core == set g | g in frags && g.id.startLine <= h.1 && h.0 <= g.id.endLine :: g.id
    else
      core == set g | g in frags && (NearestAbove(frags, h, g) || NearestBelow(frags, h, g)) :: g.id
  }

  lemma FirstCoverIsTightest(frags: set<Fragment>, h: Span, f: Fragment)
    requires IsFirst((set g | g in frags && Covering(g, h)), f, Cover)
    ensures TightestCover(frags, h, f)
  {
    forall g | g in frags && g.id.startLine <= h.0 && h.1 <= g.id.endLine
      ensures !Sooner(g, f, Cover)
    {
      assert Covering(g, h);
    }
  }

  lemma FirstAboveIsNearest(frags: set<Fragment>, h: Span, f: Fragment)
    ensures IsFirst((set g | g in frags && EndsAbove(g, h)), f, Above) <==> NearestAbove(frags, h, f)
  {
    var above := set g | g in frags && EndsAbove(g, h);
    forall g: Fragment | f.id.endLine < h.0 && g.id.endLine < h.0
      ensures !Sooner(g, f, Above)
         <==> g.id.endLine <= f.id.endLine && (g.id.endLine == f.id.endLine ==> !IdBefore(f.id, g.id))
    {
    }
    if NearestAbove(frags, h, f) {
      forall g | g in above
        ensures !Sooner(g, f, Above)
      {
        assert g.id.endLine <= f.id.endLine;
      }
    }
    if IsFirst(above, f, Above) {
      forall g | g in frags && g.id.endLine < h.0
        ensures !Sooner(g, f, Above)
      {
        assert g in above;
      }
    }
  }

  lemma FirstBelowIsNearest(frags: set<Fragment>, h: Span, f: Fragment)
    ensures IsFirst((set g | g in frags && StartsBelow(g, h)), f, Below) <==> NearestBelow(frags, h, f)
  {
    var below := set g | g in frags && StartsBelow(g, h);
    forall g: Fragment | f.id.startLine > h.1 && g.id.startLine > h.1
      ensures !Sooner(g, f, Below)
         <==> g.id.startLine >= f.id.startLine && (g.id.startLine == f.id.startLine ==> !IdBefore(g.id, f.id))
    {
    }
    if NearestBelow(frags, h, f) {
      forall g | g in below
        ensures !Sooner(g, f, Below)
      {
        assert g.id.startLine >= f.id.startLine;
      }
    }
    if IsFirst(below, f, Below) {
      forall g | g in frags && g.id.startLine > h.1
        ensures !Sooner(g, f, Below)
      {
        assert g in below;
      }
    }
  }

  /** In one file a tie goes to the cover or the fragment below that starts or ends first, and to
      the fragment above that starts last. */
  lemma TiesInLines(frags: set<Fragment>, h: Span, f: Fragment, g: Fragment)
    requires g in frags && g.id.path == f.id.path
    ensures TightestCover(frags, h, f) && g.id.startLine <= h.0 && h.1 <= g.id.endLine ==>
              g.semantic == f.semantic && f.id.endLine - f.id.startLine == g.id.endLine - g.id.startLine ==>
                f.id.startLine <= g.id.startLine
    ensures NearestAbove(frags, h, f) && g.id.endLine == f.id.endLine ==> g.id.startLine <= f.id.startLine
    ensures NearestBelow(frags, h, f) && g.id.startLine == f.id.startLine ==> f.id.endLine <= g.id.endLine
  {
    LessIsIrreflexive(f.id.path);
  }

  /** What is seeded, in lines. */
  lemma SeedsStand(frags: set<Fragment>, h: Span)
    requires h.0 <= h.1
    ensures SeedsInLines(frags, h, SeedIds(frags, h))
  {
    var covering := set g | g in frags && Covering(g, h);
    var overlapping := set g | g in frags && Overlapping(g, h);
    if covering != {} {
      var g :| g in covering;
      assert CoveredBySome(frags, h);
      var f := FirstExists(covering, Cover);
      FirstCoverIsTightest(frags, h, f);
      OneFirst(frags, h, covering, f);
    } else {
      assert !CoveredBySome(frags, h) by {
        if g :| g in frags && g.id.startLine <= h.0 && h.1 <= g.id.endLine {
          assert g in covering;
        }
      }
      SeedsWithoutCover(frags, h, overlapping);
    }
  }

  lemma SeedsWithoutCover(frags: set<Fragment>, h: Span, overlapping: set<Fragment>)
    requires (set g | g in frags && Covering(g, h)) == {} && overlapping == set g | g in frags && Overlapping(g, h)
    ensures if OverlappedBySome(frags, h) then
              SeedIds(frags, h) == set g | g in frags && g.id.startLine <= h.1 && h.0 <= g.id.endLine :: g.id
            else
              SeedIds(frags, h)
              == set g | g in frags && (NearestAbove(frags, h, g) || NearestBelow(frags, h, g)) :: g.id
  {
    if overlapping != {} {
      var g :| g in overlapping;
      assert OverlappedBySome(frags, h);
      assert forall f | f in frags :: IsSeed(frags, h, f) <==> f.id.startLine <= h.1 && h.0 <= f.id.endLine;
    } else {
      assert !OverlappedBySome(frags, h) by {
        if g :| g in frags && g.id.startLine <= h.1 && h.0 <= g.id.endLine {
          assert g in overlapping;
        }
      }
      forall f | f in frags
        ensures IsSeed(frags, h, f) <==> NearestAbove(frags, h, f) || NearestBelow(frags, h, f)
      {
        FirstAboveIsNearest(frags, h, f);
        FirstBelowIsNearest(frags, h, f);
      }
    }
  }

  function Filter(frags: seq<Fragment>, keep: Fragment -> bool): (r: seq<Fragment>)
    ensures forall f :: f in r <==> f in frags && keep(f)
  {
    if frags == [] then []
    else (if keep(frags[0]) then [frags[0]] else []) + Filter(frags[1..], keep)
  }

  ghost function Elements(frags: seq<Fragment>): set<Fragment> { set f | f in frags }

  method FindCoreForHunk(frags: seq<Fragment>, h: Span) returns (core: set<FragmentId>)
    requires h.0 <= h.1
    ensures SeedsInLines(Elements(frags), h, core)
    ensures core == SeedIds(Elements(frags), h)
    ensures frags != [] ==> core != {}
  {
    ghost var all := Elements(frags);
    SeedsStand(all, h);
    var covering := Filter(frags, f => Covering(f, h));
    assert Elements(covering) == set g | g in all && Covering(g, h);
    if covering != [] {
      assert covering[0] in Elements(covering);
      var best := First(covering, Cover);
      OneFirst(all, h, Elements(covering), best);
      return {best.id};
    }
    assert Elements(covering) == {};
    var overlapping := Filter(frags, f => Overlapping(f, h));
    assert Elements(overlapping) == set g | g in all && Overlapping(g, h);
    if overlapping != [] {
      assert overlapping[0] in Elements(overlapping);
      core := set f | f in overlapping :: f.id;
      assert overlapping[0].id in core;
      return;
    }
    assert Elements(overlapping) == {};
    core := FindNearest(frags, h);
  }

  /** The fragments nearest to a hunk that none covers or overlaps. */
  method FindNearest(frags: seq<Fragment>, h: Span) returns (core: set<FragmentId>)
    requires h.0 <= h.1
    requires forall g | g in Elements(frags) :: !Covering(g, h) && !Overlapping(g, h)
    ensures core == SeedIds(Elements(frags), h)
    ensures frags != [] ==> core != {}
  {
    ghost var all := Elements(frags);
    var above := Filter(frags, f => EndsAbove(f, h));
    var below := Filter(frags, f => StartsBelow(f, h));
    assert Elements(above) == set g | g in all && EndsAbove(g, h);
    assert Elements(below) == set g | g in all && StartsBelow(g, h);
    core := {};
    if above != [] {
      var nearest := First(above, Above);
      core := core + {nearest.id};
    }
    if below != [] {
      var nearest := First(below, Below);
      core := core + {nearest.id};
    }
    NearestSeeds(all, h, Elements(above), Elements(below), core);
    if frags != [] {
      assert frags[0] in all;
      assert frags[0] in above || frags[0] in below;
    }
  }

  lemma OneFirst(all: set<Fragment>, h: Span, covering: set<Fragment>, best: Fragment)
    requires covering == (set g | g in all && Covering(g, h)) && IsFirst(covering, best, Cover)
    ensures SeedIds(all, h) == {best.id}
  {
    forall f | f in all && IsSeed(all, h, f)
      ensures f.id == best.id
    {
      FirstIsUnique(covering, f, best, Cover);
    }
    assert best in all && IsSeed(all, h, best);
  }

  lemma NearestSeeds(all: set<Fragment>, h: Span, above: set<Fragment>, below: set<Fragment>, core: set<FragmentId>)
    requires above == (set g | g in all && EndsAbove(g, h)) && below == (set g | g in all && StartsBelow(g, h))
    requires (set g | g in all && Covering(g, h)) == {} && (set g | g in all && Overlapping(g, h)) == {}
    requires forall id | id in core ::
               exists f: Fragment :: f.id == id && (IsFirst(above, f, Above) || IsFirst(below, f, Below))
    requires above != {} ==> exists f: Fragment :: f.id in core && IsFirst(above, f, Above)
    requires below != {} ==> exists f: Fragment :: f.id in core && IsFirst(below, f, Below)
    ensures SeedIds(all, h) == core
  {
    forall f | f in all && IsSeed(all, h, f)
      ensures f.id in core
    {
      if IsFirst(above, f, Above) {
        var g: Fragment :| g.id in core && IsFirst(above, g, Above);
        FirstIsUnique(above, f, g, Above);
      } else {
        var g: Fragment :| g.id in core && IsFirst(below, g, Below);
        FirstIsUnique(below, f, g, Below);
      }
    }
    forall id | id in core
      ensures id in SeedIds(all, h)
    {
      var f: Fragment :| f.id == id && (IsFirst(above, f, Above) || IsFirst(below, f, Below));
      assert f in all && IsSeed(all, h, f);
    }
  }

  // ---------- the core set ----------

  ghost function OfPath(frags: set<Fragment>, path: string): set<Fragment> {
    set f | f in frags && f.id.path == path
  }

  /** The ids the hunks seed, each among the fragments of its file. */
  ghost function HunkSeeds(hunks: seq<DiffHunk>, frags: set<Fragment>): set<FragmentId> {
    if hunks == [] then {}
    else
      var h := hunks[|hunks| - 1];
      HunkSeeds(hunks[..|hunks| - 1], frags) + SeedIds(OfPath(frags, h.path), h.CoreSelectionRange())
  }

  predicate Encloses(f: Fragment, id: FragmentId) {
    f.id.path == id.path && f.id.startLine <= id.startLine && id.endLine <= f.id.endLine
  }

  /** The seeds of all hunks are those of each, among the fragments of its file. */
  lemma {:induction false} SeedsAreOfHunks(hunks: seq<DiffHunk>, frags: set<Fragment>, id: FragmentId)
    ensures id in HunkSeeds(hunks, frags)
       <==> exists h :: h in hunks && id in SeedIds((set f | f in frags && f.id.path == h.path), h.CoreSelectionRange())
    decreases |hunks|
  {
    if hunks != [] {
      var init, last := hunks[..|hunks| - 1], hunks[|hunks| - 1];
      SeedsAreOfHunks(init, frags, id);
      assert hunks == init + [last] && last in hunks;
      assert forall h :: h in hunks <==> h in init || h == last;
      assert forall h: DiffHunk :: OfPath(frags, h.path) == set f | f in frags && f.id.path == h.path;
    }
  }

  /** The containers around a core fragment. */
  ghost function Headers(core: set<FragmentId>, frags: set<Fragment>): set<FragmentId> {
    set f | f in frags && f.container && (exists id :: id in core && Encloses(f, id)) :: f.id
  }

  ghost function Core(hunks: seq<DiffHunk>, frags: set<Fragment>): set<FragmentId> {
    HunkSeeds(hunks, frags) + Headers(HunkSeeds(hunks, frags), frags)
  }

  method GroupByPath(frags: seq<Fragment>) returns (byPath: map<string, seq<Fragment>>)
    ensures forall path :: path in byPath ==>
              byPath[path] != [] && Elements(byPath[path]) == OfPath(Elements(frags), path)
    ensures forall f | f in frags :: f.id.path in byPath
  {
    byPath := map[];
    for i := 0 to |frags|
      invariant forall path :: path in byPath ==>
        byPath[path] != [] && Elements(byPath[path]) == OfPath(Elements(frags[..i]), path)
      invariant forall f | f in frags[..i] :: f.id.path in byPath
    {
      assert frags[..i + 1] == frags[..i] + [frags[i]];
      var f := frags[i];
      var group := if f.id.path in byPath then byPath[f.id.path] else [];
      GroupNext(frags[..i], group, f);
      byPath := byPath[f.id.path := group + [f]];
      forall path | path in byPath && path != f.id.path
        ensures OfPath(Elements(frags[..i + 1]), path) == OfPath(Elements(frags[..i]), path)
      {
      }
    }
    assert frags[..|frags|] == frags;
  }

  lemma GroupNext(frags: seq<Fragment>, group: seq<Fragment>, f: Fragment)
    requires group == [] ==> forall g | g in frags :: g.id.path != f.id.path
    requires group != [] ==> Elements(group) == OfPath(Elements(frags), f.id.path)
    ensures Elements(group + [f]) == OfPath(Elements(frags + [f]), f.id.path)
  {
    forall g
      ensures g in group + [f] <==> g in frags + [f] && g.id.path == f.id.path
    {
      assert group != [] ==> (g in group <==> g in Elements(group));
      assert g in frags <==> g in Elements(frags);
    }
  }

  /** The containers to add, each with a core fragment inside. */
  method AddContainerHeaders(core: set<FragmentId>, frags: seq<Fragment>) returns (core': set<FragmentId>)
    ensures core' == core + Headers(core, Elements(frags))
    ensures forall id :: id in core' <==>
              || id in core
              || exists f, inner :: f in frags && f.id == id && f.container && inner in core
                   && inner.path == id.path && id.startLine <= inner.startLine && inner.endLine <= id.endLine
  {
    var headers: set<FragmentId> := {};
    for i := 0 to |frags|
      invariant forall id | id in headers :: id in Headers(core, Elements(frags))
      invariant forall j | 0 <= j < i && frags[j].container && (exists id :: id in core && Encloses(frags[j], id)) ::
        frags[j].id in core + headers
    {
      var f := frags[i];
      if f.container && f.id !in core {
        var inside := exists id :: id in core && Encloses(f, id);
        if inside {
          assert f in Elements(frags);
          headers := headers + {f.id};
        }
      }
    }
    core' := core + headers;
  }

  method IdentifyCoreFragments(hunks: seq<DiffHunk>, frags: seq<Fragment>) returns (core: set<FragmentId>)
    ensures core == Core(hunks, Elements(frags))
  {
    var byPath := GroupByPath(frags);
    core := {};
    for i := 0 to |hunks|
      invariant core == HunkSeeds(hunks[..i], Elements(frags))
    {
      var h := hunks[i];
      assert hunks[..i + 1][..i] == hunks[..i];
      if h.path in byPath {
        var seeds := FindCoreForHunk(byPath[h.path], h.CoreSelectionRange());
        core := core + seeds;
      } else {
        assert OfPath(Elements(frags), h.path) == {};
        assert SeedIds({}, h.CoreSelectionRange()) == {};
      }
    }
    assert hunks[..|hunks|] == hunks;
    core := AddContainerHeaders(core, frags);
  }

  /** The core set depends on the fragments, not on the order the parser lists them in. */
  lemma CoreIgnoresOrder(hunks: seq<DiffHunk>, frags: seq<Fragment>, frags': seq<Fragment>)
    requires multiset(frags) == multiset(frags')
    ensures Core(hunks, Elements(frags)) == Core(hunks, Elements(frags'))
  {
    forall f
      ensures f in frags <==> f in frags'
    {
      assert f in frags <==> f in multiset(frags);
    }
    assert Elements(frags) == Elements(frags');
  }

  /** One pass of headers is already the fixed point: what encloses a header encloses what the
      header was added for. */
  lemma HeadersAreClosed(core: set<FragmentId>, frags: set<Fragment>)
    ensures var once := core + Headers(core, frags); once + Headers(once, frags) == once
  {
    var once := core + Headers(core, frags);
    forall f | f in frags && f.container && exists id :: id in once && Encloses(f, id)
      ensures f.id in once
    {
      var id :| id in once && Encloses(f, id);
      if id !in core {
        var g :| g in frags && g.container && g.id == id && exists inner :: inner in core && Encloses(g, inner);
        var inner :| inner in core && Encloses(g, inner);
        assert Encloses(f, inner);
      }
    }
  }

  /** Some fragment is the first of a non-empty set. */
  lemma {:induction false} FirstExists(frags: set<Fragment>, rank: Ranking) returns (best: Fragment)
    requires frags != {}
    ensures IsFirst(frags, best, rank)
    decreases frags
  {
    var f :| f in frags;
    SoonerIsTotal(f, f, rank);
    if frags == {f} {
      best := f;
    } else {
      best := FirstExists(frags - {f}, rank);
      SoonerIsTotal(f, best, rank);
      if Sooner(f, best, rank) {
        forall g | g in frags
          ensures !Sooner(g, f, rank)
        {
          if g != f {
            SoonerIsTransitive(f, best, g, rank);
          }
        }
        best := f;
      }
    }
  }

  /** A hunk in a file with fragments seeds at least one of them. */
  lemma HunkSeedsSome(hunks: seq<DiffHunk>, frags: set<Fragment>, h: DiffHunk)
    requires h in hunks && OfPath(frags, h.path) != {}
    ensures SeedIds(OfPath(frags, h.path), h.CoreSelectionRange()) != {}
    ensures SeedIds(OfPath(frags, h.path), h.CoreSelectionRange()) <= Core(hunks, frags)
  {
    var all, range := OfPath(frags, h.path), h.CoreSelectionRange();
    SomeSeed(all, range);
    SeedsAreIn(hunks, frags, h);
  }

  lemma SomeSeed(all: set<Fragment>, h: Span)
    requires all != {} && h.0 <= h.1
    ensures SeedIds(all, h) != {}
  {
    var covering := set g | g in all && Covering(g, h);
    var overlapping := set g | g in all && Overlapping(g, h);
    var f: Fragment;
    if covering != {} {
      f := FirstExists(covering, Cover);
    } else if overlapping != {} {
      f :| f in overlapping;
    } else {
      var above := set g | g in all && EndsAbove(g, h);
      var below := set g | g in all && StartsBelow(g, h);
      var g :| g in all;
      assert g !in overlapping;
      if g in above {
        f := FirstExists(above, Above);
      } else {
        assert g in below;
        f := FirstExists(below, Below);
      }
    }
    assert f in all && IsSeed(all, h, f);
    assert f.id in SeedIds(all, h);
  }

  lemma {:induction false} SeedsAreIn(hunks: seq<DiffHunk>, frags: set<Fragment>, h: DiffHunk)
    requires h in hunks
    ensures SeedIds(OfPath(frags, h.path), h.CoreSelectionRange()) <= HunkSeeds(hunks, frags)
    decreases |hunks|
  {
    if h != hunks[|hunks| - 1] {
      SeedsAreIn(hunks[..|hunks| - 1], frags, h);
    }
  }

  /** Every core fragment lies in a file some hunk changes. */
  lemma {:induction false} SeedsHaveHunks(hunks: seq<DiffHunk>, frags: set<Fragment>)
    ensures forall id | id in HunkSeeds(hunks, frags) :: exists h :: h in hunks && h.path == id.path
    decreases |hunks|
  {
    if hunks != [] {
      var init, last := hunks[..|hunks| - 1], hunks[|hunks| - 1];
      SeedsHaveHunks(init, frags);
      forall id | id in HunkSeeds(hunks, frags)
        ensures exists h :: h in hunks && h.path == id.path
      {
        if id in HunkSeeds(init, frags) {
          var h :| h in init && h.path == id.path;
          assert h in hunks;
        } else {
          assert last in hunks && last.path == id.path;
        }
      }
    }
  }

  lemma CoreHasHunks(hunks: seq<DiffHunk>, frags: set<Fragment>)
    ensures forall id | id in Core(hunks, frags) :: exists h :: h in hunks && h.path == id.path
  {
    SeedsHaveHunks(hunks, frags);
  }

  // ---------- weights ----------

  type Weights = map<FragmentId, real>

  /** What an id weighs; 0 if it is not weighed. */
  ghost function WeighedIn(m: Weights): FragmentId -> real { id => if id in m then m[id] else 0.0 }

  /** The lines a hunk selects in the fragment, or in all. */
  ghost function SelectedIn(h: DiffHunk, id: FragmentId, clip: bool): set<nat> {
    set line | line in SpanLines(h.CoreSelectionRange()) && (clip ==> id.startLine <= line <= id.endLine)
  }

  /** A charge counts those lines. */
  lemma ChargeCounts(h: DiffHunk, f: Fragment, clip: bool)
    requires Meets(h, f) && f.id.startLine <= f.id.endLine
    ensures Charge(h, f.id, clip) == |SelectedIn(h, f.id, clip)|
  {
    var (lo, hi) := h.CoreSelectionRange();
    if clip {
      var both := (Most(lo, f.id.startLine), Least(hi, f.id.endLine));
      assert SelectedIn(h, f.id, clip) == SpanLines(both);
    } else {
      assert SelectedIn(h, f.id, clip) == SpanLines((lo, hi));
    }
  }

  /** So does the size of a hunk. */
  lemma HunkSizeCounts(h: DiffHunk)
    ensures HunkSize(h) == |SpanLines(h.CoreSelectionRange())|
  {}

  /** The lines of a hunk the fragment is charged with. */
  function Charge(h: DiffHunk, id: FragmentId, clip: bool): int {
    var (lo, hi) := h.CoreSelectionRange();
    if clip then Least(hi, id.endLine) - Most(lo, id.startLine) + 1 else hi - lo + 1
  }

  predicate Meets(h: DiffHunk, f: Fragment) {
    f.id.path == h.path && Overlapping(f, h.CoreSelectionRange())
  }

  predicate Charged(h: DiffHunk, f: Fragment, core: set<FragmentId>) {
    f.id in core && Meets(h, f)
  }

  function AddCharge(m: Weights, h: DiffHunk, f: Fragment, core: set<FragmentId>, clip: bool): Weights {
    if Charged(h, f, core)
    then m[f.id := (if f.id in m then m[f.id] else 0.0) + Charge(h, f.id, clip) as real]
    else m
  }

  function AddHunk(m: Weights, h: DiffHunk, frags: seq<Fragment>, core: set<FragmentId>, clip: bool): Weights {
    if frags == [] then m
    else AddCharge(AddHunk(m, h, frags[..|frags| - 1], core, clip), h, frags[|frags| - 1], core, clip)
  }

  function AddHunks(hunks: seq<DiffHunk>, frags: seq<Fragment>, core: set<FragmentId>, clip: bool): Weights {
    if hunks == [] then map[]
    else AddHunk(AddHunks(hunks[..|hunks| - 1], frags, core, clip), hunks[|hunks| - 1], frags, core, clip)
  }

  ghost function ChargesOf(h: DiffHunk, clip: bool): Fragment -> real {
    (f: Fragment) => Charge(h, f.id, clip) as real
  }

  ghost function MetWithId(h: DiffHunk, id: FragmentId): Fragment -> bool {
    (f: Fragment) => f.id == id && Meets(h, f)
  }

  /** What one hunk charges to an id: its lines, for each fragment of that id it meets. */
  ghost function ChargedBy(frags: seq<Fragment>, id: FragmentId, clip: bool): DiffHunk -> real {
    h => Total(frags, ChargesOf(h, clip), MetWithId(h, id))
  }

  ghost function AnyHunk(): DiffHunk -> bool { h => true }

  /** What all the hunks charge to an id. */
  ghost function ChargedTo(hunks: seq<DiffHunk>, frags: seq<Fragment>, id: FragmentId, clip: bool): real {
    Total(hunks, ChargedBy(frags, id, clip), AnyHunk())
  }

  lemma {:induction false} HunkSum(
    m: Weights, h: DiffHunk, frags: seq<Fragment>, core: set<FragmentId>, id: FragmentId, clip: bool)
    requires id in core
    ensures WeighedIn(AddHunk(m, h, frags, core, clip))(id) == WeighedIn(m)(id) + ChargedBy(frags, id, clip)(h)
    decreases |frags|
  {
    if frags != [] {
      HunkSum(m, h, frags[..|frags| - 1], core, id, clip);
    }
  }

  lemma {:induction false} HunksSum(
    hunks: seq<DiffHunk>, frags: seq<Fragment>, core: set<FragmentId>, id: FragmentId, clip: bool)
    requires id in core
    ensures WeighedIn(AddHunks(hunks, frags, core, clip))(id) == ChargedTo(hunks, frags, id, clip)
    decreases |hunks|
  {
    if hunks != [] {
      var init := hunks[..|hunks| - 1];
      HunksSum(init, frags, core, id, clip);
      HunkSum(AddHunks(init, frags, core, clip), hunks[|hunks| - 1], frags, core, id, clip);
    }
  }

  /** Some hunk meets a core fragment of this id. */
  ghost predicate ChargedId(hunks: seq<DiffHunk>, frags: seq<Fragment>, core: set<FragmentId>, id: FragmentId) {
    exists h, f :: h in hunks && f in frags && Charged(h, f, core) && f.id == id
  }

  /** A core fragment weighs the lines of all the hunks that meet it, and is weighed when there
      is one. */
  ghost predicate WeighedByHunks(
    hunks: seq<DiffHunk>, frags: seq<Fragment>, core: set<FragmentId>, clip: bool, m: Weights) {
    && (forall id :: id in m <==> ChargedId(hunks, frags, core, id))
    && (forall id | id in m :: m[id] == ChargedTo(hunks, frags, id, clip))
  }

  lemma ChargedIsSum(hunks: seq<DiffHunk>, frags: seq<Fragment>, core: set<FragmentId>, clip: bool)
    ensures WeighedByHunks(hunks, frags, core, clip, AddHunks(hunks, frags, core, clip))
  {
    ChargedKeys(hunks, frags, core, clip);
    var m := AddHunks(hunks, frags, core, clip);
    forall id | id in m
      ensures m[id] == ChargedTo(hunks, frags, id, clip)
    {
      assert ChargedId(hunks, frags, core, id);
      HunksSum(hunks, frags, core, id, clip);
      assert WeighedIn(m)(id) == m[id];
    }
  }

  ghost function ChargesTo(f: Fragment, clip: bool): DiffHunk -> real { h => Charge(h, f.id, clip) as real }

  ghost function Meeting(f: Fragment): DiffHunk -> bool { h => Meets(h, f) }

  ghost predicate OnlyOne(frags: seq<Fragment>, i: nat) {
    i < |frags| && forall j | 0 <= j < |frags| && j != i :: frags[j].id != frags[i].id
  }

  /** Where no other fragment has the id of `frags[i]`, it weighs one sum over the hunks that
      meet it. */
  lemma {:induction false} ChargedOnce(hunks: seq<DiffHunk>, frags: seq<Fragment>, i: nat, clip: bool)
    requires OnlyOne(frags, i)
    ensures ChargedTo(hunks, frags, frags[i].id, clip)
         == Total(hunks, ChargesTo(frags[i], clip), Meeting(frags[i]))
    decreases |hunks|
  {
    if hunks != [] {
      ChargedOnce(hunks[..|hunks| - 1], frags, i, clip);
      OnceBy(hunks[|hunks| - 1], frags, i, clip);
    }
  }

  lemma {:induction false} OnceBy(h: DiffHunk, frags: seq<Fragment>, i: nat, clip: bool)
    requires OnlyOne(frags, i)
    ensures ChargedBy(frags, frags[i].id, clip)(h) == if Meets(h, frags[i]) then ChargesTo(frags[i], clip)(h) else 0.0
    decreases |frags|
  {
    var init := frags[..|frags| - 1];
    if i == |frags| - 1 {
      TotalNone(init, ChargesOf(h, clip), MetWithId(h, frags[i].id));
    } else {
      OnceBy(h, init, i, clip);
    }
  }

  method MapHunksToFragments(hunks: seq<DiffHunk>, core: set<FragmentId>, frags: seq<Fragment>, clip: bool)
    returns (result: Weights)
    ensures WeighedByHunks(hunks, frags, core, clip, result)
    ensures result == AddHunks(hunks, frags, core, clip)
  {
    result := map[];
    for i := 0 to |hunks|
      invariant result == AddHunks(hunks[..i], frags, core, clip)
    {
      ghost var before := result;
      for j := 0 to |frags|
        invariant result == AddHunk(before, hunks[i], frags[..j], core, clip)
      {
        assert frags[..j + 1][..j] == frags[..j];
        result := AddCharge(result, hunks[i], frags[j], core, clip);
      }
      assert frags[..|frags|] == frags && hunks[..i + 1][..i] == hunks[..i];
    }
    assert hunks[..|hunks|] == hunks;
    ChargedIsSum(hunks, frags, core, clip);
  }

  /** The id constructor keeps the first line at or above the last. */
  predicate Spanned(frags: seq<Fragment>) {
    forall i | 0 <= i < |frags| :: frags[i].id.startLine <= frags[i].id.endLine
  }

  /** Two weightings of the same fragments, the first at least 1 and at most the second. */
  ghost predicate AtMost(a: Weights, b: Weights) {
    a.Keys == b.Keys && forall id | id in a :: 1.0 <= a[id] <= b[id]
  }

  lemma {:induction false} AddHunkAtMost(
    a: Weights, b: Weights, h: DiffHunk, frags: seq<Fragment>, core: set<FragmentId>)
    requires AtMost(a, b) && Spanned(frags)
    ensures AtMost(AddHunk(a, h, frags, core, true), AddHunk(b, h, frags, core, false))
    decreases |frags|
  {
    if frags != [] {
      AddHunkAtMost(a, b, h, frags[..|frags| - 1], core);
      var f := frags[|frags| - 1];
      assert Charged(h, f, core) ==> 1 <= Charge(h, f.id, true) <= Charge(h, f.id, false);
    }
  }

  lemma {:induction false} AddHunksAtMost(hunks: seq<DiffHunk>, frags: seq<Fragment>, core: set<FragmentId>)
    requires Spanned(frags)
    ensures AtMost(AddHunks(hunks, frags, core, true), AddHunks(hunks, frags, core, false))
    decreases |hunks|
  {
    if hunks != [] {
      var init := hunks[..|hunks| - 1];
      AddHunksAtMost(init, frags, core);
      AddHunkAtMost(AddHunks(init, frags, core, true), AddHunks(init, frags, core, false),
                    hunks[|hunks| - 1], frags, core);
    }
  }

  // ---------- the weight of a container ----------

  lemma {:induction false} SumAtMost(a: Weights, b: Weights, ids: set<FragmentId>)
    requires AtMost(a, b) && ids <= a.Keys
    ensures |ids| as real <= SumBy(ids, WeighedIn(a)) <= SumBy(ids, WeighedIn(b))
    decreases ids
  {
    if ids != {} {
      var id :| id in ids;
      SumByWithout(ids, WeighedIn(a), id);
      SumByWithout(ids, WeighedIn(b), id);
      SumAtMost(a, b, ids - {id});
    }
  }

  function Inside(m: Weights, f: Fragment): set<FragmentId> {
    set id | id in m && Encloses(f, id)
  }

  /** What is weighed inside `f`. */
  ghost function HeldIn(m: Weights, f: Fragment): real { SumBy(Inside(m, f), WeighedIn(m)) }

  method ContainedWeight(m: Weights, f: Fragment) returns (w: real)
    ensures w == HeldIn(m, f)
  {
    w := 0.0;
    var left := Inside(m, f);
    while left != {}
      invariant left <= Inside(m, f) && w + SumBy(left, WeighedIn(m)) == HeldIn(m, f)
      decreases |left|
    {
      var id :| id in left;
      SumByWithout(left, WeighedIn(m), id);
      w := w + m[id];
      left := left - {id};
    }
  }

  /** A container of the core no hunk was charged to, with something weighed inside. */
  ghost predicate Lacks(m: Weights, core: set<FragmentId>, f: Fragment) {
    f.id in core && f.id !in m && f.container && HeldIn(m, f) > 0.0
  }

  /** `m` with every lacking container given what is weighed inside it. */
  ghost predicate WithContainers(m: Weights, core: set<FragmentId>, frags: seq<Fragment>, m': Weights) {
    && (forall id | id in m :: id in m' && m'[id] == m[id])
    && (forall f | f in frags && Lacks(m, core, f) :: f.id in m' && m'[f.id] == HeldIn(m, f))
    && (forall id | id in m' && id !in m :: exists f :: f in frags && Lacks(m, core, f) && f.id == id)
  }

  method AddContainerWeights(m: Weights, core: set<FragmentId>, frags: seq<Fragment>) returns (m': Weights)
    ensures WithContainers(m, core, frags, m')
  {
    var toAdd: Weights := map[];
    for i := 0 to |frags|
      invariant forall j | 0 <= j < i && Lacks(m, core, frags[j]) ::
        frags[j].id in toAdd && toAdd[frags[j].id] == HeldIn(m, frags[j])
      invariant forall id | id in toAdd :: id !in m && exists f :: f in frags && Lacks(m, core, f) && f.id == id
    {
      var f := frags[i];
      if f.id in core && f.id !in m && f.container {
        var w := ContainedWeight(m, f);
        if w > 0.0 {
          assert Lacks(m, core, f);
          forall j | 0 <= j < i && frags[j].id == f.id
            ensures Inside(m, frags[j]) == Inside(m, f)
          {
          }
          toAdd := toAdd[f.id := w];
        }
      }
    }
    m' := m + toAdd;
  }

  lemma ContainersAtMost(a: Weights, b: Weights, core: set<FragmentId>, frags: seq<Fragment>, a': Weights, b': Weights)
    requires AtMost(a, b) && WithContainers(a, core, frags, a') && WithContainers(b, core, frags, b')
    ensures AtMost(a', b')
  {
    forall f | f in frags
      ensures Lacks(a, core, f) <==> Lacks(b, core, f)
      ensures HeldIn(a, f) <= HeldIn(b, f) && (Lacks(a, core, f) ==> HeldIn(a, f) >= 1.0)
    {
      assert Inside(a, f) == Inside(b, f);
      SumAtMost(a, b, Inside(a, f));
    }
    forall id | id in a'
      ensures id in b' && 1.0 <= a'[id] <= b'[id]
    {
      if id !in a {
        var f :| f in frags && Lacks(a, core, f) && f.id == id;
      }
    }
    forall id | id in b'
      ensures id in a'
    {
      if id !in b {
        var f :| f in frags && Lacks(b, core, f) && f.id == id;
      }
    }
    assert a'.Keys == b'.Keys;
  }

  // ---------- what is still missing ----------

  function HunkSize(h: DiffHunk): nat {
    h.CoreSelectionRange().1 - h.CoreSelectionRange().0 + 1
  }

  function BestSize(hunks: seq<DiffHunk>, path: string): nat {
    if hunks == [] then 0
    else
      var best, h := BestSize(hunks[..|hunks| - 1], path), hunks[|hunks| - 1];
      if h.path == path then Most(best, HunkSize(h)) else best
  }

  /** `best` is the size of the largest hunk of the path, 0 if the path has none. */
  ghost predicate IsLargest(hunks: seq<DiffHunk>, path: string, best: nat) {
    && (forall h | h in hunks && h.path == path :: HunkSize(h) <= best)
    && (best == 0 || exists h :: h in hunks && h.path == path && HunkSize(h) == best)
  }

  lemma {:induction false} BestSizeIsLargest(hunks: seq<DiffHunk>, path: string)
    ensures IsLargest(hunks, path, BestSize(hunks, path))
    decreases |hunks|
  {
    if hunks != [] {
      var init, last := hunks[..|hunks| - 1], hunks[|hunks| - 1];
      BestSizeIsLargest(init, path);
      assert hunks == init + [last];
      assert last in hunks;
      if BestSize(hunks, path) == BestSize(init, path) != 0 {
        var h :| h in init && h.path == path && HunkSize(h) == BestSize(init, path);
        assert h in hunks;
      }
    }
  }

  /** `m` with every missing core fragment given the largest hunk of its file. */
  function Filled(m: Weights, core: set<FragmentId>, hunks: seq<DiffHunk>): Weights {
    m + map id | id in core && id !in m && BestSize(hunks, id.path) > 0 :: BestSize(hunks, id.path) as real
  }

  method FillMissingCoreWeights(m: Weights, core: set<FragmentId>, hunks: seq<DiffHunk>) returns (m': Weights)
    ensures m' == Filled(m, core, hunks)
  {
    m' := m;
    var missing := set id | id in core && id !in m;
    var left := missing;
    while left != {}
      invariant left <= missing
      invariant forall id :: id in m' <==> id in m || (id in missing && id !in left && BestSize(hunks, id.path) > 0)
      invariant forall id | id in m' :: m'[id] == if id in m then m[id] else BestSize(hunks, id.path) as real
      decreases |left|
    {
      var id :| id in left;
      var best := BestSizeForPath(hunks, id.path);
      if best > 0 {
        m' := m'[id := best as real];
      }
      left := left - {id};
    }
  }

  method BestSizeForPath(hunks: seq<DiffHunk>, path: string) returns (best: nat)
    ensures IsLargest(hunks, path, best)
    ensures best == BestSize(hunks, path)
  {
    best := 0;
    for i := 0 to |hunks|
      invariant best == BestSize(hunks[..i], path)
    {
      if hunks[i].path == path {
        best := Most(best, HunkSize(hunks[i]));
      }
      assert hunks[..i + 1][..i] == hunks[..i];
    }
    assert hunks[..|hunks|] == hunks;
    BestSizeIsLargest(hunks, path);
  }

  // ---------- the lines each core carries ----------

  /** Every step of the weighting. */
  ghost predicate Weighs(hunks: seq<DiffHunk>, core: set<FragmentId>, frags: seq<Fragment>, clip: bool, m: Weights) {
    var charged := AddHunks(hunks, frags, core, clip);
    if charged == map[] then m == map[]
    else exists held :: WithContainers(charged, core, frags, held) && m == Filled(held, core, hunks)
  }

  /** What the ids of the file between the first and the last line weigh. */
  ghost function WeighedBetween(charged: Weights, outer: FragmentId): real {
    SumBy((set id | id in charged && id.path == outer.path
                    && outer.startLine <= id.startLine && id.endLine <= outer.endLine), WeighedIn(charged))
  }

  /** What a core fragment weighs in the end, when any is overlapped: what the hunks that meet it
      are charged; if none does and it is a container, what the charged ones between its first and
      last line weigh; and if that is nothing, the largest hunk of its file. */
  lemma WeightStands(hunks: seq<DiffHunk>, core: set<FragmentId>, frags: seq<Fragment>, clip: bool, m: Weights,
                     f: Fragment)
    requires Weighs(hunks, core, frags, clip, m) && f in frags && f.id in core && Overlaps(hunks, frags, core)
    requires forall g | g in frags && g.id == f.id :: g == f
    ensures var (charged, best) := (AddHunks(hunks, frags, core, clip), BestSize(hunks, f.id.path));
      if exists h :: h in hunks && Meets(h, f) then
        f.id in m && m[f.id] == ChargedTo(hunks, frags, f.id, clip)
      else if f.container && WeighedBetween(charged, f.id) > 0.0 then
        f.id in m && m[f.id] == WeighedBetween(charged, f.id)
      else
        IsLargest(hunks, f.id.path, best) && (f.id in m <==> best > 0) && (f.id in m ==> m[f.id] == best as real)
  {
    var charged := AddHunks(hunks, frags, core, clip);
    var held := WeighedWith(hunks, core, frags, clip, m);
    ChargedIsSum(hunks, frags, core, clip);
    MetIsCharged(hunks, core, frags, f);
    HeldStands(charged, core, frags, held, f);
    BestSizeIsLargest(hunks, f.id.path);
  }

  lemma WeighedWith(hunks: seq<DiffHunk>, core: set<FragmentId>, frags: seq<Fragment>, clip: bool, m: Weights)
    returns (held: Weights)
    requires Weighs(hunks, core, frags, clip, m) && Overlaps(hunks, frags, core)
    ensures WithContainers(AddHunks(hunks, frags, core, clip), core, frags, held) && m == Filled(held, core, hunks)
  {
    var charged := AddHunks(hunks, frags, core, clip);
    ChargedIsSum(hunks, frags, core, clip);
    var h, g :| h in hunks && g in frags && Charged(h, g, core);
    assert ChargedId(hunks, frags, core, g.id) && g.id in charged;
    held :| WithContainers(charged, core, frags, held) && m == Filled(held, core, hunks);
  }

  lemma MetIsCharged(hunks: seq<DiffHunk>, core: set<FragmentId>, frags: seq<Fragment>, f: Fragment)
    requires f in frags && f.id in core && forall g | g in frags && g.id == f.id :: g == f
    ensures ChargedId(hunks, frags, core, f.id) <==> exists h :: h in hunks && Meets(h, f)
  {
    if h :| h in hunks && Meets(h, f) {
      assert Charged(h, f, core);
    }
  }

  lemma HeldStands(charged: Weights, core: set<FragmentId>, frags: seq<Fragment>, held: Weights, f: Fragment)
    requires WithContainers(charged, core, frags, held) && f in frags && f.id in core
    requires forall g | g in frags && g.id == f.id :: g == f
    ensures if f.id in charged then f.id in held && held[f.id] == charged[f.id]
            else if f.container && WeighedBetween(charged, f.id) > 0.0 then
              f.id in held && held[f.id] == WeighedBetween(charged, f.id)
            else f.id !in held
  {
    HeldIsBetween(charged, f);
  }

  lemma HeldIsBetween(charged: Weights, f: Fragment)
    ensures HeldIn(charged, f) == WeighedBetween(charged, f.id)
  {
    assert Inside(charged, f) == set id | id in charged && id.path == f.id.path
                                         && f.id.startLine <= id.startLine && id.endLine <= f.id.endLine;
  }

  method HunkLinesPerCore(hunks: seq<DiffHunk>, core: set<FragmentId>, frags: seq<Fragment>, clip: bool)
    returns (m: Weights)
    ensures Weighs(hunks, core, frags, clip, m)
  {
    var charged := MapHunksToFragments(hunks, core, frags, clip);
    if charged == map[] {
      return map[];
    }
    var held := AddContainerWeights(charged, core, frags);
    m := FillMissingCoreWeights(held, core, hunks);
  }

  /** Some hunk overlaps some core fragment of its file. */
  ghost predicate Overlaps(hunks: seq<DiffHunk>, frags: seq<Fragment>, core: set<FragmentId>) {
    exists h, f :: h in hunks && f in frags && Charged(h, f, core)
  }

  /** The changed lines of each core never exceed its seed weight; both weigh the same
      fragments; and they weigh the whole core as soon as a hunk overlaps any of it. */
  lemma ChangedLinesBelowSeedWeights(hunks: seq<DiffHunk>, frags: seq<Fragment>, changed: Weights, seeds: Weights)
    requires Spanned(frags)
    requires Weighs(hunks, Core(hunks, Elements(frags)), frags, true, changed)
    requires Weighs(hunks, Core(hunks, Elements(frags)), frags, false, seeds)
    ensures AtMost(changed, seeds)
    ensures var core := Core(hunks, Elements(frags));
            changed.Keys == if Overlaps(hunks, frags, core) then core else {}
  {
    var core := Core(hunks, Elements(frags));
    var a, b := AddHunks(hunks, frags, core, true), AddHunks(hunks, frags, core, false);
    AddHunksAtMost(hunks, frags, core);
    EmptyUnlessOverlaps(hunks, frags, core);
    if a == map[] {
      assert b.Keys == {};
      assert b == map[];
    } else {
      var x :| WithContainers(a, core, frags, x) && changed == Filled(x, core, hunks);
      var y :| WithContainers(b, core, frags, y) && seeds == Filled(y, core, hunks);
      ContainersAtMost(a, b, core, frags, x, y);
      HeldInCore(hunks, frags, core, a, x);
      FilledAtMost(x, y, hunks, frags);
    }
  }

  lemma EmptyUnlessOverlaps(hunks: seq<DiffHunk>, frags: seq<Fragment>, core: set<FragmentId>)
    ensures AddHunks(hunks, frags, core, true) == map[] <==> !Overlaps(hunks, frags, core)
  {
    var a := AddHunks(hunks, frags, core, true);
    ChargedKeys(hunks, frags, core, true);
    if Overlaps(hunks, frags, core) {
      var h, f :| h in hunks && f in frags && Charged(h, f, core);
      assert ChargedId(hunks, frags, core, f.id);
      assert f.id in a;
    } else {
      assert forall id :: id !in a;
    }
  }

  lemma HeldInCore(hunks: seq<DiffHunk>, frags: seq<Fragment>, core: set<FragmentId>, a: Weights, x: Weights)
    requires a == AddHunks(hunks, frags, core, true) && WithContainers(a, core, frags, x)
    ensures x.Keys <= core
  {
    ChargedKeys(hunks, frags, core, true);
    forall id | id in x
      ensures id in core
    {
      if id in a {
        assert ChargedId(hunks, frags, core, id);
      } else {
        var f :| f in frags && Lacks(a, core, f) && f.id == id;
      }
    }
  }

  lemma FilledAtMost(x: Weights, y: Weights, hunks: seq<DiffHunk>, frags: seq<Fragment>)
    requires AtMost(x, y) && x.Keys <= Core(hunks, Elements(frags))
    ensures var core := Core(hunks, Elements(frags));
      && AtMost(Filled(x, core, hunks), Filled(y, core, hunks))
      && Filled(x, core, hunks).Keys == core
  {
    CoreHasHunks(hunks, Elements(frags));
    forall id | id in Core(hunks, Elements(frags))
      ensures BestSize(hunks, id.path) >= 1
    {
      BestSizeIsLargest(hunks, id.path);
    }
  }

  /** What is charged: core fragments a hunk overlaps. */
  lemma {:induction false} ChargedKeys(hunks: seq<DiffHunk>, frags: seq<Fragment>, core: set<FragmentId>, clip: bool)
    ensures forall id :: id in AddHunks(hunks, frags, core, clip) <==> ChargedId(hunks, frags, core, id)
    decreases |hunks|
  {
    if hunks != [] {
      var init, last := hunks[..|hunks| - 1], hunks[|hunks| - 1];
      ChargedKeys(init, frags, core, clip);
      var m := AddHunks(init, frags, core, clip);
      HunkKeys(m, last, frags, core, clip);
      assert hunks == init + [last];
      forall id
        ensures id in AddHunks(hunks, frags, core, clip) <==> ChargedId(hunks, frags, core, id)
      {
        if id in m {
          var h, f :| h in init && f in frags && Charged(h, f, core) && f.id == id;
          assert h in hunks;
        }
        if h, f :| h in hunks && f in frags && Charged(h, f, core) && f.id == id {
          assert h in init || h == last;
        }
      }
    }
  }

  lemma {:induction false} HunkKeys(m: Weights, h: DiffHunk, frags: seq<Fragment>, core: set<FragmentId>, clip: bool)
    ensures forall id :: id in AddHunk(m, h, frags, core, clip) <==>
              (id in m || exists f :: f in frags && Charged(h, f, core) && f.id == id)
    decreases |frags|
  {
    if frags != [] {
      var init, last := frags[..|frags| - 1], frags[|frags| - 1];
      HunkKeys(m, h, init, core, clip);
      assert frags == init + [last];
      assert forall f :: f in frags <==> f in init || f == last;
    }
  }
}
