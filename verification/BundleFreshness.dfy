/** When the bundle the cache gives is, byte for byte, the one built from scratch. */
module BundleFreshness {
  import opened Collections
  import opened Options
  import opened Graphs
  import opened SourceMapMeaning
  import opened SourceMapBuilders
  import opened BundleOrder
  import opened Bundlers
  import opened CachedBundles

  predicate EndsLine(bs: seq<Byte>) {
    |bs| > 0 && bs[|bs| - 1] == NEWLINE
  }

  /** Parsed modules have some text; the constructor of Source lets it end in a newline. */
  ghost predicate TextsEndLines(project: Project) {
    forall content, path ::
      project.parse(content, path).Some? ==> EndsLine(project.parse(content, path).value.source.content)
  }

  /** The closing line of a bundle is a single line, as base64 is. */
  ghost predicate OneLine(annotate: SourceMap -> seq<Byte>) {
    forall sourceMap :: NEWLINE !in annotate(sourceMap)
  }

  /** Both or neither are there, with the same bytes. */
  predicate SameBytes(b: Option<Bundle>, c: Option<Bundle>) {
    if b.Some? && c.Some? then b.value.content == c.value.content else b == c
  }

  // ---- More modules make a longer bundle ----

  function Size(g: ModuleGraph, order: seq<nat>): nat
    requires Elements(order) <= g.Keys
  {
    if order == [] then 0
    else
      assert order[0] in Elements(order) && Elements(order[1..]) <= Elements(order);
      |g[order[0]].source.content| + Size(g, order[1..])
  }

  lemma {:induction false} SizeIsLength(g: ModuleGraph, order: seq<nat>)
    requires Elements(order) <= g.Keys
    ensures |Contents(Picked(g, order))| == Size(g, order)
    decreases |order|
  {
    if order != [] {
      assert order[0] in Elements(order) && Elements(order[1..]) <= Elements(order);
      assert Picked(g, order)[1..] == Picked(g, order[1..]);
      SizeIsLength(g, order[1..]);
    }
  }

  function Without(order: seq<nat>, j: nat): seq<nat>
    requires j < |order|
  {
    order[..j] + order[j + 1..]
  }

  lemma {:induction false} SizeWithout(g: ModuleGraph, order: seq<nat>, j: nat)
    requires Elements(order) <= g.Keys && j < |order|
    ensures order[j] in g && Elements(Without(order, j)) <= g.Keys
    ensures Size(g, order) == |g[order[j]].source.content| + Size(g, Without(order, j))
    decreases j
  {
    assert order[j] in Elements(order) && Elements(Without(order, j)) <= Elements(order);
    if j == 0 {
      assert Without(order, 0) == order[1..];
    } else {
      assert Elements(order[1..]) <= Elements(order);
      SizeWithout(g, order[1..], j - 1);
      assert Without(order, j)[1..] == Without(order[1..], j - 1) && Without(order, j)[0] == order[0];
    }
  }

  /** The modules of a are among those of b, with the same sources. */
  ghost predicate PartOf(g: ModuleGraph, a: seq<nat>, h: ModuleGraph, b: seq<nat>) {
    && NoDuplicates(a) && NoDuplicates(b) && Elements(a) <= g.Keys && Elements(b) <= h.Keys
    && forall x :: x in a ==> x in b && x in g && x in h && g[x].source == h[x].source
  }

  lemma {:induction false} PartIsShorter(g: ModuleGraph, a: seq<nat>, h: ModuleGraph, b: seq<nat>, p: nat)
    requires PartOf(g, a, h, b) && p in b && p !in a
    requires forall x :: x in h ==> |h[x].source.content| > 0
    ensures Size(g, a) < Size(h, b)
    decreases |a|
  {
    if a == [] {
      assert b[0] in Elements(b);
    } else {
      assert a[0] in a;
      var j :| 0 <= j < |b| && b[j] == a[0];
      SizeWithout(h, b, j);
      SizeWithout(g, a, 0);
      var rest := Without(b, j);
      assert Without(a, 0) == a[1..];
      assert NoDuplicates(rest) by {
        assert forall i :: 0 <= i < |rest| ==> rest[i] == b[if i < j then i else i + 1];
      }
      forall x | x in a[1..] || x == p ensures x in rest {
        assert x in b && x != a[0] by {
          if x in a[1..] {
            var i :| 0 < i < |a| && a[i] == x;
            assert a[i] in a && a[i] != a[0];
          }
        }
        var k :| 0 <= k < |b| && b[k] == x;
        assert rest[if k < j then k else k - 1] == x;
      }
      PartIsShorter(g, a[1..], h, rest, p);
    }
  }

  // ---- What the loader bundles is part of what a fresh one would ----

  lemma HeldEdgeIsLive(project: Project, disk: Disk, entry: nat, modules: Loaded)
    requires Consistent(project, disk, entry, modules)
    ensures EdgesOf(DependenciesOf(LoadedOnly(modules))) <= LiveEdges(project, disk, modules)
  {
    var deps := DependenciesOf(LoadedOnly(modules));
    forall e | e in EdgesOf(deps) ensures e in LiveEdges(project, disk, modules) {
      var i :| e.0 in deps && 0 <= i < |deps[e.0]| && deps[e.0][i] == e.1;
      assert UpToDate(project, disk, modules, e.0);
      SelectedAreTargets(modules, TargetsAt(project, disk, e.0));
      assert e.1 in TargetsAt(project, disk, e.0);
      var k :| 0 <= k < |TargetsAt(project, disk, e.0)| && TargetsAt(project, disk, e.0)[k] == e.1;
      assert (e.0, TargetsAt(project, disk, e.0)[k]) in LiveEdges(project, disk, modules);
    }
  }

  lemma {:induction false} SelectedAreTargets(modules: Loaded, targets: seq<nat>)
    ensures forall t :: t in SelectLoaded(modules, targets) ==> t in targets
  {
    if targets != [] { SelectedAreTargets(modules, targets[1..]); }
  }

  lemma HeldIsFresh(project: Project, disk: Disk, entry: nat, modules: Loaded, x: nat)
    requires Consistent(project, disk, entry, modules) && LoadedClosed(modules)
             && LoadedClosed(FreshLoad(project, disk, entry))
    requires IsLoaded(modules, entry) && x in BundledOrder(modules, entry).value
    ensures IsLoaded(modules, x) && IsLoaded(FreshLoad(project, disk, entry), entry)
    ensures x in BundledOrder(FreshLoad(project, disk, entry), entry).value
    ensures IsLoaded(FreshLoad(project, disk, entry), x)
    ensures FreshLoad(project, disk, entry)[x].value.source == modules[x].value.source
  {
    var fresh' := FreshLoad(project, disk, entry);
    var deps := DependenciesOf(LoadedOnly(modules));
    ClosedGraph(modules);
    ClosedGraph(fresh');
    BundleOrderIsRight(deps, entry);
    assert x in Elements(BundledOrder(modules, entry).value);
    assert UpToDate(project, disk, modules, x) && UpToDate(project, disk, modules, entry);
    HeldIsReachable(project, disk, entry, modules);
    assert IsLoaded(fresh', entry);
    if x != entry {
      HeldEdgeIsLive(project, disk, entry, modules);
      ReachMonotone(EdgesOf(deps), LiveEdges(project, disk, modules), entry, x);
      var mid :| Walk(LiveEdges(project, disk, modules), entry, mid, x);
      FreshWalk(project, disk, entry, modules, entry, mid, x);
    }
    BundleOrderIsRight(DependenciesOf(LoadedOnly(fresh')), entry);
  }

  lemma HeldIsPart(project: Project, disk: Disk, entry: nat, modules: Loaded)
    requires Consistent(project, disk, entry, modules) && LoadedClosed(modules)
             && LoadedClosed(FreshLoad(project, disk, entry))
    requires IsLoaded(modules, entry) && IsLoaded(FreshLoad(project, disk, entry), entry)
    ensures PartOf(LoadedOnly(modules), BundledOrder(modules, entry).value,
                   LoadedOnly(FreshLoad(project, disk, entry)),
                   BundledOrder(FreshLoad(project, disk, entry), entry).value)
  {
    var fresh' := FreshLoad(project, disk, entry);
    ClosedGraph(modules);
    ClosedGraph(fresh');
    BundleOrderIsRight(DependenciesOf(LoadedOnly(modules)), entry);
    BundleOrderIsRight(DependenciesOf(LoadedOnly(fresh')), entry);
    forall x | x in BundledOrder(modules, entry).value
      ensures x in BundledOrder(fresh', entry).value && x in LoadedOnly(modules) && x in LoadedOnly(fresh')
              && LoadedOnly(modules)[x].source == LoadedOnly(fresh')[x].source
    {
      HeldIsFresh(project, disk, entry, modules, x);
    }
  }

  // ---- The theorem ----

  lemma {:induction false} ContentsEndLine(sources: seq<Source>)
    requires sources != [] && forall i :: 0 <= i < |sources| ==> EndsLine(sources[i].content)
    ensures EndsLine(Contents(sources))
    decreases |sources|
  {
    if |sources| > 1 {
      ContentsEndLine(sources[1..]);
    } else {
      assert sources[1..] == [];
    }
  }

  lemma LineEnds(a: seq<Byte>, x: seq<Byte>)
    requires EndsLine(a) && NEWLINE !in x
    ensures (a + x)[|a| - 1] == NEWLINE && forall k :: |a| <= k < |a + x| ==> (a + x)[k] != NEWLINE
  {}

  /** The last line of a bundle can be told from the text before it. */
  lemma LastLineSplits(a: seq<Byte>, x: seq<Byte>, b: seq<Byte>, y: seq<Byte>)
    requires EndsLine(a) && EndsLine(b) && NEWLINE !in x && NEWLINE !in y
    requires a + x + [NEWLINE] == b + y + [NEWLINE]
    ensures a == b && x == y
  {
    var t := a + x + [NEWLINE];
    assert a + x == t[..|t| - 1] == b + y;
    LineEnds(a, x);
    LineEnds(b, y);
    assert |a| == |b|;
    assert a == (a + x)[..|a|] && x == (a + x)[|a|..];
    assert b == (b + y)[..|b|] && y == (b + y)[|b|..];
  }

  lemma BundleOrderIsNotEmpty(modules: Loaded, entry: nat)
    requires LoadedClosed(modules) && IsLoaded(modules, entry)
    ensures entry in BundledOrder(modules, entry).value
  {
    ClosedGraph(modules);
    BundleOrderIsRight(DependenciesOf(LoadedOnly(modules)), entry);
    assert entry in Elements(BundledOrder(modules, entry).value);
  }

  lemma HeldTextEndsLine(project: Project, disk: Disk, entry: nat, modules: Loaded)
    requires Consistent(project, disk, entry, modules) && LoadedClosed(modules) && TextsEndLines(project)
    requires IsLoaded(modules, entry)
    ensures Elements(BundledOrder(modules, entry).value) <= LoadedOnly(modules).Keys
    ensures EndsLine(Contents(Picked(LoadedOnly(modules), BundledOrder(modules, entry).value)))
  {
    ClosedGraph(modules);
    BundleOrderIsNotEmpty(modules, entry);
    var g, order := LoadedOnly(modules), BundledOrder(modules, entry).value;
    forall i | 0 <= i < |order| ensures EndsLine(Picked(g, order)[i].content) {
      assert order[i] in Elements(order);
      assert UpToDate(project, disk, modules, order[i]);
    }
    ContentsEndLine(Picked(g, order));
  }

  lemma FreshTextEndsLine(project: Project, disk: Disk, entry: nat)
    requires LoadedClosed(FreshLoad(project, disk, entry)) && TextsEndLines(project)
    requires IsLoaded(FreshLoad(project, disk, entry), entry)
    ensures Elements(BundledOrder(FreshLoad(project, disk, entry), entry).value)
         <= LoadedOnly(FreshLoad(project, disk, entry)).Keys
    ensures EndsLine(Contents(Picked(LoadedOnly(FreshLoad(project, disk, entry)),
                                     BundledOrder(FreshLoad(project, disk, entry), entry).value)))
  {
    var modules := FreshLoad(project, disk, entry);
    ClosedGraph(modules);
    BundleOrderIsNotEmpty(modules, entry);
    var g, order := LoadedOnly(modules), BundledOrder(modules, entry).value;
    forall i | 0 <= i < |order| ensures EndsLine(Picked(g, order)[i].content) {
      assert order[i] in Elements(order);
      assert ParseAt(project, disk, order[i]).Some?;
    }
    ContentsEndLine(Picked(g, order));
  }

  /** What a stale loader bundles is less text than what a new one would. */
  lemma StaleTextIsShorter(project: Project, disk: Disk, entry: nat, modules: Loaded)
    requires Consistent(project, disk, entry, modules) && TextsEndLines(project) && Stale(project, disk, modules)
    requires LoadedClosed(modules) && LoadedClosed(FreshLoad(project, disk, entry))
    requires IsLoaded(modules, entry) && IsLoaded(FreshLoad(project, disk, entry), entry)
    ensures var fresh' := FreshLoad(project, disk, entry);
      && Elements(BundledOrder(modules, entry).value) <= LoadedOnly(modules).Keys
      && Elements(BundledOrder(fresh', entry).value) <= LoadedOnly(fresh').Keys
      && |Contents(Picked(LoadedOnly(modules), BundledOrder(modules, entry).value))|
         < |Contents(Picked(LoadedOnly(fresh'), BundledOrder(fresh', entry).value))|
  {
    var fresh' := FreshLoad(project, disk, entry);
    var g, h := LoadedOnly(modules), LoadedOnly(fresh');
    var a, o := BundledOrder(modules, entry).value, BundledOrder(fresh', entry).value;
    var p := StaleDiffers(project, disk, entry, modules);
    HeldIsPart(project, disk, entry, modules);
    forall x | x in h ensures |h[x].source.content| > 0 {
      assert ParseAt(project, disk, x).Some?;
    }
    PartIsShorter(g, a, h, o, p);
    SizeIsLength(g, a);
    SizeIsLength(h, o);
  }

  lemma StaleBundleDiffers(project: Project, disk: Disk, entry: nat, modules: Loaded, annotate: SourceMap -> seq<Byte>,
                           b: Bundle, c: Bundle)
    requires Consistent(project, disk, entry, modules) && TextsEndLines(project) && OneLine(annotate)
    requires Stale(project, disk, modules) && LoadedClosed(modules) && LoadedClosed(FreshLoad(project, disk, entry))
    requires BundleOf(Some(b), modules, entry, annotate)
    requires BundleOf(Some(c), FreshLoad(project, disk, entry), entry, annotate)
    ensures b.content != c.content
  {
    HeldTextEndsLine(project, disk, entry, modules);
    FreshTextEndsLine(project, disk, entry);
    StaleTextIsShorter(project, disk, entry, modules);
    if b.content == c.content {
      var fresh' := FreshLoad(project, disk, entry);
      LastLineSplits(Contents(Picked(LoadedOnly(modules), BundledOrder(modules, entry).value)), annotate(b.sourceMap),
                     Contents(Picked(LoadedOnly(fresh'), BundledOrder(fresh', entry).value)), annotate(c.sourceMap));
    }
  }

  /** The bundle the cache gives equals the one built from scratch, byte for byte, if and only if
      no file that did not parse when it was loaded parses now. (Where there is neither, because a
      map cannot be read or the entry does not parse, there is nothing to compare.) */
  lemma BundleIsFreshIff(project: Project, disk: Disk, entry: nat, modules: Loaded, annotate: SourceMap -> seq<Byte>,
                         b: Option<Bundle>, c: Option<Bundle>)
    requires Consistent(project, disk, entry, modules) && TextsEndLines(project) && OneLine(annotate)
    requires LoadedClosed(modules) && LoadedClosed(FreshLoad(project, disk, entry))
    requires BundleOf(b, modules, entry, annotate)
    requires BundleOf(c, FreshLoad(project, disk, entry), entry, annotate)
    requires b.Some? || c.Some?
    ensures SameBytes(b, c) <==> !Stale(project, disk, modules)
  {
    if !Stale(project, disk, modules) {
      NotStaleIsFresh(project, disk, entry, modules);
      BundlesIsUnique(b.value, c.value, Picked(LoadedOnly(modules), BundledOrder(modules, entry).value),
                      RootAt(modules, entry), annotate);
    } else if b.Some? && c.Some? {
      StaleBundleDiffers(project, disk, entry, modules, annotate, b.value, c.value);
    }
  }

  // ---- It does go stale ----

  /** File 0 asks for file 1, and what reads "define" is a module. */
  function ParseExample(content: string, path: nat): Option<Parsed> {
    if content == "define" then Some(Parsed(Source([100, 10], EMPTY_SOURCE_MAP, 1), if path == 0 then ["a"] else []))
    else None
  }

  const EXAMPLE := Project(ParseExample, (request, path) => Some(1))

  const BROKEN: Disk := map[0 := "define", 1 := "defin"]

  lemma ExampleParses()
    ensures ParsesToSources(EXAMPLE) && TextsEndLines(EXAMPLE)
    ensures forall content, path :: EXAMPLE.parse(content, path) == ParseExample(content, path)
  {
    assert [100, 10][..1] == [100] && [100][..0] == [];
    assert CountNewlines([]) == 0;
    assert CountNewlines([100]) == 0;
    assert CountNewlines([100, 10]) == 1;
  }

  lemma ExampleTargets()
    ensures TargetsAt(EXAMPLE, BROKEN, 0) == [1] && TargetsAt(EXAMPLE, BROKEN, 1) == []
    ensures RequestEdges(EXAMPLE, BROKEN) == {(0, 1)}
  {
    assert ["a"][1..] == [];
    assert Targets(EXAMPLE, ["a"], 0) == [1] + Targets(EXAMPLE, [], 0);
    var g := RequestEdges(EXAMPLE, BROKEN);
    assert (0, TargetsAt(EXAMPLE, BROKEN, 0)[0]) in g;
  }

  lemma {:induction false} OneEdge(x: nat, mid: seq<nat>, y: nat)
    requires Walk({(0, 1)}, x, mid, y)
    ensures x == 0 && y == 1
    decreases |mid|
  {
    if mid != [] { OneEdge(mid[0], mid[1..], y); }
  }

  lemma ExampleIsSafe()
    ensures SafeFrom(EXAMPLE, BROKEN, 0)
  {
    ExampleTargets();
    forall x: nat, y: nat | Reach({(0, 1)}, x, y) ensures x == 0 && y == 1 {
      var mid :| Walk({(0, 1)}, x, mid, y);
      OneEdge(x, mid, y);
    }
  }

  lemma ExampleIsReadable(disk: Disk, modules: Loaded)
    requires Consistent(EXAMPLE, disk, 0, modules) && LoadedClosed(modules) && IsLoaded(modules, 0)
    ensures Elements(BundledOrder(modules, 0).value) <= LoadedOnly(modules).Keys
    ensures AllReadable(Picked(LoadedOnly(modules), BundledOrder(modules, 0).value))
  {
    ExampleParses();
    ClosedGraph(modules);
    var order := BundledOrder(modules, 0).value;
    forall i | 0 <= i < |order| ensures ReadableMap(Picked(LoadedOnly(modules), order)[i]) {
      assert order[i] in Elements(order);
      assert UpToDate(EXAMPLE, disk, modules, order[i]);
    }
  }

  /** A run of the cache: load, then repair the file that did not parse. The bundle given after
      that is not one a rebuild could give. */
  method RepairGoesUnnoticed(annotate: SourceMap -> seq<Byte>) returns (cache: CachedBundle, b: Option<Bundle>)
    requires OneLine(annotate)
    ensures cache.Valid() && cache.project == EXAMPLE && cache.annotate == annotate && cache.entryModulePath == 0
    ensures cache.disk == BROKEN[1 := "define"] && cache.IsStale() && b.Some?
    ensures LoadedClosed(FreshLoad(EXAMPLE, cache.disk, 0))
    ensures forall c :: BundleOf(c, FreshLoad(EXAMPLE, cache.disk, 0), 0, annotate) ==> !SameBytes(b, c)
  {
    ExampleParses();
    ExampleIsSafe();
    ExampleTargets();
    cache := new CachedBundle(EXAMPLE, annotate, 0, BROKEN);
    b := cache.GetBundle(BROKEN);
    ReachEdge(RequestEdges(EXAMPLE, BROKEN), 0, 1);
    InBelow(RequestEdges(EXAMPLE, BROKEN), 0, 1);
    assert 1 in cache.loader.modules && cache.loader.modules[1].None? && IsLoaded(cache.loader.modules, 0);
    cache.SetModuleContent(1, "define");
    ConsistentIsClosed(EXAMPLE, cache.disk, 0, cache.loader.modules);
    ExampleIsReadable(cache.disk, cache.loader.modules);
    b := cache.GetBundle(BROKEN[1 := "define"]);
    FreshLoadIsClosed(EXAMPLE, cache.disk, 0);
    forall c | BundleOf(c, FreshLoad(EXAMPLE, cache.disk, 0), 0, annotate) ensures !SameBytes(b, c) {
      BundleIsFreshIff(EXAMPLE, cache.disk, 0, cache.loader.modules, annotate, b, c);
    }
  }
}
