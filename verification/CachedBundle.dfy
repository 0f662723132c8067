/** The incremental bundle of scripts/playground-server.ts: a loader that reads modules and
    their dependencies from disk, and a cache that is patched or dropped when a file changes. */
module CachedBundles {
  import opened Collections
  import opened Options
  import opened Graphs
  import opened SourceMapMeaning
  import opened SourceMapBuilders
  import opened BundleOrder
  import opened Bundlers

  type Disk = map<nat, string>

  /** parseModule's result. */
  datatype Parsed = Parsed(source: Source, dependencyRequests: seq<string>)

  /** How files are understood: parseModule, and the mapper that turns a request made by a
      module into a path. */
  datatype Project = Project(parse: (string, nat) -> Option<Parsed>, resolve: (string, nat) -> Option<nat>)

  /** The path a request leads to, if any. */
  function TargetOf(project: Project, request: string, path: nat): Option<nat> {
    if request == "require" || request == "exports" || request == "module" then None else project.resolve(request, path)
  }

  /** The paths a module's requests lead to. */
  function Targets(project: Project, requests: seq<string>, path: nat): seq<nat> {
    if requests == [] then []
    else match TargetOf(project, requests[0], path)
      case None => Targets(project, requests[1..], path)
      case Some(target) => [target] + Targets(project, requests[1..], path)
  }

  function ParseAt(project: Project, disk: Disk, path: nat): Option<Parsed> {
    if path in disk then project.parse(disk[path], path) else None
  }

  function TargetsAt(project: Project, disk: Disk, path: nat): seq<nat> {
    match ParseAt(project, disk, path)
    case None => []
    case Some(parsed) => Targets(project, parsed.dependencyRequests, path)
  }

  /** Which module asks for which, as the files stand. */
  ghost function RequestEdges(project: Project, disk: Disk): Graph {
    set p, i | p in disk && 0 <= i < |TargetsAt(project, disk, p)| :: (p, TargetsAt(project, disk, p)[i])
  }

  /** One of the three names the loader itself provides. */
  predicate IsProvided(request: string) {
    request in {"require", "exports", "module"}
  }

  /** A request that leads from path to the module at target. */
  predicate LeadsTo(project: Project, request: string, path: nat, target: nat) {
    !IsProvided(request) && project.resolve(request, path) == Some(target)
  }

  lemma {:induction false} TargetsConcat(project: Project, a: seq<string>, b: seq<string>, path: nat)
    ensures Targets(project, a + b, path) == Targets(project, a, path) + Targets(project, b, path)
    decreases |a|
  {
    if a == [] {
      assert a + b == b;
    } else {
      assert (a + b)[1..] == a[1..] + b;
      TargetsConcat(project, a[1..], b, path);
    }
  }

  /** A module asks for another if and only if its file is there and parses, and one of its requests,
      other than the three names the loader provides, is resolved to it from the module's own path. */
  lemma RequestEdgesIff(project: Project, disk: Disk, p: nat, target: nat)
    ensures (p, target) in RequestEdges(project, disk) <==>
              && p in disk && project.parse(disk[p], p).Some?
              && exists i :: 0 <= i < |project.parse(disk[p], p).value.dependencyRequests|
                          && LeadsTo(project, project.parse(disk[p], p).value.dependencyRequests[i], p, target)
  {
    if p in disk && project.parse(disk[p], p).Some? {
      TargetsIff(project, project.parse(disk[p], p).value.dependencyRequests, p, target);
      assert (p, target) in RequestEdges(project, disk) <==> target in TargetsAt(project, disk, p);
    }
  }

  lemma {:induction false} TargetsIff(project: Project, requests: seq<string>, path: nat, target: nat)
    ensures target in Targets(project, requests, path) <==>
            exists i :: 0 <= i < |requests| && LeadsTo(project, requests[i], path, target)
    decreases |requests|
  {
    if requests != [] {
      TargetsIff(project, requests[1..], path, target);
      TargetsOfOne(project, requests[0], path);
      assert requests == [requests[0]] + requests[1..];
      TargetsConcat(project, [requests[0]], requests[1..], path);
      if i :| 0 <= i < |requests[1..]| && LeadsTo(project, requests[1..][i], path, target) {
        assert LeadsTo(project, requests[i + 1], path, target);
      }
      if i :| 0 < i < |requests| && LeadsTo(project, requests[i], path, target) {
        assert requests[1..][i - 1] == requests[i];
      }
    }
  }

  lemma TargetsOfOne(project: Project, request: string, path: nat)
    ensures Targets(project, [request], path) ==
            if IsProvided(request) || project.resolve(request, path).None? then []
            else [project.resolve(request, path).value]
  {
    assert [request][1..] == [] && Targets(project, [], path) == [];
  }

  // ---- When does loading finish? ----

  /** The promise of a path is fulfilled after n rounds: its file is there, and it does not
      parse or the promises of all its targets were fulfilled before. */
  ghost predicate FulfilledWithin(project: Project, disk: Disk, path: nat, n: nat)
    decreases n
  {
    path in disk &&
    (ParseAt(project, disk, path).None? ||
     (n > 0 && forall i :: 0 <= i < |TargetsAt(project, disk, path)| ==>
        FulfilledWithin(project, disk, TargetsAt(project, disk, path)[i], n - 1)))
  }

  ghost predicate Fulfilled(project: Project, disk: Disk, path: nat) {
    exists n: nat :: FulfilledWithin(project, disk, path, n)
  }

  /** Every file reachable from path exists and lies on no cycle of requests. */
  ghost predicate SafeFrom(project: Project, disk: Disk, path: nat) {
    forall x :: x == path || Reach(RequestEdges(project, disk), path, x) ==>
      x in disk && !Reach(RequestEdges(project, disk), x, x)
  }

  lemma {:induction false} FulfilledLonger(project: Project, disk: Disk, path: nat, n: nat, m: nat)
    requires FulfilledWithin(project, disk, path, n) && n <= m
    ensures FulfilledWithin(project, disk, path, m)
    decreases n
  {
    if n > 0 {
      forall i | 0 <= i < |TargetsAt(project, disk, path)| && ParseAt(project, disk, path).Some?
        ensures FulfilledWithin(project, disk, TargetsAt(project, disk, path)[i], m - 1)
      {
        FulfilledLonger(project, disk, TargetsAt(project, disk, path)[i], n - 1, m - 1);
      }
    }
  }

  lemma SafeTarget(project: Project, disk: Disk, path: nat, i: nat)
    requires SafeFrom(project, disk, path) && i < |TargetsAt(project, disk, path)|
    ensures (path, TargetsAt(project, disk, path)[i]) in RequestEdges(project, disk)
    ensures SafeFrom(project, disk, TargetsAt(project, disk, path)[i])
    ensures Below(RequestEdges(project, disk), TargetsAt(project, disk, path)[i])
          < Below(RequestEdges(project, disk), path)
  {
    var g, q := RequestEdges(project, disk), TargetsAt(project, disk, path)[i];
    assert (path, q) in g;
    ReachEdge(g, path, q);
    forall x | x == q || Reach(g, q, x) ensures x in disk && !Reach(g, x, x) {
      if x != q { ReachTrans(g, path, q, x); }
    }
    BelowShrinks(g, path, q);
  }

  lemma SubsetIsSmaller(a: set<nat>, b: set<nat>)
    requires a < b
    ensures |a| < |b|
  {
    var x :| x in b && x !in a;
    assert a <= b - {x};
    SubsetSize(a, b - {x});
  }

  lemma {:induction false} SubsetSize(a: set<nat>, b: set<nat>)
    requires a <= b
    ensures |a| <= |b|
    decreases b
  {
    if a != {} {
      var x :| x in a;
      SubsetSize(a - {x}, b - {x});
    }
  }

  lemma {:induction false} SafeIsFulfilled(project: Project, disk: Disk, path: nat)
    requires SafeFrom(project, disk, path)
    ensures FulfilledWithin(project, disk, path, |Below(RequestEdges(project, disk), path)| + 1)
    decreases Below(RequestEdges(project, disk), path)
  {
    var g := RequestEdges(project, disk);
    forall i | 0 <= i < |TargetsAt(project, disk, path)|
      ensures FulfilledWithin(project, disk, TargetsAt(project, disk, path)[i], |Below(g, path)|)
    {
      var q := TargetsAt(project, disk, path)[i];
      SafeTarget(project, disk, path, i);
      SafeIsFulfilled(project, disk, q);
      SubsetIsSmaller(Below(g, q), Below(g, path));
      FulfilledLonger(project, disk, q, |Below(g, q)| + 1, |Below(g, path)|);
    }
  }

  lemma {:induction false} FulfilledAlongWalk(project: Project, disk: Disk, a: nat, mid: seq<nat>, b: nat, n: nat)
    requires FulfilledWithin(project, disk, a, n) && Walk(RequestEdges(project, disk), a, mid, b)
    ensures |mid| < n && FulfilledWithin(project, disk, b, n - |mid| - 1)
    decreases |mid|
  {
    var next := if mid == [] then b else mid[0];
    var i :| 0 <= i < |TargetsAt(project, disk, a)| && TargetsAt(project, disk, a)[i] == next;
    if mid != [] {
      FulfilledAlongWalk(project, disk, mid[0], mid[1..], b, n - 1);
    }
  }

  lemma {:induction false} CycleNeverFulfilled(project: Project, disk: Disk, x: nat, mid: seq<nat>, n: nat)
    requires Walk(RequestEdges(project, disk), x, mid, x)
    ensures !FulfilledWithin(project, disk, x, n)
    decreases n
  {
    if FulfilledWithin(project, disk, x, n) {
      FulfilledAlongWalk(project, disk, x, mid, x, n);
      CycleNeverFulfilled(project, disk, x, mid, n - |mid| - 1);
    }
  }

  lemma FulfilledIsSafe(project: Project, disk: Disk, path: nat, n: nat)
    requires FulfilledWithin(project, disk, path, n)
    ensures SafeFrom(project, disk, path)
  {
    var g := RequestEdges(project, disk);
    forall x | x == path || Reach(g, path, x) ensures x in disk && !Reach(g, x, x) {
      if x != path {
        var mid :| Walk(g, path, mid, x);
        FulfilledAlongWalk(project, disk, path, mid, x, n);
        FulfilledOnNoCycle(project, disk, x, n - |mid| - 1);
      } else {
        FulfilledOnNoCycle(project, disk, x, n);
      }
    }
  }

  lemma FulfilledOnNoCycle(project: Project, disk: Disk, x: nat, n: nat)
    requires FulfilledWithin(project, disk, x, n)
    ensures x in disk && !Reach(RequestEdges(project, disk), x, x)
  {
    forall cycle ensures !Walk(RequestEdges(project, disk), x, cycle, x) {
      if Walk(RequestEdges(project, disk), x, cycle, x) { CycleNeverFulfilled(project, disk, x, cycle, n); }
    }
  }

  /** Loading finishes exactly when no cycle of requests, and no missing file, is reachable; a
      cycle leaves promises waiting for each other for ever. */
  lemma LoadingFinishesIff(project: Project, disk: Disk, path: nat)
    ensures Fulfilled(project, disk, path) <==> SafeFrom(project, disk, path)
  {
    if SafeFrom(project, disk, path) {
      SafeIsFulfilled(project, disk, path);
    } else if Fulfilled(project, disk, path) {
      var n: nat :| FulfilledWithin(project, disk, path, n);
      FulfilledIsSafe(project, disk, path, n);
    }
  }

  // ---- Loaded modules ----

  /** What the loader keeps for each path: None for a file that does not parse. */
  type Loaded = map<nat, Option<LoadedModule>>

  predicate IsLoaded(modules: Loaded, p: nat) {
    p in modules && modules[p].Some?
  }

  function SelectLoaded(modules: Loaded, targets: seq<nat>): seq<nat> {
    if targets == [] then []
    else (if IsLoaded(modules, targets[0]) then [targets[0]] else []) + SelectLoaded(modules, targets[1..])
  }

  lemma {:induction false} SelectedAreLoaded(modules: Loaded, targets: seq<nat>)
    ensures forall i :: 0 <= i < |SelectLoaded(modules, targets)| ==>
              IsLoaded(modules, SelectLoaded(modules, targets)[i]) && SelectLoaded(modules, targets)[i] in targets
    ensures forall i :: 0 <= i < |targets| && IsLoaded(modules, targets[i]) ==>
            targets[i] in SelectLoaded(modules, targets)
  {
    if targets != [] { SelectedAreLoaded(modules, targets[1..]); }
  }

  lemma {:induction false} SelectionAgrees(a: Loaded, b: Loaded, targets: seq<nat>)
    requires forall i :: 0 <= i < |targets| ==> (IsLoaded(a, targets[i]) <==> IsLoaded(b, targets[i]))
    ensures SelectLoaded(a, targets) == SelectLoaded(b, targets)
  {
    if targets != [] { SelectionAgrees(a, b, targets[1..]); }
  }

  /** The module at p is what its file parses to, its dependencies those targets that loaded. */
  ghost predicate UpToDate(project: Project, disk: Disk, modules: Loaded, p: nat)
    requires IsLoaded(modules, p)
  {
    var m := modules[p].value;
    && ParseAt(project, disk, p) == Some(Parsed(m.source, m.dependencyRequests))
    && (forall i :: 0 <= i < |TargetsAt(project, disk, p)| ==> TargetsAt(project, disk, p)[i] in modules)
    && m.dependencies == SelectLoaded(modules, TargetsAt(project, disk, p))
  }

  /** The request edges the loader has followed: those of the modules that parsed. */
  ghost function LiveEdges(project: Project, disk: Disk, modules: Loaded): Graph {
    set p, i | p in modules && modules[p].Some? && 0 <= i < |TargetsAt(project, disk, p)| ::
      (p, TargetsAt(project, disk, p)[i])
  }

  /** The loader holds what following requests from the entry finds. */
  ghost predicate Consistent(project: Project, disk: Disk, entry: nat, modules: Loaded) {
    && entry in modules && modules.Keys <= disk.Keys
    && (forall p :: IsLoaded(modules, p) ==> UpToDate(project, disk, modules, p))
    && (forall p :: p in modules ==> p == entry || Reach(LiveEdges(project, disk, modules), entry, p))
  }

  /** A file that did not parse when it was loaded parses now. */
  ghost predicate Stale(project: Project, disk: Disk, modules: Loaded) {
    exists p :: p in modules && modules[p].None? && ParseAt(project, disk, p).Some?
  }

  // ---- Loading everything from scratch ----

  ghost function Reachable(project: Project, disk: Disk, entry: nat): set<nat> {
    {entry} + Below(RequestEdges(project, disk), entry)
  }

  ghost function SelectParsing(project: Project, disk: Disk, targets: seq<nat>): seq<nat> {
    if targets == [] then []
    else
      (if ParseAt(project, disk, targets[0]).Some? then [targets[0]] else [])
      + SelectParsing(project, disk, targets[1..])
  }

  ghost function FreshModule(project: Project, disk: Disk, p: nat): Option<LoadedModule> {
    match ParseAt(project, disk, p)
    case None => None
    case Some(parsed) =>
      Some(LoadedModule(parsed.dependencyRequests, SelectParsing(project, disk, TargetsAt(project, disk, p)),
                        parsed.source))
  }

  /** What a new loader would hold. */
  ghost function FreshLoad(project: Project, disk: Disk, entry: nat): Loaded {
    map p | p in Reachable(project, disk, entry) :: FreshModule(project, disk, p)
  }

  // ---- What a bundle is built from ----

  function LoadedOnly(modules: Loaded): ModuleGraph {
    map p | p in modules && modules[p].Some? :: modules[p].value
  }

  ghost predicate LoadedClosed(modules: Loaded) {
    forall p, i :: IsLoaded(modules, p) && 0 <= i < |modules[p].value.dependencies| ==>
      IsLoaded(modules, modules[p].value.dependencies[i])
  }

  lemma ClosedGraph(modules: Loaded)
    requires LoadedClosed(modules)
    ensures Closed(DependenciesOf(LoadedOnly(modules)))
  {}

  /** The order of the bundle, or None when the entry itself does not parse. */
  ghost function BundledOrder(modules: Loaded, entry: nat): Option<seq<nat>>
    requires LoadedClosed(modules)
  {
    ClosedGraph(modules);
    if IsLoaded(modules, entry) then Some(Visit(DependenciesOf(LoadedOnly(modules)), {}, entry)) else None
  }

  lemma ConsistentIsClosed(project: Project, disk: Disk, entry: nat, modules: Loaded)
    requires Consistent(project, disk, entry, modules)
    ensures LoadedClosed(modules)
  {
    forall p, i | IsLoaded(modules, p) && 0 <= i < |modules[p].value.dependencies|
      ensures IsLoaded(modules, modules[p].value.dependencies[i])
    {
      assert UpToDate(project, disk, modules, p);
      SelectedAreLoaded(modules, TargetsAt(project, disk, p));
    }
  }

  lemma {:induction false} SelectionsAgree(project: Project, disk: Disk, modules: Loaded, targets: seq<nat>)
    requires forall i :: 0 <= i < |targets| ==>
             (IsLoaded(modules, targets[i]) <==> ParseAt(project, disk, targets[i]).Some?)
    ensures SelectLoaded(modules, targets) == SelectParsing(project, disk, targets)
  {
    if targets != [] { SelectionsAgree(project, disk, modules, targets[1..]); }
  }

  lemma {:induction false} SelectParsingExact(project: Project, disk: Disk, targets: seq<nat>)
    ensures forall t :: t in SelectParsing(project, disk, targets) <==> t in targets && ParseAt(project, disk, t).Some?
  {
    if targets != [] { SelectParsingExact(project, disk, targets[1..]); }
  }

  lemma FreshDependency(project: Project, disk: Disk, entry: nat, p: nat, q: nat)
    requires p in Reachable(project, disk, entry) && q in SelectParsing(project, disk, TargetsAt(project, disk, p))
    ensures q in Reachable(project, disk, entry) && ParseAt(project, disk, q).Some?
    ensures (p, q) in RequestEdges(project, disk)
  {
    var g := RequestEdges(project, disk);
    SelectParsingExact(project, disk, TargetsAt(project, disk, p));
    var j :| 0 <= j < |TargetsAt(project, disk, p)| && TargetsAt(project, disk, p)[j] == q;
    assert (p, TargetsAt(project, disk, p)[j]) in g;
    ReachEdge(g, p, q);
    InBelow(g, entry, p);
    if p != entry { ReachTrans(g, entry, p, q); }
    InBelow(g, entry, q);
  }

  lemma FreshLoadIsClosed(project: Project, disk: Disk, entry: nat)
    ensures LoadedClosed(FreshLoad(project, disk, entry))
  {
    var fresh' := FreshLoad(project, disk, entry);
    forall p, i | IsLoaded(fresh', p) && 0 <= i < |fresh'[p].value.dependencies|
      ensures IsLoaded(fresh', fresh'[p].value.dependencies[i])
    {
      assert fresh'[p].value.dependencies == SelectParsing(project, disk, TargetsAt(project, disk, p));
      FreshDependency(project, disk, entry, p, fresh'[p].value.dependencies[i]);
    }
  }

  lemma LiveEdgesAreRequests(project: Project, disk: Disk, entry: nat, modules: Loaded)
    requires Consistent(project, disk, entry, modules)
    ensures LiveEdges(project, disk, modules) <= RequestEdges(project, disk)
  {}

  lemma HeldIsReachable(project: Project, disk: Disk, entry: nat, modules: Loaded)
    requires Consistent(project, disk, entry, modules)
    ensures modules.Keys <= Reachable(project, disk, entry)
  {
    LiveEdgesAreRequests(project, disk, entry, modules);
    forall p | p in modules ensures p in Reachable(project, disk, entry) {
      if p != entry {
        ReachMonotone(LiveEdges(project, disk, modules), RequestEdges(project, disk), entry, p);
        InBelow(RequestEdges(project, disk), entry, p);
      }
    }
  }

  /** Without stale files the loader holds exactly what loading from scratch would give. */
  lemma NotStaleIsFresh(project: Project, disk: Disk, entry: nat, modules: Loaded)
    requires Consistent(project, disk, entry, modules) && !Stale(project, disk, modules)
    ensures modules == FreshLoad(project, disk, entry)
  {
    var g := RequestEdges(project, disk);
    HeldIsReachable(project, disk, entry, modules);
    forall x, y | (x, y) in g && x in modules ensures y in modules {
      assert ParseAt(project, disk, x).Some? && IsLoaded(modules, x) && UpToDate(project, disk, modules, x);
    }
    forall p | p in Reachable(project, disk, entry) ensures p in modules {
      if p != entry {
        InBelow(g, entry, p);
        var mid :| Walk(g, entry, mid, p);
        ClosedCapturesWalk(g, modules.Keys, entry, mid, p);
      }
    }
    forall p | p in modules ensures modules[p] == FreshModule(project, disk, p) {
      if IsLoaded(modules, p) {
        assert UpToDate(project, disk, modules, p);
        forall i | 0 <= i < |TargetsAt(project, disk, p)|
          ensures IsLoaded(modules, TargetsAt(project, disk, p)[i])
                  <==> ParseAt(project, disk, TargetsAt(project, disk, p)[i]).Some?
        {
          var t := TargetsAt(project, disk, p)[i];
          assert t in modules;
          if IsLoaded(modules, t) { assert UpToDate(project, disk, modules, t); }
        }
        SelectionsAgree(project, disk, modules, TargetsAt(project, disk, p));
      }
    }
  }

  lemma FreshEdge(project: Project, disk: Disk, entry: nat, modules: Loaded, x: nat, y: nat)
    requires Consistent(project, disk, entry, modules) && (x, y) in LiveEdges(project, disk, modules)
    requires ParseAt(project, disk, y).Some?
    ensures IsLoaded(FreshLoad(project, disk, entry), x) && IsLoaded(FreshLoad(project, disk, entry), y)
    ensures (x, y) in EdgesOf(DependenciesOf(LoadedOnly(FreshLoad(project, disk, entry))))
  {
    var fresh' := FreshLoad(project, disk, entry);
    HeldIsReachable(project, disk, entry, modules);
    assert UpToDate(project, disk, modules, x);
    SelectParsingExact(project, disk, TargetsAt(project, disk, x));
    FreshDependency(project, disk, entry, x, y);
    var deps := SelectParsing(project, disk, TargetsAt(project, disk, x));
    var i :| 0 <= i < |deps| && deps[i] == y;
    assert DependenciesOf(LoadedOnly(fresh'))[x] == deps;
    assert (x, DependenciesOf(LoadedOnly(fresh'))[x][i]) in EdgesOf(DependenciesOf(LoadedOnly(fresh')));
  }

  /** Whatever the loader reached through modules that parsed is in the fresh bundle, too. */
  lemma {:induction false} FreshWalk(project: Project, disk: Disk, entry: nat, modules: Loaded, x: nat,
                                     mid: seq<nat>, y: nat)
    requires Consistent(project, disk, entry, modules) && Walk(LiveEdges(project, disk, modules), x, mid, y)
    requires ParseAt(project, disk, y).Some?
    ensures IsLoaded(FreshLoad(project, disk, entry), x)
    ensures Reach(EdgesOf(DependenciesOf(LoadedOnly(FreshLoad(project, disk, entry)))), x, y)
    decreases |mid|
  {
    var g := EdgesOf(DependenciesOf(LoadedOnly(FreshLoad(project, disk, entry))));
    if mid == [] {
      FreshEdge(project, disk, entry, modules, x, y);
      ReachEdge(g, x, y);
    } else {
      FreshWalk(project, disk, entry, modules, mid[0], mid[1..], y);
      FreshLoadParses(project, disk, entry, mid[0]);
      FreshEdge(project, disk, entry, modules, x, mid[0]);
      ReachEdge(g, x, mid[0]);
      ReachTrans(g, x, mid[0], y);
    }
  }

  lemma FreshLoadParses(project: Project, disk: Disk, entry: nat, p: nat)
    requires IsLoaded(FreshLoad(project, disk, entry), p)
    ensures ParseAt(project, disk, p).Some?
  {}

  /** p is missing from the modules the loader bundles, if it bundles any, and among those a
      fresh load bundles. */
  ghost predicate MissingFrom(project: Project, disk: Disk, entry: nat, modules: Loaded, p: nat)
    requires LoadedClosed(modules) && LoadedClosed(FreshLoad(project, disk, entry))
  {
    var held, fresh' := BundledOrder(modules, entry), BundledOrder(FreshLoad(project, disk, entry), entry);
    fresh'.Some? && p in fresh'.value && (held.Some? ==> p !in held.value)
  }

  /** A stale file is missing from the bundle the loader gives and present in a fresh one. */
  lemma StaleDiffers(project: Project, disk: Disk, entry: nat, modules: Loaded) returns (p: nat)
    requires Consistent(project, disk, entry, modules) && Stale(project, disk, modules)
    requires LoadedClosed(modules) && LoadedClosed(FreshLoad(project, disk, entry))
    ensures MissingFrom(project, disk, entry, modules, p)
  {
    p :| p in modules && modules[p].None? && ParseAt(project, disk, p).Some?;
    var fresh' := FreshLoad(project, disk, entry);
    HeldIsReachable(project, disk, entry, modules);
    if p != entry {
      var mid :| Walk(LiveEdges(project, disk, modules), entry, mid, p);
      FreshWalk(project, disk, entry, modules, entry, mid, p);
    }
    ClosedGraph(fresh');
    BundleOrderIsRight(DependenciesOf(LoadedOnly(fresh')), entry);
    if IsLoaded(modules, entry) {
      ClosedGraph(modules);
      var held := Visit(DependenciesOf(LoadedOnly(modules)), {}, entry);
      assert p in held ==> p in Elements(held);
    }
  }

  /** The patched loader bundles the modules a fresh one would exactly when no file that was
      unparsable when loaded has become parsable since. */
  lemma IncrementalIsFreshIff(project: Project, disk: Disk, entry: nat, modules: Loaded)
    requires Consistent(project, disk, entry, modules)
    ensures LoadedClosed(modules) && LoadedClosed(FreshLoad(project, disk, entry))
    ensures BundledOrder(modules, entry) == BundledOrder(FreshLoad(project, disk, entry), entry)
       <==> !Stale(project, disk, modules)
    ensures !Stale(project, disk, modules) ==> modules == FreshLoad(project, disk, entry)
  {
    ConsistentIsClosed(project, disk, entry, modules);
    FreshLoadIsClosed(project, disk, entry);
    if Stale(project, disk, modules) {
      var p := StaleDiffers(project, disk, entry, modules);
    } else {
      NotStaleIsFresh(project, disk, entry, modules);
    }
  }

  // ---- ModuleLoader ----

  /** Everything held was loaded from the disk as it is, with all its targets. */
  ghost predicate Filled(project: Project, disk: Disk, modules: Loaded) {
    forall p :: p in modules ==>
      && p in disk && modules[p] == FreshModule(project, disk, p)
      && forall i :: 0 <= i < |TargetsAt(project, disk, p)| ==> TargetsAt(project, disk, p)[i] in modules
  }

  lemma {:induction false} FilledWalk(project: Project, disk: Disk, modules: Loaded, x: nat, mid: seq<nat>, y: nat)
    requires Filled(project, disk, modules) && x in modules && Walk(RequestEdges(project, disk), x, mid, y)
    ensures Walk(LiveEdges(project, disk, modules), x, mid, y)
    decreases |mid|
  {
    var next := if mid == [] then y else mid[0];
    var i :| 0 <= i < |TargetsAt(project, disk, x)| && TargetsAt(project, disk, x)[i] == next;
    assert (x, TargetsAt(project, disk, x)[i]) in LiveEdges(project, disk, modules);
    if mid != [] { FilledWalk(project, disk, modules, mid[0], mid[1..], y); }
  }

  lemma FilledIsConsistent(project: Project, disk: Disk, entry: nat, modules: Loaded)
    requires Filled(project, disk, modules) && entry in modules
    requires forall p :: p in modules ==> p == entry || Reach(RequestEdges(project, disk), entry, p)
    ensures Consistent(project, disk, entry, modules) && !Stale(project, disk, modules)
  {
    forall p | IsLoaded(modules, p) ensures UpToDate(project, disk, modules, p) {
      SelectionsAgree(project, disk, modules, TargetsAt(project, disk, p));
    }
    forall p | p in modules ensures p == entry || Reach(LiveEdges(project, disk, modules), entry, p) {
      if p != entry {
        var mid :| Walk(RequestEdges(project, disk), entry, mid, p);
        FilledWalk(project, disk, modules, entry, mid, p);
      }
    }
  }

  /** What loading adds: only what path's requests lead to, and nothing held is lost. */
  ghost predicate Grew(project: Project, disk: Disk, path: nat, before: Loaded, after: Loaded) {
    && Filled(project, disk, after)
    && (forall p :: p in before ==> p in after && after[p] == before[p])
    && (forall p :: p in after && p !in before ==> Reach(RequestEdges(project, disk), path, p))
  }

  lemma GrewByTarget(project: Project, disk: Disk, path: nat, target: nat, before: Loaded, middle: Loaded,
                     after: Loaded)
    requires (path, target) in RequestEdges(project, disk)
    requires Grew(project, disk, path, before, middle) && Filled(project, disk, after)
    requires forall p :: p in middle ==> p in after && after[p] == middle[p]
    requires forall p :: p in after && p !in middle ==> p == target || Reach(RequestEdges(project, disk), target, p)
    ensures Grew(project, disk, path, before, after)
  {
    var g := RequestEdges(project, disk);
    ReachEdge(g, path, target);
    forall p | p in after && p !in before ensures Reach(g, path, p) {
      if p !in middle && p != target { ReachTrans(g, path, target, p); }
    }
  }

  /** The first n of a module's targets are held, and those that parse have been collected. */
  ghost predicate Collected(project: Project, disk: Disk, targets: seq<nat>, n: nat, dependencies: seq<nat>,
                            modules: Loaded) {
    && n <= |targets| && (forall k :: 0 <= k < n ==> targets[k] in modules)
    && SelectParsing(project, disk, targets) == dependencies + SelectParsing(project, disk, targets[n..])
  }

  lemma CollectOneMore(project: Project, disk: Disk, targets: seq<nat>, n: nat, dependencies: seq<nat>,
                       before: Loaded, after: Loaded)
    requires n < |targets| && Collected(project, disk, targets, n, dependencies, before)
    requires before.Keys <= after.Keys && targets[n] in after
    ensures Collected(project, disk, targets, n + 1,
              if ParseAt(project, disk, targets[n]).Some? then dependencies + [targets[n]] else dependencies, after)
  {
    assert targets[n..][1..] == targets[n + 1..];
    forall k | 0 <= k < n + 1 ensures targets[k] in after {
      assert k < n ==> targets[k] in before;
    }
  }

  lemma TargetsStep(project: Project, requests: seq<string>, i: nat, path: nat, targets: seq<nat>, n: nat)
    requires i < |requests| && n <= |targets| && targets[n..] == Targets(project, requests[i..], path)
    ensures TargetOf(project, requests[i], path).None? ==> targets[n..] == Targets(project, requests[i + 1..], path)
    ensures TargetOf(project, requests[i], path).Some? ==>
              && n < |targets| && targets[n] == TargetOf(project, requests[i], path).value
              && targets[n + 1..] == Targets(project, requests[i + 1..], path)
  {
    assert requests[i..][1..] == requests[i + 1..];
    if TargetOf(project, requests[i], path).Some? {
      assert targets[n] == targets[n..][0] && targets[n..][1..] == targets[n + 1..];
    }
  }

  /** The new content of a held module still parses and asks for the same things. */
  predicate SameRequests(project: Project, modules: Loaded, path: nat, newContent: string)
    requires IsLoaded(modules, path)
  {
    var parsed := project.parse(newContent, path);
    parsed.Some? && parsed.value.dependencyRequests == modules[path].value.dependencyRequests
  }

  function Patched(project: Project, modules: Loaded, path: nat, newContent: string): Loaded
    requires IsLoaded(modules, path) && SameRequests(project, modules, path, newContent)
  {
    modules[path := Some(modules[path].value.(source := project.parse(newContent, path).value.source))]
  }

  class ModuleLoader {
    var modules: Loaded

    constructor ()
      ensures modules == map[]
    {
      modules := map[];
    }

    /** addModuleAndDependencies, one promise after the other. */
    method AddModuleAndDependencies(project: Project, disk: Disk, path: nat) returns (m: Option<LoadedModule>)
      requires SafeFrom(project, disk, path) && Filled(project, disk, modules)
      modifies this
      ensures Filled(project, disk, modules) && path in modules && m == modules[path]
      ensures forall p :: p in old(modules) ==> p in modules && modules[p] == old(modules)[p]
      ensures forall p :: p in modules && p !in old(modules) ==>
              p == path || Reach(RequestEdges(project, disk), path, p)
      decreases Below(RequestEdges(project, disk), path), 1
    {
      if path in modules { return modules[path]; }
      var parsed := project.parse(disk[path], path);
      if parsed.None? {
        modules := modules[path := None];
        return None;
      }
      var dependencies := AddRequests(project, disk, path, parsed.value.dependencyRequests);
      m := Some(LoadedModule(parsed.value.dependencyRequests, dependencies, parsed.value.source));
      modules := modules[path := m];
    }

    /** Loads what a module asks for and keeps what could be loaded. */
    method AddRequests(project: Project, disk: Disk, path: nat, requests: seq<string>) returns (dependencies: seq<nat>)
      requires SafeFrom(project, disk, path) && Filled(project, disk, modules)
      requires Targets(project, requests, path) == TargetsAt(project, disk, path)
      modifies this
      ensures Grew(project, disk, path, old(modules), modules)
      ensures dependencies == SelectParsing(project, disk, TargetsAt(project, disk, path))
      ensures forall i :: 0 <= i < |TargetsAt(project, disk, path)| ==> TargetsAt(project, disk, path)[i] in modules
      decreases Below(RequestEdges(project, disk), path), 0
    {
      ghost var targets, n := TargetsAt(project, disk, path), 0;
      dependencies := [];
      for i := 0 to |requests|
        invariant Grew(project, disk, path, old(modules), modules)
        invariant n <= |targets| && targets[n..] == Targets(project, requests[i..], path)
        invariant Collected(project, disk, targets, n, dependencies, modules)
      {
        TargetsStep(project, requests, i, path, targets, n);
        var target := TargetOf(project, requests[i], path);
        if target.Some? {
          SafeTarget(project, disk, path, n);
          ghost var before := modules;
          var m := AddModuleAndDependencies(project, disk, target.value);
          GrewByTarget(project, disk, path, target.value, old(modules), before, modules);
          CollectOneMore(project, disk, targets, n, dependencies, before, modules);
          if m.Some? { dependencies := dependencies + [target.value]; }
          n := n + 1;
        }
      }
    }

    /** updateContent: patch a module in place, provided it still asks for the same things. */
    method UpdateContent(project: Project, path: nat, newContent: string) returns (updated: bool)
      requires IsLoaded(modules, path)
      modifies this
      ensures updated <==> SameRequests(project, old(modules), path, newContent)
      ensures modules == if updated then Patched(project, old(modules), path, newContent) else old(modules)
    {
      var parsed := project.parse(newContent, path);
      if parsed.None? { return false; }
      var m := modules[path].value;
      if parsed.value.dependencyRequests != m.dependencyRequests { return false; }
      modules := modules[path := Some(m.(dependencyRequests := parsed.value.dependencyRequests,
                                         source := parsed.value.source))];
      updated := true;
    }
  }

  // ---- Changes on disk ----

  lemma SameLiveEdges(project: Project, disk: Disk, disk': Disk, modules: Loaded, modules': Loaded)
    requires modules'.Keys == modules.Keys && forall p :: p in modules ==> (modules'[p].Some? <==> modules[p].Some?)
    requires forall p :: IsLoaded(modules, p) ==> TargetsAt(project, disk', p) == TargetsAt(project, disk, p)
    ensures LiveEdges(project, disk', modules') == LiveEdges(project, disk, modules)
  {}

  /** A file the loader holds no module for may change freely. */
  lemma OtherChangeKeeps(project: Project, disk: Disk, entry: nat, modules: Loaded, path: nat, content: string)
    requires Consistent(project, disk, entry, modules) && !IsLoaded(modules, path)
    ensures Consistent(project, disk[path := content], entry, modules)
  {
    var disk' := disk[path := content];
    assert forall p :: IsLoaded(modules, p) ==> ParseAt(project, disk', p) == ParseAt(project, disk, p);
    SameLiveEdges(project, disk, disk', modules, modules);
    forall p | IsLoaded(modules, p) ensures UpToDate(project, disk', modules, p) {
      assert UpToDate(project, disk, modules, p);
    }
  }

  /** Patching a module that asks for the same things keeps the loader consistent. */
  lemma PatchKeeps(project: Project, disk: Disk, entry: nat, modules: Loaded, path: nat, content: string,
                   modules': Loaded)
    requires Consistent(project, disk, entry, modules) && IsLoaded(modules, path)
    requires SameRequests(project, modules, path, content)
    requires modules' == Patched(project, modules, path, content)
    ensures Consistent(project, disk[path := content], entry, modules')
  {
    var disk' := disk[path := content];
    assert UpToDate(project, disk, modules, path);
    assert forall p :: IsLoaded(modules, p) ==> TargetsAt(project, disk', p) == TargetsAt(project, disk, p);
    SameLiveEdges(project, disk, disk', modules, modules');
    forall p | IsLoaded(modules', p) ensures UpToDate(project, disk', modules', p) {
      assert UpToDate(project, disk, modules, p);
      SelectionAgrees(modules, modules', TargetsAt(project, disk, p));
    }
  }

  /** What a change must be like to make the loader stale: a file in the graph that did not
      parse when it was loaded parses now. */
  predicate Revives(project: Project, modules: Loaded, path: nat, content: string) {
    path in modules && modules[path].None? && project.parse(content, path).Some?
  }

  lemma StaleByReviving(project: Project, disk: Disk, modules: Loaded, modules': Loaded, path: nat, content: string)
    requires !Stale(project, disk, modules) && modules'.Keys == modules.Keys
    requires forall p :: p in modules ==> (modules'[p].Some? <==> modules[p].Some?)
    ensures Stale(project, disk[path := content], modules') <==> Revives(project, modules, path, content)
  {
    var disk' := disk[path := content];
    if Revives(project, modules, path, content) {
      assert path in modules' && modules'[path].None? && ParseAt(project, disk', path).Some?;
    }
    forall p | p in modules' && modules'[p].None? && p != path ensures ParseAt(project, disk', p).None? {
      assert p in modules && modules[p].None?;
    }
  }

  // ---- CachedBundle ----

  /** The root of the source map of the entry. */
  function RootAt(modules: Loaded, entry: nat): Option<string> {
    if IsLoaded(modules, entry) then modules[entry].value.source.sourceMap.sourceRoot else None
  }

  /** A bundle is what the held modules give: none if the entry does not parse or the map of one
      of them cannot be read. */
  ghost predicate BundleOf(bundle: Option<Bundle>, modules: Loaded, entry: nat, annotate: SourceMap -> seq<Byte>)
    requires LoadedClosed(modules)
  {
    match BundledOrder(modules, entry)
    case None => bundle == None
    case Some(order) =>
      && Elements(order) <= LoadedOnly(modules).Keys
      && (bundle.Some? <==> AllReadable(Picked(LoadedOnly(modules), order)))
      && (bundle.Some? ==> Bundles(bundle.value, Picked(LoadedOnly(modules), order), RootAt(modules, entry), annotate))
  }

  /** parseModule builds its sources with the constructor of Source. */
  ghost predicate ParsesToSources(project: Project) {
    forall content, path :: project.parse(content, path).Some? ==> project.parse(content, path).value.source.Valid()
  }

  lemma HeldGraphIsValid(project: Project, disk: Disk, entry: nat, modules: Loaded)
    requires ParsesToSources(project) && Consistent(project, disk, entry, modules)
    ensures LoadedClosed(modules) && ValidGraph(LoadedOnly(modules))
  {
    ConsistentIsClosed(project, disk, entry, modules);
    ClosedGraph(modules);
    forall p | p in LoadedOnly(modules) ensures LoadedOnly(modules)[p].source.Valid() {
      assert UpToDate(project, disk, modules, p);
    }
  }

  class CachedBundle {
    const project: Project
    const annotate: SourceMap -> seq<Byte>
    const entryModulePath: nat
    var loader: ModuleLoader?
    var bundlePromise: Option<Option<Bundle>>
    /** The files as they are. */
    ghost var disk: Disk

    ghost predicate Valid()
      reads this, loader
    {
      && ParsesToSources(project)
      && (loader != null ==> Consistent(project, disk, entryModulePath, loader.modules))
      && (bundlePromise.Some? ==>
            loader != null && LoadedClosed(loader.modules)
            && BundleOf(bundlePromise.value, loader.modules, entryModulePath, annotate))
    }

    /** The loader missed that a file in the graph has become parseable. */
    ghost predicate IsStale()
      reads this, loader
    {
      loader != null && Stale(project, disk, loader.modules)
    }

    constructor (project: Project, annotate: SourceMap -> seq<Byte>, entry: nat, ghost disk: Disk)
      requires ParsesToSources(project)
      ensures Valid() && !IsStale() && loader == null
      ensures this.project == project && this.annotate == annotate && entryModulePath == entry && this.disk == disk
    {
      this.project, this.annotate, this.entryModulePath, this.disk := project, annotate, entry, disk;
      loader, bundlePromise := null, None;
    }

    /** Reads the entry and everything it needs, if that has not been done. */
    method EnsureLoaded(files: Disk)
      requires Valid() && files == disk && bundlePromise.None?
      requires loader == null ==> SafeFrom(project, disk, entryModulePath)
      modifies this
      ensures Valid() && loader != null && disk == old(disk) && bundlePromise.None?
      ensures if old(loader) == null then fresh(loader) && !IsStale() else loader == old(loader)
    {
      if loader == null {
        var created := new ModuleLoader();
        var _ := created.AddModuleAndDependencies(project, files, entryModulePath);
        FilledIsConsistent(project, disk, entryModulePath, created.modules);
        loader := created;
      }
    }

    /** bundle: whatever happened before, the result is the bundle of the files as they are,
        unless the loader is stale. */
    method GetBundle(files: Disk) returns (bundle: Option<Bundle>)
      requires Valid() && files == disk
      requires loader == null ==> SafeFrom(project, disk, entryModulePath)
      modifies this
      ensures Valid() && disk == old(disk) && loader != null
      ensures old(loader) == null ==> !IsStale() && fresh(loader)
      ensures old(loader) != null ==> loader == old(loader)
      ensures LoadedClosed(loader.modules) && BundleOf(bundle, loader.modules, entryModulePath, annotate)
      ensures !IsStale() ==> loader.modules == FreshLoad(project, disk, entryModulePath)
    {
      if bundlePromise.None? {
        EnsureLoaded(files);
        HeldGraphIsValid(project, disk, entryModulePath, loader.modules);
        var modules := loader.modules;
        if IsLoaded(modules, entryModulePath) {
          var b := BundleWithDependencies(LoadedOnly(modules), entryModulePath, annotate);
          bundlePromise := Some(b);
        } else {
          bundlePromise := Some(None);
        }
      }
      bundle := bundlePromise.value;
      IncrementalIsFreshIff(project, disk, entryModulePath, loader.modules);
    }

    /** setModuleContent: a file has changed on disk. */
    method SetModuleContent(path: nat, newContent: string)
      requires Valid()
      modifies this, loader
      ensures Valid() && disk == old(disk)[path := newContent] && bundlePromise.None?
      ensures if old(loader) == null then loader == null
              else if !IsLoaded(old(loader.modules), path)
              then loader == old(loader) && loader.modules == old(loader.modules)
              else if SameRequests(project, old(loader.modules), path, newContent)
              then loader == old(loader) && loader.modules == Patched(project, old(loader.modules), path, newContent)
              else loader == null
      ensures !old(IsStale()) ==>
                (IsStale() <==> old(loader) != null && Revives(project, old(loader.modules), path, newContent))
    {
      ghost var before := disk;
      disk := disk[path := newContent];
      if loader == null { return; }
      ghost var held := loader.modules;
      if IsLoaded(loader.modules, path) {
        var updated := loader.UpdateContent(project, path, newContent);
        if updated {
          PatchKeeps(project, before, entryModulePath, held, path, newContent, loader.modules);
        } else {
          loader := null;
        }
      } else {
        OtherChangeKeeps(project, before, entryModulePath, held, path, newContent);
      }
      if loader != null && !Stale(project, before, held) {
        StaleByReviving(project, before, held, loader.modules, path, newContent);
      }
      bundlePromise := None;
    }
  }
}
