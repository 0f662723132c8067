/** The mutable module manager of src/vs/loader.js. Its tables are objects and maps updated in
    place; `View` reads them off as a LoaderSpec.Tables value, and every method is proved to
    take the view exactly where the specification says. */
module ModuleManagers {
  import opened Collections
  import opened Options
  import opened Graphs
  import opened LoaderSpec
  import opened LoaderFlood
  import opened LoaderErrors
  import opened ModuleIds

  /** Hands out consecutive ids for module names. */
  class ModuleIdProvider {
    var nextId: nat
    var ids: map<string, nat>
    var names: seq<string>

    ghost predicate Valid()
      reads this
    {
      && |names| == nextId
      && (forall s :: s in ids ==> ids[s] < nextId && names[ids[s]] == s)
      && (forall i :: 0 <= i < nextId ==> names[i] in ids && ids[names[i]] == i)
    }

    constructor ()
      ensures Valid() && names == ["exports", "module", "require"]
    {
      nextId, ids, names := 0, map[], [];
      new;
      assert "exports"[0] == 'e' && "module"[0] == 'm' && "require"[0] == 'r';
      var e := GetModuleId("exports");
      assert names == ["exports"];
      var m := GetModuleId("module");
      assert names == ["exports", "module"];
      var r := GetModuleId("require");
    }

    method GetModuleId(strModuleId: string) returns (id: nat)
      requires Valid()
      modifies this
      ensures Valid() && id < nextId && names[id] == strModuleId
      ensures names == if strModuleId in old(names) then old(names) else old(names) + [strModuleId]
    {
      if strModuleId in ids { return ids[strModuleId]; }
      id := nextId;
      nextId := nextId + 1;
      ids := ids[strModuleId := id];
      names := names + [strModuleId];
    }
  }

  class Module {
    const id: nat
    var dependencies: Option<seq<Dependency>>
    var callback: Callback
    var errorback: bool
    var error: Option<LoadError>
    var exportsPassedIn: bool
    var unresolvedDependenciesCount: int
    var isComplete: bool

    ghost function Rec(): Record
      reads this
    {
      Record(dependencies, callback, errorback, exportsPassedIn, unresolvedDependenciesCount, isComplete, error)
    }

    constructor (id: nat, dependencies: seq<Dependency>, callback: Callback, errorback: bool)
      ensures this.id == id
      ensures Rec() == Record(Some(dependencies), callback, errorback, false, |dependencies|, false, None)
    {
      this.id := id;
      this.dependencies, this.callback, this.errorback := Some(dependencies), callback, errorback;
      error, exportsPassedIn := None, false;
      unresolvedDependenciesCount := |dependencies|;
      isComplete := false;
    }

    /** Runs the factory, if there is one. What it throws leaves this method, or is caught; then,
        if it is truthy, it is reported, and what the handler throws leaves this method. */
    method Complete(neededBy: seq<nat>) returns (threw: bool, report: Option<LoadError>)
      modifies this
      ensures threw <==> old(callback).Escapes()
      ensures report == if old(callback).Reported() then Some(LoadError(InFactory, id, neededBy)) else None
      ensures Rec() == old(Rec()).(complete := true, error := if report.Some? then report else old(error),
                                   dependencies := if threw then old(dependencies) else None,
                                   callback := if threw then old(callback) else Absent,
                                   errorback := threw && old(errorback))
    {
      isComplete := true;
      threw, report := false, None;
      if callback.Factory? {
        match callback.outcome {
          case Returns =>
          case ThrowsFalsy =>
          case ThrowsOut => return true, None;
          case ThrowsCaught => report := Some(LoadError(InFactory, id, neededBy));
          case HandlerThrows => report := Some(LoadError(InFactory, id, neededBy));
        }
      }
      if report.Some? {
        error := report;
        if callback.outcome.HandlerThrows? { return true, report; }
      }
      dependencies, callback, errorback := None, Absent, false;
    }

    /** Returns whether the module had an errorback to notify, and whether that threw. */
    method OnDependencyError(err: LoadError, throws: bool) returns (notified: bool, threw: bool)
      modifies this
      ensures Rec() == old(Rec()).(complete := true, error := Some(err))
      ensures notified == errorback && threw == (errorback && throws)
    {
      isComplete, error := true, Some(err);
      notified, threw := errorback, errorback && throws;
    }
  }

  class ModuleManager {
    const provider: ModuleIdProvider
    var modules: map<nat, Module>
    var known: set<nat>
    var inverseDependencies: map<nat, seq<nat>>
    var currentAnonymousDefineCall: Option<(seq<string>, Callback)>
    var hasDependencyCycle: bool
    // What the manager has told the outside: scripts requested, errors reported, cycles warned
    // about; and a record of what was declared, of the order in which modules ran, and of what
    // exceptions did to them and their waiters.
    ghost var requests: seq<nat>
    ghost var reports: seq<LoadError>
    ghost var cuts: seq<(nat, nat)>
    ghost var declared: map<nat, seq<Dependency>>
    ghost var invoked: seq<nat>
    ghost var escaped: seq<nat>
    ghost var lost: multiset<nat>
    /** The events the manager has gone through since it was created. */
    ghost var history: seq<Event>

    ghost predicate Valid()
      reads this, provider, modules.Values
    {
      && provider.Valid() && |provider.names| >= 3
      && provider.names[0] == "exports" && provider.names[1] == "module" && provider.names[2] == "require"
      && (forall m :: m in modules ==> modules[m].id == m)
      && (hasDependencyCycle <==> cuts != [])
    }

    /** The tables are what the run of all events so far leaves. */
    ghost predicate Consistent()
      reads this, provider, modules.Values
    {
      Valid() && View() == Run(history)
    }

    twostate predicate Untouched()
      reads this
    {
      currentAnonymousDefineCall == old(currentAnonymousDefineCall) && history == old(history)
    }

    ghost function Records(): map<nat, Record>
      reads this, modules.Values
    {
      map m | m in modules :: modules[m].Rec()
    }

    ghost function View(): Tables
      reads this, provider, modules.Values
    {
      Tables(provider.nextId, Records(), known, inverseDependencies, requests, reports, cuts, declared, invoked,
             escaped, lost)
    }

    constructor ()
      ensures Consistent() && View() == EMPTY && history == [] && currentAnonymousDefineCall.None?
      ensures fresh(provider)
    {
      provider := new ModuleIdProvider();
      modules, known, inverseDependencies := map[], {}, map[];
      currentAnonymousDefineCall, hasDependencyCycle := None, false;
      requests, reports, cuts, declared, invoked := [], [], [], map[], [];
      escaped, lost := [], multiset{};
      history := [];
    }

    // ---- Cycle search ----

    /** x was taken off the queue: it does not depend on toId, and its dependencies were queued. */
    ghost predicate Searched(x: nat, toId: nat, inQueue: set<nat>)
      reads this, modules.Values
    {
      x in modules && (modules[x].dependencies.Some? ==>
        SeenUpto(modules[x].dependencies.value, |modules[x].dependencies.value|, toId, inQueue))
    }

    ghost predicate SeenUpto(dependencies: seq<Dependency>, n: nat, toId: nat, inQueue: set<nat>)
      reads this
    {
      n <= |dependencies| && forall k :: 0 <= k < n ==> Seen(dependencies[k].Id(), toId, inQueue)
    }

    ghost predicate Seen(d: nat, toId: nat, inQueue: set<nat>)
      reads this
    {
      d != toId && (d in modules ==> d in inQueue)
    }

    ghost predicate Queued(queue: seq<Module>, inQueue: set<nat>)
      reads this, modules.Values
    {
      forall i :: 0 <= i < |queue| ==>
        queue[i].id in inQueue && queue[i].id in modules && queue[i] == modules[queue[i].id]
    }

    /** Every module queued so far, but one, waits in the queue or has been searched. */
    ghost predicate AllSearched(queue: seq<Module>, inQueue: set<nat>, toId: nat, but: int)
      reads this, modules.Values
    {
      forall x :: x in inQueue && x != but ==> x in modules && (modules[x] in queue || Searched(x, toId, inQueue))
    }

    lemma EnqueueKeepsSearched(queue: seq<Module>, inQueue: set<nat>, toId: nat, but: int, d: nat)
      requires Valid() && AllSearched(queue, inQueue, toId, but) && Queued(queue, inQueue) && d in modules
      ensures AllSearched(queue + [modules[d]], inQueue + {d}, toId, but)
      ensures Queued(queue + [modules[d]], inQueue + {d})
    {
      forall x | x in inQueue + {d} && x != but
        ensures x in modules && (modules[x] in queue + [modules[d]] || Searched(x, toId, inQueue + {d}))
      {
        if x in inQueue && modules[x] !in queue {
          assert Searched(x, toId, inQueue);
        }
      }
    }

    lemma SeenGrows(dependencies: seq<Dependency>, n: nat, toId: nat, inQueue: set<nat>, d: nat)
      requires SeenUpto(dependencies, n, toId, inQueue)
      ensures SeenUpto(dependencies, n, toId, inQueue + {d})
    {}

    lemma SeenOneMore(dependencies: seq<Dependency>, n: nat, toId: nat, inQueue: set<nat>)
      requires n < |dependencies| && SeenUpto(dependencies, n, toId, inQueue)
      requires Seen(dependencies[n].Id(), toId, inQueue)
      ensures SeenUpto(dependencies, n + 1, toId, inQueue)
    {}

    lemma DequeueKeepsSearched(queue: seq<Module>, inQueue: set<nat>, toId: nat)
      requires Valid() && queue != [] && AllSearched(queue, inQueue, toId, -1) && Queued(queue, inQueue)
      ensures AllSearched(queue[1..], inQueue, toId, queue[0].id)
    {
      forall x | x in inQueue && x != queue[0].id
        ensures x in modules && (modules[x] in queue[1..] || Searched(x, toId, inQueue))
      {
        assert modules[x] in queue ==> modules[x] in queue[1..];
      }
    }

    /** Everything queued is reachable. */
    ghost predicate Found(g: Graph, fromId: nat, inQueue: set<nat>)
      reads this
    {
      forall x :: x in inQueue ==> x in modules && (x == fromId || Reach(g, fromId, x))
    }

    lemma EdgeFromDependency(m: nat, k: nat)
      requires m in modules && modules[m].dependencies.Some? && k < |modules[m].dependencies.value|
      ensures (m, modules[m].dependencies.value[k].Id()) in DependencyEdges(View())
    {
      assert View().modules[m].dependencies.value[k] == modules[m].dependencies.value[k];
    }

    lemma DependencyIsReached(g: Graph, fromId: nat, m: nat, k: nat, inQueue: set<nat>)
      requires g == DependencyEdges(View())
      requires Found(g, fromId, inQueue) && m in inQueue
      requires modules[m].dependencies.Some? && k < |modules[m].dependencies.value|
      ensures Reach(g, fromId, modules[m].dependencies.value[k].Id())
      ensures modules[m].dependencies.value[k].Id() in modules ==>
                Found(g, fromId, inQueue + {modules[m].dependencies.value[k].Id()})
    {
      EdgeFromDependency(m, k);
      ReachEdge(g, m, modules[m].dependencies.value[k].Id());
      if m != fromId {
        ReachTrans(g, fromId, m, modules[m].dependencies.value[k].Id());
      }
    }

    /** Once everything queued has been searched, no walk leads to the target. */
    lemma {:induction false} NothingLeads(toId: nat, inQueue: set<nat>, a: nat, mid: seq<nat>)
      requires forall x :: x in inQueue ==> Searched(x, toId, inQueue)
      requires a in inQueue || a !in modules
      ensures !Walk(DependencyEdges(View()), a, mid, toId)
      decreases |mid|
    {
      if Walk(DependencyEdges(View()), a, mid, toId) {
        var b := if mid == [] then toId else mid[0];
        var k :| a in modules && modules[a].dependencies.Some? && 0 <= k < |modules[a].dependencies.value| &&
                 modules[a].dependencies.value[k].Id() == b;
        assert Seen(b, toId, inQueue);
        NothingLeads(toId, inQueue, b, mid[1..]);
      }
    }

    /** The inner loop of the search: look at the dependencies of one module. */
    method SearchDependencies(ghost g: Graph, ghost fromId: nat, toId: nat, element: Module,
                              queue: seq<Module>, inQueue: set<nat>)
      returns (found: bool, queue': seq<Module>, inQueue': set<nat>)
      requires Valid() && g == DependencyEdges(View())
      requires Queued(queue, inQueue) && Found(g, fromId, inQueue) && AllSearched(queue, inQueue, toId, element.id)
      requires element.id in inQueue && element == modules[element.id]
      ensures found ==> Reach(g, fromId, toId)
      ensures !found ==> inQueue <= inQueue'
      ensures !found ==>
                Queued(queue', inQueue') && Found(g, fromId, inQueue') && AllSearched(queue', inQueue', toId, -1)
      ensures |modules.Keys - inQueue'| + |queue'| == |modules.Keys - inQueue| + |queue|
    {
      found, queue', inQueue' := false, queue, inQueue;
      if element.dependencies.Some? {
        var dependencies := element.dependencies.value;
        for i := 0 to |dependencies|
          invariant inQueue <= inQueue'
          invariant Queued(queue', inQueue') && Found(g, fromId, inQueue')
          invariant AllSearched(queue', inQueue', toId, element.id)
          invariant SeenUpto(dependencies, i, toId, inQueue')
          invariant |modules.Keys - inQueue'| + |queue'| == |modules.Keys - inQueue| + |queue|
        {
          var d := dependencies[i].Id();
          DependencyIsReached(g, fromId, element.id, i, inQueue');
          if d == toId {
            found := true;
            return;
          }
          if d in modules && d !in inQueue' {
            assert modules.Keys - (inQueue' + {d}) == modules.Keys - inQueue' - {d};
            EnqueueKeepsSearched(queue', inQueue', toId, element.id, d);
            SeenGrows(dependencies, i, toId, inQueue', d);
            inQueue' := inQueue' + {d};
            queue' := queue' + [modules[d]];
          }
          SeenOneMore(dependencies, i, toId, inQueue');
        }
      }
      assert Searched(element.id, toId, inQueue');
    }

    ghost predicate Searching(g: Graph, fromId: nat, toId: nat, queue: seq<Module>, inQueue: set<nat>)
      reads this, modules.Values
    {
      && Queued(queue, inQueue) && Found(g, fromId, inQueue) && AllSearched(queue, inQueue, toId, -1)
      && (fromId in inQueue || fromId !in modules)
    }

    method SearchOne(ghost g: Graph, ghost fromId: nat, toId: nat, queue: seq<Module>, inQueue: set<nat>)
      returns (found: bool, queue': seq<Module>, inQueue': set<nat>)
      requires Valid() && g == DependencyEdges(View()) && Searching(g, fromId, toId, queue, inQueue) && queue != []
      ensures found ==> Reach(g, fromId, toId)
      ensures !found ==> Searching(g, fromId, toId, queue', inQueue')
      ensures |modules.Keys - inQueue'| + |queue'| < |modules.Keys - inQueue| + |queue|
    {
      DequeueKeepsSearched(queue, inQueue, toId);
      found, queue', inQueue' := SearchDependencies(g, fromId, toId, queue[0], queue[1..], inQueue);
    }

    /** _hasDependencyPath: a breadth-first search that finds a chain of dependencies exactly
        when there is one. */
    method HasDependencyPath(fromId: nat, toId: nat) returns (found: bool)
      requires Valid()
      ensures found <==> Reach(DependencyEdges(View()), fromId, toId)
    {
      ghost var g := DependencyEdges(View());
      var queue: seq<Module>, inQueue: set<nat> := [], {};
      if fromId in modules {
        queue, inQueue := [modules[fromId]], {fromId};
      }
      found := false;
      while |queue| > 0
        invariant Searching(g, fromId, toId, queue, inQueue)
        decreases |modules.Keys - inQueue| + |queue|
      {
        found, queue, inQueue := SearchOne(g, fromId, toId, queue, inQueue);
        if found { return; }
      }
      SearchExhausted(fromId, toId, inQueue);
    }

    lemma SearchExhausted(fromId: nat, toId: nat, inQueue: set<nat>)
      requires AllSearched([], inQueue, toId, -1)
      requires fromId in inQueue || fromId !in modules
      ensures !Reach(DependencyEdges(View()), fromId, toId)
    {
      forall mid ensures !Walk(DependencyEdges(View()), fromId, mid, toId) {
        NothingLeads(toId, inQueue, fromId, mid);
      }
    }

    // ---- Completing modules ----

    method DecrementUnresolved(m: nat)
      requires Valid() && m in modules
      modifies modules[m]
      ensures Valid() && View() == Decrement(old(View()), m)
    {
      modules[m].unresolvedDependenciesCount := modules[m].unresolvedDependenciesCount - 1;
      assert Records() == old(Records())[m := old(Records())[m].(unresolved := old(Records())[m].unresolved - 1)];
    }

    /** What running a module does to the tables. */
    ghost function Invoke(s: Tables, m: nat): Tables
      requires m in s.modules
    {
      if s.modules[m].callback.Escapes() then Escape(s, m) else Complete(s, m)
    }

    method RunFactory(m: nat) returns (threw: bool, report: Option<LoadError>)
      requires Valid() && m in modules
      modifies modules[m]
      ensures Valid() && View() == old(View()).(modules := Invoke(old(View()), m).modules)
      ensures threw <==> old(modules[m].callback).Escapes()
      ensures Invoke(old(View()), m).reports == Report(old(reports), report)
    {
      threw, report := modules[m].Complete(if m in inverseDependencies then inverseDependencies[m] else []);
      assert Records() == old(Records())[m := Invoke(old(View()), m).modules[m]];
    }

    method RunModule(m: nat) returns (threw: bool)
      requires Valid() && m in modules
      modifies this, modules[m]
      ensures Valid() && modules == old(modules) && Untouched()
      ensures threw <==> old(modules[m].callback).Escapes()
      ensures View() == Invoke(old(View()), m)
    {
      InvokeIs(View(), m);
      var report;
      threw, report := RunFactory(m);
      NoteRun(m, threw, report);
    }

    lemma InvokeIs(s: Tables, m: nat)
      requires m in s.modules
      ensures Invoke(s, m) == s.(modules := Invoke(s, m).modules, reports := Invoke(s, m).reports,
                                 invoked := s.invoked + [m],
                                 escaped := if s.modules[m].callback.Escapes() then s.escaped + [m] else s.escaped)
    {}

    /** What running a module told the outside. */
    ghost method NoteRun(m: nat, threw: bool, report: Option<LoadError>)
      requires Valid()
      modifies this`reports, this`invoked, this`escaped
      ensures Valid()
      ensures View() == old(View()).(reports := Report(old(reports), report), invoked := old(invoked) + [m],
                                     escaped := if threw then old(escaped) + [m] else old(escaped))
    {
      reports := Report(reports, report);
      invoked, escaped := invoked + [m], if threw then escaped + [m] else escaped;
    }

    /** Fetch and clear inverse dependencies. */
    method TakeWaiters(m: nat) returns (inverseDeps: seq<nat>)
      requires Valid()
      modifies this
      ensures Valid() && modules == old(modules) && Untouched()
      ensures View() == ClearWaiters(old(View()), m)
      ensures inverseDeps == Waiters(old(View()), m)
    {
      inverseDeps := if m in inverseDependencies then inverseDependencies[m] else [];
      inverseDependencies := inverseDependencies - {m};
    }

    /** _onModuleComplete; returns whether an exception leaves it. */
    method OnModuleCompleted(m: nat) returns (threw: bool)
      requires Valid() && m in modules && WaitersDefined(View())
      modifies this, modules.Values
      ensures Valid() && modules == old(modules) && Untouched()
      ensures View() == OnModuleComplete(old(View()), m)
      ensures threw <==> escaped != old(escaped)
      decreases Incomplete(View()), 0
    {
      if modules[m].isComplete { return false; }
      threw := RunModule(m);
      if threw { return; }
      var inverseDeps := TakeWaiters(m);
      assert Incomplete(View()) == Incomplete(old(View())) - {m};
      threw := ReleaseWaiters(inverseDeps);
    }

    lemma ReleaseFrom(s: Tables, waiters: seq<nat>, i: nat, t: Tables)
      requires WaitersDefined(s) && i < |waiters| && forall w :: w in waiters ==> w in s.modules
      requires t == ReleaseOne(s, waiters[i])
      ensures Release(s, waiters[i..]) ==
                if t.escaped != s.escaped then Abandon(t, waiters[i + 1..]) else Release(t, waiters[i + 1..])
    {
      assert waiters[i..][0] == waiters[i] && waiters[i..][1..] == waiters[i + 1..];
    }

    /** The loop of _onModuleComplete. */
    method ReleaseWaiters(inverseDeps: seq<nat>) returns (threw: bool)
      requires Valid() && WaitersDefined(View()) && forall w :: w in inverseDeps ==> w in modules
      modifies this, modules.Values
      ensures Valid() && modules == old(modules) && Untouched()
      ensures View() == Release(old(View()), inverseDeps)
      ensures threw <==> escaped != old(escaped)
      decreases Incomplete(View()), 3
    {
      ghost var t, goal := View(), Release(View(), inverseDeps);
      threw := false;
      assert inverseDeps[0..] == inverseDeps;
      for i := 0 to |inverseDeps|
        invariant Valid() && modules == old(modules) && Untouched()
        invariant WaitersDefined(View()) && forall w :: w in inverseDeps ==> w in modules
        invariant Incomplete(View()) <= Incomplete(t) && escaped == old(escaped)
        invariant Release(View(), inverseDeps[i..]) == goal
      {
        threw := ReleaseNext(inverseDeps, i);
        if threw { return; }
      }
    }

    /** One turn of that loop. */
    method ReleaseNext(inverseDeps: seq<nat>, i: nat) returns (threw: bool)
      requires Valid() && WaitersDefined(View()) && i < |inverseDeps| && forall w :: w in inverseDeps ==> w in modules
      modifies this, modules.Values
      ensures Valid() && modules == old(modules) && Untouched() && WaitersDefined(View())
      ensures Incomplete(View()) <= Incomplete(old(View()))
      ensures threw <==> escaped != old(escaped)
      ensures Release(old(View()), inverseDeps[i..]) == if threw then View() else Release(View(), inverseDeps[i + 1..])
      decreases Incomplete(View()), 2
    {
      ghost var before := View();
      threw := ReleaseWaiter(inverseDeps[i]);
      ReleaseFrom(before, inverseDeps, i, View());
      if threw {
        AbandonWaiters(inverseDeps[i + 1..]);
      }
    }

    /** The exception leaves the loop: nobody will count these waiters down any more. */
    ghost method AbandonWaiters(waiters: seq<nat>)
      requires Valid()
      modifies this`lost
      ensures Valid() && View() == Abandon(old(View()), waiters)
    {
      lost := lost + multiset(waiters);
    }

    /** One waiter of a module that has just completed. */
    method ReleaseWaiter(w: nat) returns (threw: bool)
      requires Valid() && w in modules && WaitersDefined(View())
      modifies this, modules.Values
      ensures Valid() && modules == old(modules) && Untouched()
      ensures View() == ReleaseOne(old(View()), w)
      ensures threw <==> escaped != old(escaped)
      decreases Incomplete(View()), 1
    {
      DecrementUnresolved(w);
      assert Incomplete(View()) == Incomplete(old(View()));
      threw := false;
      if modules[w].unresolvedDependenciesCount == 0 {
        threw := OnModuleCompleted(w);
      }
    }

    // ---- Resolving dependencies ----

    /** _loadModule: each unknown module is requested from the script loader once. */
    method RequestModule(d: nat)
      requires Valid()
      modifies this
      ensures Valid() && modules == old(modules) && Untouched()
      ensures View() == LoadModule(old(View()), d) && escaped == old(escaped)
    {
      if d in modules || d in known { return; }
      known := known + {d};
      requests := requests + [d];
    }

    method WarnCycle(m: nat, d: nat)
      requires Valid()
      modifies this
      ensures Valid() && modules == old(modules) && Untouched()
      ensures View() == RecordCut(old(View()), m, d) && escaped == old(escaped)
    {
      hasDependencyCycle := true;
      cuts := cuts + [(m, d)];
    }

    method RecordInverseDependency(m: nat, d: nat)
      requires Valid()
      modifies this
      ensures Valid() && modules == old(modules) && Untouched()
      ensures View() == AddWaiter(old(View()), d, m) && escaped == old(escaped)
    {
      var waiters := if d in inverseDependencies then inverseDependencies[d] else [];
      inverseDependencies := inverseDependencies[d := waiters + [m]];
    }

    /** What _resolve does with a dependency that has not completed. */
    method AwaitOrCut(m: nat, d: nat)
      requires Valid() && m in modules && WaitersDefined(View()) && !IsComplete(View(), d)
      modifies this, modules[m]
      ensures Valid() && modules == old(modules) && Untouched()
      ensures View() == Examine(old(View()), m, Regular(d)) && escaped == old(escaped)
    {
      var cycle := HasDependencyPath(d, m);
      if cycle {
        WarnCycle(m, d);
        DecrementUnresolved(m);
      } else {
        RecordInverseDependency(m, d);
        RequestModule(d);
      }
    }

    method PassExportsIn(m: nat)
      requires Valid() && m in modules
      modifies modules[m]
      ensures Valid() && View() == PassExports(old(View()), m)
    {
      modules[m].exportsPassedIn := true;
      assert Records() == old(Records())[m := old(Records())[m].(exportsPassedIn := true)];
    }

    method FailModule(m: nat, err: LoadError, throws: bool) returns (notified: bool, threw: bool)
      requires Valid() && m in modules
      modifies modules[m]
      ensures Valid() && View() == OnDependencyError(old(View()), m, err)
      ensures notified == old(View()).modules[m].errorback && threw == (notified && throws)
    {
      notified, threw := modules[m].OnDependencyError(err, throws);
      assert Records() == old(Records())[m := old(Records())[m].(complete := true, error := Some(err))];
    }

    /** One iteration of _resolve; throws says whether the module's errorback throws if it is called. */
    method ExamineDependency(m: nat, dependency: Dependency, throws: bool) returns (failed: bool, threw: bool)
      requires Valid() && m in modules && WaitersDefined(View())
      modifies this, modules[m]
      ensures Valid() && modules == old(modules) && Untouched()
      ensures escaped == old(escaped)
      ensures failed <==> dependency.Regular? && Failed(old(View()), dependency.target)
      ensures threw <==> failed && old(modules[m].errorback) && throws
      ensures !failed ==> View() == Examine(old(View()), m, dependency)
      ensures failed ==>
                View() == OnDependencyError(old(View()), m, old(View()).modules[dependency.target].error.value)
    {
      failed, threw := false, false;
      match dependency {
        case Exports =>
          PassExportsIn(m);
          DecrementUnresolved(m);
        case ModuleObject =>
          DecrementUnresolved(m);
        case RequireFunction =>
          DecrementUnresolved(m);
        case Regular(d) =>
          if d in modules && modules[d].isComplete {
            if modules[d].error.Some? {
              var notified;
              notified, threw := FailModule(m, modules[d].error.value, throws);
              return true, threw;
            }
            DecrementUnresolved(m);
          } else {
            AwaitOrCut(m, d);
          }
      }
    }

    /** _resolve; returns whether an exception leaves it, be it that of the errorback (throws says
        whether it throws) because a dependency has failed before, or another. */
    method ResolveModule(m: nat, throws: bool) returns (threw: bool)
      requires Valid() && m in modules && WaitersDefined(View()) && modules[m].dependencies.Some?
      modifies this, modules.Values
      ensures Valid() && modules == old(modules) && Untouched()
      ensures View() == Resolve(old(View()), m, old(modules[m].dependencies.value), 0)
      ensures threw <==> (escaped != old(escaped)
                          || (throws && old(modules[m].errorback)
                              && DependencyFailed(old(View()), old(modules[m].dependencies.value))))
    {
      var dependencies := modules[m].dependencies.value;
      ghost var s := View();
      assert s.modules[m].errorback == modules[m].errorback;
      for i := 0 to |dependencies|
        invariant Valid() && modules == old(modules) && Untouched()
        invariant Examined(s, m, dependencies, i, View())
      {
        ExaminedOneMore(s, m, dependencies, i, View());
        assert View().modules[m].errorback == modules[m].errorback;
        var failed;
        failed, threw := ExamineDependency(m, dependencies[i], throws);
        if failed { return; }
      }
      ExaminedAll(s, m, dependencies, View());
      threw := false;
      if modules[m].unresolvedDependenciesCount == 0 {
        threw := OnModuleCompleted(m);
      }
    }

    // ---- Defining modules ----

    /** Creates the record of a module and resolves it: the part of defineModule after its
        strings have been turned into ids. */
    method Register(m: nat, dependencies: seq<Dependency>, callback: Callback, errorback: bool)
      requires Valid() && m !in modules
      modifies this
      ensures Valid() && Untouched()
      ensures m in modules && fresh(modules[m]) && modules == old(modules)[m := modules[m]]
      ensures View() == LoaderSpec.Register(old(View()), m, dependencies, callback, errorback)
    {
      var created := new Module(m, dependencies, callback, errorback);
      modules := modules[m := created];
      declared := declared[m := dependencies];
      assert Records() == old(Records())[m := created.Rec()];
    }

    // ---- Load failures ----

    /** Queue the waiters not seen yet. */
    method EnqueueUnseen(list: seq<nat>, queue: seq<nat>, seen: set<nat>) returns (queue': seq<nat>, seen': set<nat>)
      ensures queue' == queue + Unseen(list, seen) && seen' == seen + Elements(Unseen(list, seen))
    {
      queue', seen' := queue, seen;
      ghost var more, added := Unseen(list, seen), [];
      assert list[0..] == list;
      for i := 0 to |list|
        invariant queue' == queue + added && seen' == seen + Elements(added)
        invariant added + Unseen(list[i..], seen') == more
      {
        UnseenStep(list, i, seen', added);
        if list[i] !in seen' {
          added := added + [list[i]];
          queue' := queue' + [list[i]];
          seen' := seen' + {list[i]};
        }
      }
      assert added + [] == added;
    }

    lemma UnseenStep(list: seq<nat>, i: nat, seen: set<nat>, added: seq<nat>)
      requires i < |list|
      ensures added + Unseen(list[i..], seen) ==
                if list[i] in seen then added + Unseen(list[i + 1..], seen)
                else (added + [list[i]]) + Unseen(list[i + 1..], seen + {list[i]})
      ensures Elements(added + [list[i]]) == Elements(added) + {list[i]}
    {
      assert list[i..][0] == list[i] && list[i..][1..] == list[i + 1..];
    }

    /** The first module of the queue fails; unless its errorback throws, its waiters are queued. */
    method FloodOne(queue: seq<nat>, seen: set<nat>, err: LoadError, throws: bool)
      returns (queue': seq<nat>, seen': set<nat>, notified: bool, threw: bool)
      requires Valid() && queue != [] && queue[0] in modules
      modifies modules[queue[0]]
      ensures Valid() && View() == OnDependencyError(old(View()), queue[0], err)
      ensures notified == old(View()).modules[queue[0]].errorback && threw == (notified && throws)
      ensures !threw ==> queue' == queue[1..] + Unseen(Waiters(View(), queue[0]), seen)
      ensures !threw ==> seen' == seen + Elements(Unseen(Waiters(View(), queue[0]), seen))
    {
      notified, threw := FailModule(queue[0], err, throws);
      queue', seen' := queue, seen;
      if !threw {
        var inverseDeps := if queue[0] in inverseDependencies then inverseDependencies[queue[0]] else [];
        queue', seen' := EnqueueUnseen(inverseDeps, queue[1..], seen);
      }
    }

    /** The breadth-first walk of _onLoadError over the modules that wait for the failed one;
        throwing says whose errorbacks throw if they are called. */
    method Flood(moduleId: nat, err: LoadError, throwing: set<nat>) returns (notified: seq<nat>, threw: bool)
      requires Valid() && moduleId in modules && WaitersDefined(View())
      modifies modules.Values
      ensures Valid()
      ensures FloodEnds(old(View()), Told(old(View()), moduleId, throwing), err, throwing, notified, threw, View())
    {
      ghost var t, done := View(), [];
      ghost var order := Walked(t, [moduleId], {moduleId});
      var queue, seen := [moduleId], {moduleId};
      notified, threw := [], false;
      FloodStarts(t, moduleId, err, throwing);
      while |queue| > 0
        invariant Valid()
        invariant Flooded(t, order, done, queue, seen, err, throwing, notified, View())
        decreases |t.modules.Keys - seen| + |queue|
      {
        ghost var now, queued, before, told := View(), queue, seen, notified;
        FloodHead(t, order, done, queue, seen, err, throwing, notified, now);
        var x, called := queue[0], false;
        queue, seen, called, threw := FloodOne(queue, seen, err, x in throwing);
        if called { notified := notified + [x]; }
        if threw {
          FloodThrows(t, order, done, queued, before, err, throwing, told, now, notified, View());
          return;
        }
        FloodAdvances(t, order, done, queued, before, err, throwing, told, now, queue, seen, notified, View());
        done := done + [x];
      }
      FloodStops(t, order, done, seen, err, throwing, notified, View());
    }

    lemma PlaceholderChangesNoWaits(s: Tables, m: nat)
      ensures Affected(WithPlaceholder(s, m), m) == Affected(s, m)
      ensures WaitersDefined(s) ==> WaitersDefined(WithPlaceholder(s, m))
    {
      assert Waits(WithPlaceholder(s, m)) == Waits(s);
    }

    method EnsureDefined(moduleId: nat)
      requires Valid()
      modifies this
      ensures Valid() && Untouched()
      ensures View() == WithPlaceholder(old(View()), moduleId)
      ensures moduleId in modules
      ensures forall m :: m in modules && m != moduleId ==> m in old(modules) && modules[m] == old(modules)[m]
      ensures if moduleId in old(modules) then modules == old(modules) else fresh(modules[moduleId])
    {
      if moduleId !in modules {
        Register(moduleId, [], Factory(Returns), false);
      }
    }

    method ReportUnlessNotified(err: LoadError, notified: bool)
      requires Valid()
      modifies this
      ensures Valid() && Untouched() && modules == old(modules)
      ensures View() == old(View()).(reports := if notified then old(reports) else old(reports) + [err])
    {
      if !notified {
        reports := reports + [err];
      }
    }

    /** _onLoadError; returns the modules whose errorback was called, in order, and whether an
        exception leaves it, be it that of an errorback or of the global handler. */
    method FailLoading(moduleId: nat, throwing: set<nat>, handlerThrows: bool) returns (notified: seq<nat>, threw: bool)
      requires Valid() && WaitersDefined(View())
      modifies this, modules.Values
      ensures Valid() && Untouched()
      ensures View() == LoadFailed(old(View()), moduleId, throwing)
      ensures reports == if notified != [] then old(reports)
                         else old(reports) + [LoadError(Loading, moduleId, Waiters(old(View()), moduleId))]
      ensures var t := WithPlaceholder(old(View()), moduleId);
        WaitersDefined(t) && FailureTold(t, moduleId, throwing, handlerThrows, notified, threw)
    {
      ghost var t := WithPlaceholder(View(), moduleId);
      var neededBy := if moduleId in inverseDependencies then inverseDependencies[moduleId] else [];
      var err := LoadError(Loading, moduleId, neededBy);
      EnsureDefined(moduleId);
      notified, threw := Flood(moduleId, err, throwing);
      InterruptsIsNotified(t, Told(t, moduleId, throwing), throwing);
      if threw { return; }
      ReportUnlessNotified(err, notified != []);
      threw := notified == [] && handlerThrows;
    }

    /** Who is told that a module failed to load, and whether an exception comes out of that. */
    ghost predicate FailureTold(t: Tables, moduleId: nat, throwing: set<nat>, handlerThrows: bool,
                                notified: seq<nat>, threw: bool)
      requires WaitersDefined(t)
    {
      && notified == WithErrorback(t, Told(t, moduleId, throwing))
      && (threw <==> (notified == [] && handlerThrows) || exists x :: x in notified && x in throwing)
    }

    lemma InterruptsIsNotified(t: Tables, told: seq<nat>, throwing: set<nat>)
      ensures (exists x :: x in told && Interrupts(t, x, throwing))
         <==> exists x :: x in WithErrorback(t, told) && x in throwing
    {
      WithErrorbackIs(t, told);
      if x :| x in told && Interrupts(t, x, throwing) { assert x in WithErrorback(t, told); }
      if x :| x in WithErrorback(t, told) && x in throwing { assert Interrupts(t, x, throwing); }
    }

    // ---- The operations clients and the script loader call ----

    ghost function Interns(k: nat): seq<Event> {
      seq(k, _ => Intern)
    }

    lemma {:induction false} RunInterns(events: seq<Event>, k: nat)
      ensures Run(events + Interns(k)) == Run(events).(nextId := Run(events).nextId + k)
    {
      if k == 0 {
        assert events + Interns(0) == events;
      } else {
        RunInterns(events, k - 1);
        var all := events + Interns(k);
        assert all[..|all| - 1] == events + Interns(k - 1);
        assert all[|all| - 1] == Intern;
      }
    }

    method GetModuleId(strModuleId: string) returns (id: nat)
      requires Valid()
      modifies provider
      ensures Valid() && View() == old(View()).(nextId := provider.nextId)
      ensures id < provider.nextId && provider.names[id] == strModuleId && old(provider.names) <= provider.names
    {
      id := provider.GetModuleId(strModuleId);
    }

    /** _normalizeDependency, for dependencies that name no plugin. */
    method NormalizeDependency(dependency: string, resolver: ModuleIdResolver) returns (d: Dependency)
      requires Valid() && resolver.Valid() && '!' !in dependency
      modifies provider
      ensures Valid() && View() == old(View()).(nextId := provider.nextId) && old(provider.names) <= provider.names
      ensures NormalizedTo(resolver.fromModuleId, dependency, d, provider.names)
    {
      if dependency == "exports" { return Exports; }
      if dependency == "module" { return ModuleObject; }
      if dependency == "require" { return RequireFunction; }
      var resolved := resolver.ResolveModule(dependency);
      var id := GetModuleId(resolved);
      d := Regular(id);
    }

    method NormalizeDependencies(dependencies: seq<string>, resolver: ModuleIdResolver) returns (ds: seq<Dependency>)
      requires Valid() && resolver.Valid() && NoPlugins(dependencies)
      modifies provider
      ensures Valid() && View() == old(View()).(nextId := provider.nextId) && old(provider.names) <= provider.names
      ensures AllNormalized(resolver.fromModuleId, dependencies, ds, provider.names)
    {
      ds := [];
      for i := 0 to |dependencies|
        invariant Valid() && View() == old(View()).(nextId := provider.nextId) && old(provider.names) <= provider.names
        invariant |ds| == i
        invariant forall k :: 0 <= k < i ==> NormalizedTo(resolver.fromModuleId, dependencies[k], ds[k], provider.names)
      {
        ghost var before := provider.names;
        var d := NormalizeDependency(dependencies[i], resolver);
        assert before <= provider.names;
        ds := ds + [d];
      }
    }

    method DefineById(m: nat, dependencies: seq<Dependency>, callback: Callback, errorback: bool, throws: bool)
      returns (threw: bool)
      requires Valid() && WaitersDefined(View()) && m !in modules
      modifies this, modules.Values
      ensures Valid() && Untouched()
      ensures View() == Define(old(View()), m, dependencies, callback, errorback)
      ensures threw <==> (escaped != old(escaped)
                          || (throws && errorback && DependencyFailed(old(View()), dependencies)))
      ensures fresh(modules.Values - old(modules.Values))
    {
      ghost var before := View();
      Register(m, dependencies, callback, errorback);
      assert Records()[m].dependencies == Some(dependencies) && Records()[m].errorback == errorback;
      RegisterFailsNobody(before, m, dependencies, callback, errorback);
      threw := ResolveModule(m, throws);
    }

    lemma DependencyFailedBefore(s: Tables, nextId: nat, deps: seq<Dependency>)
      ensures DependencyFailed(s.(nextId := nextId), deps) <==> DependencyFailed(s, deps)
    {
      assert forall k :: 0 <= k < |deps| ==> (FailedAt(s.(nextId := nextId), deps, k) <==> FailedAt(s, deps, k));
    }

    /** Interning strings is a run of its own. */
    ghost method NoteInterned(k: nat)
      requires Valid() && provider.nextId >= k
      requires View() == Run(history).(nextId := Run(history).nextId + k)
      modifies this`history
      ensures Consistent() && history == old(history) + Interns(k)
    {
      RunInterns(history, k);
      history := history + Interns(k);
    }

    ghost method NoteEvent(e: Event)
      requires Valid() && View() == Run(history + [e])
      modifies this`history
      ensures Consistent() && View() == old(View()) && history == old(history) + [e]
    {
      history := history + [e];
    }

    /** Interns the module's name and, unless it is a duplicate, those of its dependencies. */
    method InternDefinition(strModuleId: string, dependencies: seq<string>, resolver: ModuleIdResolver)
      returns (id: nat, ds: seq<Dependency>)
      requires Consistent() && resolver.Valid()
      requires NoPlugins(dependencies)
      modifies this`history, provider
      ensures Consistent() && View() == old(View()).(nextId := provider.nextId)
      ensures old(provider.names) <= provider.names && id < provider.nextId && provider.names[id] == strModuleId
      ensures if id in modules then ds == [] else AllNormalized(resolver.fromModuleId, dependencies, ds, provider.names)
      ensures history == old(history) + Interns(provider.nextId - old(provider.nextId))
    {
      id, ds := InternNames(strModuleId, dependencies, resolver);
      NoteInterned(provider.nextId - old(provider.nextId));
    }

    method InternNames(strModuleId: string, dependencies: seq<string>, resolver: ModuleIdResolver)
      returns (id: nat, ds: seq<Dependency>)
      requires Valid() && resolver.Valid() && NoPlugins(dependencies)
      modifies provider
      ensures Valid() && View() == old(View()).(nextId := provider.nextId)
      ensures old(provider.names) <= provider.names && id < provider.nextId && provider.names[id] == strModuleId
      ensures if id in modules then ds == [] else AllNormalized(resolver.fromModuleId, dependencies, ds, provider.names)
    {
      id := GetModuleId(strModuleId);
      ds := [];
      if id !in modules {
        ds := NormalizeDependencies(dependencies, resolver);
      }
    }

    lemma NormalizedIsAllocated(fromModuleId: string, dependencies: seq<string>, ds: seq<Dependency>)
      requires Valid() && AllNormalized(fromModuleId, dependencies, ds, provider.names)
      ensures AllocatedDeps(View(), ds)
    {
      forall i | 0 <= i < |ds| ensures ds[i].Id() < View().nextId {
        assert NormalizedTo(fromModuleId, dependencies[i], ds[i], provider.names);
      }
    }

    method DefineNoted(m: nat, ds: seq<Dependency>, callback: Callback, errorback: bool, throws: bool)
      returns (threw: bool)
      requires Consistent() && m < provider.nextId && AllocatedDeps(View(), ds)
      modifies this, modules.Values
      ensures Consistent() && currentAnonymousDefineCall == old(currentAnonymousDefineCall)
      ensures provider.names == old(provider.names) && provider.nextId == old(provider.nextId)
      ensures history == old(history) + [Defines(m, ds, callback, errorback)]
      ensures threw <==> (escaped != old(escaped)
                          || (m !in old(modules) && throws && errorback && DependencyFailed(old(View()), ds)))
    {
      ghost var e := Defines(m, ds, callback, errorback);
      RunStep(history, e);
      assert Run(history + [e]) == Define(View(), m, ds, callback, errorback);
      threw := false;
      if m !in modules {
        threw := DefineById(m, ds, callback, errorback, throws);
      }
      NoteEvent(e);
    }

    /** defineModule: interns the module's name and, unless it is a duplicate, its dependencies;
        registers and resolves it. Returns whether an exception leaves it; throws says whether the
        errorback throws if it is called. */
    method DefineModule(strModuleId: string, dependencies: seq<string>, callback: Callback, errorback: bool,
                        throws: bool, resolver: ModuleIdResolver)
      returns (threw: bool, ghost m: nat, ghost ds: seq<Dependency>)
      requires Consistent() && resolver.Valid()
      requires NoPlugins(dependencies)
      modifies this, provider, modules.Values
      ensures Consistent() && currentAnonymousDefineCall == old(currentAnonymousDefineCall)
      ensures old(provider.names) <= provider.names
      ensures m < provider.nextId && provider.names[m] == strModuleId
      ensures m !in old(modules) ==> AllNormalized(resolver.fromModuleId, dependencies, ds, provider.names)
      ensures history == old(history) + Interns(provider.nextId - old(provider.nextId))
                         + [Defines(m, ds, callback, errorback)]
      ensures threw <==> (escaped != old(escaped)
                          || (m !in old(modules) && throws && errorback && DependencyFailed(old(View()), ds)))
    {
      var id, normalized := InternDefinition(strModuleId, dependencies, resolver);
      m, ds := id, normalized;
      if id !in modules {
        NormalizedIsAllocated(resolver.fromModuleId, dependencies, normalized);
      }
      DependencyFailedBefore(old(View()), provider.nextId, normalized);
      ghost var k := provider.nextId - old(provider.nextId);
      ghost var interned := history;
      assert interned == old(history) + Interns(k);
      threw := DefineNoted(id, normalized, callback, errorback, throws);
      assert k == provider.nextId - old(provider.nextId);
      assert history == interned + [Defines(m, ds, callback, errorback)];
    }

    /** enqueueDefineAnonymousModule; a second pending call is an error. */
    method EnqueueDefineAnonymousModule(dependencies: seq<string>, callback: Callback) returns (accepted: bool)
      requires Consistent()
      modifies this
      ensures Consistent() && View() == old(View()) && history == old(history)
      ensures accepted <==> old(currentAnonymousDefineCall).None?
      ensures currentAnonymousDefineCall ==
                if accepted then Some((dependencies, callback)) else old(currentAnonymousDefineCall)
    {
      accepted := currentAnonymousDefineCall.None?;
      if accepted {
        currentAnonymousDefineCall := Some((dependencies, callback));
      }
    }

    /** _onLoad: a pending anonymous definition becomes the definition of the loaded module. */
    method OnLoad(moduleId: nat) returns (threw: bool, ghost ds: seq<Dependency>)
      requires Consistent() && moduleId < provider.nextId
      requires currentAnonymousDefineCall.Some? ==> NoPlugins(currentAnonymousDefineCall.value.0)
      modifies this, provider, modules.Values
      ensures Consistent() && currentAnonymousDefineCall == None
      ensures old(currentAnonymousDefineCall).None? ==> View() == old(View()) && history == old(history)
      ensures threw <==> escaped != old(escaped)
      ensures old(provider.names) <= provider.names
      ensures old(currentAnonymousDefineCall).Some? ==>
                history == old(history) + Interns(provider.nextId - old(provider.nextId))
                           + [Defines(moduleId, ds, old(currentAnonymousDefineCall).value.1, false)]
      ensures old(currentAnonymousDefineCall).Some? && moduleId !in old(modules) ==>
                AllNormalized(provider.names[moduleId], old(currentAnonymousDefineCall).value.0, ds, provider.names)
    {
      threw, ds := false, [];
      if currentAnonymousDefineCall.Some? {
        var defineCall := currentAnonymousDefineCall.value;
        currentAnonymousDefineCall := None;
        var resolver := new ModuleIdResolver(provider.names[moduleId]);
        ghost var m;
        threw, m, ds := DefineModule(provider.names[moduleId], defineCall.0, defineCall.1, false, false, resolver);
        assert old(provider.names)[moduleId] == provider.names[moduleId];
        assert m == moduleId;
      }
    }

    /** _onLoadError, as an event of the run; returns the modules whose errorback was called, and
        whether an exception leaves it. */
    method OnLoadError(moduleId: nat, throwing: set<nat>, handlerThrows: bool) returns (notified: seq<nat>, threw: bool)
      requires Consistent() && moduleId < provider.nextId
      modifies this, modules.Values
      ensures Consistent() && currentAnonymousDefineCall == old(currentAnonymousDefineCall)
      ensures View() == LoadFailed(old(View()), moduleId, throwing)
      ensures FailureReported(old(View()), View(), moduleId)
      ensures history == old(history) + [FailsToLoad(moduleId, throwing)]
      ensures var t := WithPlaceholder(old(View()), moduleId);
        WaitersDefined(t) && FailureTold(t, moduleId, throwing, handlerThrows, notified, threw)
    {
      ghost var e := FailsToLoad(moduleId, throwing);
      RunStep(history, e);
      LoadFailureIsReportedIff(View(), moduleId, throwing);
      assert Run(history + [e]) == LoadFailed(View(), moduleId, throwing);
      notified, threw := FailLoading(moduleId, throwing, handlerThrows);
      NoteEvent(e);
    }
  }

  /** What a dependency string stands for: one of the special three, or the id of the name the
      string resolves to from the module that mentions it. */
  ghost predicate NormalizedTo(fromModuleId: string, dependency: string, d: Dependency, names: seq<string>) {
    if dependency == "exports" then d == Exports
    else if dependency == "module" then d == ModuleObject
    else if dependency == "require" then d == RequireFunction
    else d.Regular? && d.target < |names| && ResolvesTo(fromModuleId, dependency, names[d.target])
  }

  ghost predicate AllNormalized(fromModuleId: string, dependencies: seq<string>, ds: seq<Dependency>,
                                names: seq<string>) {
    && |ds| == |dependencies|
    && forall i {:trigger NormalizedTo(fromModuleId, dependencies[i], ds[i], names)} :: 0 <= i < |ds| ==>
         NormalizedTo(fromModuleId, dependencies[i], ds[i], names)
  }

  /** No dependency goes through a loader plugin. */
  ghost predicate NoPlugins(dependencies: seq<string>) {
    forall i :: 0 <= i < |dependencies| ==> '!' !in dependencies[i]
  }
}
