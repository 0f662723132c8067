/** Every operation of the module manager keeps the invariant, so every run does. */
module LoaderSteps {
  import opened Options
  import opened Graphs
  import opened LoaderSpec
  import opened LoaderInvariant

  ghost function Owed(m: nat, n: nat): multiset<nat> {
    multiset{}[m := n]
  }

  /** Where _resolve stands before it examines dependency i of m. */
  ghost predicate Resolving(s: Tables, m: nat, deps: seq<Dependency>, i: nat) {
    && i <= |deps|
    && m in s.modules && m in s.declared && s.declared[m] == deps
    && !s.modules[m].complete && s.modules[m].dependencies == Some(deps)
    && Core(s, Owed(m, |deps| - i))
    && SettledExcept(s, m) && SettledUpto(s, m, i)
    && NoneReady(s, {m})
  }

  lemma DependencyEdgesDeclared(s: Tables)
    requires RecordsValid(s)
    ensures DependencyEdges(s) <= DeclaredEdges(s)
  {
    forall e | e in DependencyEdges(s) ensures e in DeclaredEdges(s) {
      assert RecordValid(s, e.0);
    }
  }

  /** Whatever waits is also a dependency edge the cycle search follows. */
  lemma WaitsAreDependencies(s: Tables)
    requires RecordsValid(s) && WaitersValid(s)
    ensures Waits(s) <= DependencyEdges(s)
  {
    forall e | e in Waits(s) ensures e in DependencyEdges(s) {
      assert WaiterValid(s, e.0, e.1) && RecordValid(s, e.0);
      var i :| 0 <= i < |s.declared[e.0]| && s.declared[e.0][i] == Regular(e.1);
      assert s.modules[e.0].dependencies.value[i].Id() == e.1;
    }
  }

  // ---- Examining one dependency ----

  lemma DecrementKeepsResolving(s: Tables, m: nat, deps: seq<Dependency>, i: nat)
    requires Resolving(s, m, deps, i) && i < |deps|
    requires deps[i].Regular? ==> DependencySettled(s, m, deps[i].target)
    ensures Resolving(Decrement(s, m), m, deps, i + 1)
  {
    assert Owed(m, |deps| - i) == Owed(m, |deps| - (i + 1)) + multiset{m};
    DecrementKeepsCore(s, m, Owed(m, |deps| - (i + 1)));
    var t := Decrement(s, m);
    SettledTransfers(s, t, m);
    forall k | 0 <= k < i + 1 && t.declared[m][k].Regular?
      ensures DependencySettled(t, m, t.declared[m][k].target)
    {
      assert DependencySettled(s, m, s.declared[m][k].target);
    }
  }

  lemma PassExportsKeepsCore(s: Tables, m: nat, pending: multiset<nat>)
    requires Core(s, pending) && m in s.modules
    ensures Core(PassExports(s, m), pending)
  {
    var t := PassExports(s, m);
    forall x | x in t.modules ensures RecordValid(t, x) && CountValid(t, pending, x) {
      assert RecordValid(s, x) && CountValid(s, pending, x);
    }
    forall d, j | d in t.inverse && 0 <= j < |t.inverse[d]| ensures WaiterValid(t, t.inverse[d][j], d) {
      assert WaiterValid(s, s.inverse[d][j], d);
    }
    CutsTransfer(s, t);
    assert Waits(t) == Waits(s);
  }

  lemma PassExportsKeepsResolving(s: Tables, m: nat, deps: seq<Dependency>, i: nat)
    requires Resolving(s, m, deps, i)
    ensures Resolving(PassExports(s, m), m, deps, i)
  {
    var t := PassExports(s, m);
    PassExportsKeepsCore(s, m, Owed(m, |deps| - i));
    SettledTransfers(s, t, m);
    forall k | 0 <= k < i && t.declared[m][k].Regular?
      ensures DependencySettled(t, m, t.declared[m][k].target)
    {
      assert DependencySettled(s, m, s.declared[m][k].target);
    }
  }

  lemma RecordCutKeepsSettled(s: Tables, m: nat, d: nat, i: nat)
    requires SettledExcept(s, m) && m in s.declared && i <= |s.declared[m]| && SettledUpto(s, m, i)
    ensures SettledExcept(RecordCut(s, m, d), m) && SettledUpto(RecordCut(s, m, d), m, i)
  {
    var t := RecordCut(s, m, d);
    forall x | x in t.modules && x in t.declared && !t.modules[x].complete && x != m
      ensures SettledUpto(t, x, |t.declared[x]|)
    {
      assert SettledUpto(s, x, |s.declared[x]|);
      forall k | 0 <= k < |t.declared[x]| && t.declared[x][k].Regular?
        ensures DependencySettled(t, x, t.declared[x][k].target)
      {
        assert DependencySettled(s, x, s.declared[x][k].target);
      }
    }
    forall k | 0 <= k < i && t.declared[m][k].Regular?
      ensures DependencySettled(t, m, t.declared[m][k].target)
    {
      assert DependencySettled(s, m, s.declared[m][k].target);
    }
  }

  lemma RecordCutKeepsCore(s: Tables, m: nat, d: nat, pending: multiset<nat>)
    requires Core(s, pending) && m in s.declared && Regular(d) in s.declared[m] && ClosesCycle(s, m, d)
    ensures Core(RecordCut(s, m, d), pending)
  {
    var t := RecordCut(s, m, d);
    forall x | x in t.modules ensures RecordValid(t, x) && CountValid(t, pending, x) {
      assert RecordValid(s, x) && CountValid(s, pending, x);
    }
    forall d', j | d' in t.inverse && 0 <= j < |t.inverse[d']| ensures WaiterValid(t, t.inverse[d'][j], d') {
      assert WaiterValid(s, s.inverse[d'][j], d');
    }
    DependencyEdgesDeclared(s);
    ReachMonotone(DependencyEdges(s), DeclaredEdges(s), d, m);
    assert DeclaredEdges(t) == DeclaredEdges(s);
    forall c | c in t.cuts ensures CutValid(t, c.0, c.1) {
      assert c == (m, d) || CutValid(s, c.0, c.1);
    }
    assert Waits(t) == Waits(s);
  }

  lemma RecordCutKeepsResolving(s: Tables, m: nat, d: nat, deps: seq<Dependency>, i: nat)
    requires Resolving(s, m, deps, i) && Regular(d) in deps && ClosesCycle(s, m, d)
    ensures Resolving(RecordCut(s, m, d), m, deps, i)
  {
    RecordCutKeepsCore(s, m, d, Owed(m, |deps| - i));
    RecordCutKeepsSettled(s, m, d, i);
  }

  lemma CutKeepsResolving(s: Tables, m: nat, deps: seq<Dependency>, i: nat)
    requires Resolving(s, m, deps, i) && i < |deps| && deps[i].Regular?
    requires ClosesCycle(s, m, deps[i].target)
    ensures Resolving(Cut(s, m, deps[i].target), m, deps, i + 1)
  {
    var d := deps[i].target;
    var t := RecordCut(s, m, d);
    assert DependencySettled(t, m, d) by { assert (m, d) in t.cuts; }
    assert Resolving(t, m, deps, i) by { RecordCutKeepsResolving(s, m, d, deps, i); }
    DecrementKeepsResolving(t, m, deps, i);
  }

  /** Waiting for a module from which no dependency path leads back. */
  ghost function Await(s: Tables, m: nat, d: nat): Tables {
    LoadModule(AddWaiter(s, d, m), d)
  }

  lemma AwaitKeepsCounts(s: Tables, m: nat, d: nat, n: nat)
    requires IdsValid(s) && CountsValid(s, Owed(m, n + 1)) && m in s.modules && d < s.nextId
    ensures CountsValid(Await(s, m, d), Owed(m, n))
  {
    var t := Await(s, m, d);
    forall x | x in t.modules ensures CountValid(t, Owed(m, n), x) {
      assert CountValid(s, Owed(m, n + 1), x);
      OccurrencesAfterAdd(s.inverse, d, Waiters(s, d), m, x, s.nextId);
    }
  }

  lemma AwaitKeepsWaiters(s: Tables, m: nat, d: nat)
    requires WaitersValid(s) && RecordsValid(s) && WaiterValid(s, m, d)
    requires Acyclic(Waits(s)) && !ClosesCycle(s, m, d)
    ensures WaitersValid(Await(s, m, d)) && Acyclic(Waits(Await(s, m, d)))
  {
    var t := Await(s, m, d);
    forall d', j | d' in t.inverse && 0 <= j < |t.inverse[d']| ensures WaiterValid(t, t.inverse[d'][j], d') {
      assert d' in s.inverse && j < |s.inverse[d']| ==> WaiterValid(s, s.inverse[d'][j], d');
    }
    WaitsAreDependencies(s);
    if Reach(Waits(s), d, m) {
      ReachMonotone(Waits(s), DependencyEdges(s), d, m);
    }
    assert RecordValid(s, m);
    var i :| 0 <= i < |s.declared[m]| && s.declared[m][i] == Regular(d);
    assert (m, s.modules[m].dependencies.value[i].Id()) in DependencyEdges(s);
    ReachEdge(DependencyEdges(s), m, d);
    AcyclicAddEdge(Waits(s), m, d);
    AwaitAddsEdge(s, m, d);
  }

  lemma AwaitAddsEdge(s: Tables, m: nat, d: nat)
    ensures Waits(Await(s, m, d)) == Waits(s) + {(m, d)}
  {
    var t := Await(s, m, d);
    var w := Waiters(s, d);
    assert t.inverse[d] == w + [m];
    forall e | e in Waits(s) + {(m, d)} ensures e in Waits(t) {
      if e == (m, d) {
        assert t.inverse[d][|w|] == m;
      } else {
        var j :| e.1 in s.inverse && 0 <= j < |s.inverse[e.1]| && s.inverse[e.1][j] == e.0;
        assert t.inverse[e.1][j] == e.0;
      }
    }
  }

  lemma AwaitKeepsRecords(s: Tables, m: nat, d: nat)
    requires IdsValid(s) && RecordsValid(s) && OrderValid(s) && CutsValid(s) && m in s.modules && d < s.nextId
    ensures IdsValid(Await(s, m, d)) && RecordsValid(Await(s, m, d))
    ensures OrderValid(Await(s, m, d)) && CutsValid(Await(s, m, d))
  {
    var t := Await(s, m, d);
    forall x | x in t.modules ensures RecordValid(t, x) { assert RecordValid(s, x); }
    CutsTransfer(s, t);
  }

  lemma AwaitKeepsSettled(s: Tables, m: nat, d: nat, i: nat)
    requires SettledExcept(s, m) && m in s.declared && i < |s.declared[m]| && SettledUpto(s, m, i)
    requires s.declared[m][i] == Regular(d)
    ensures SettledExcept(Await(s, m, d), m) && SettledUpto(Await(s, m, d), m, i + 1)
  {
    var t := Await(s, m, d);
    forall x, y | DependencySettled(s, x, y) ensures DependencySettled(t, x, y) {
      if x in Waiters(s, y) {
        var j :| 0 <= j < |Waiters(s, y)| && Waiters(s, y)[j] == x;
        assert Waiters(t, y)[j] == x;
      }
    }
    assert Waiters(t, d)[|Waiters(s, d)|] == m;
    forall k | 0 <= k < i + 1 && t.declared[m][k].Regular?
      ensures DependencySettled(t, m, t.declared[m][k].target)
    {
      assert k < i ==> DependencySettled(s, m, s.declared[m][k].target);
    }
    forall x | x in t.modules && x in t.declared && !t.modules[x].complete && x != m
      ensures SettledUpto(t, x, |t.declared[x]|)
    {
      assert SettledUpto(s, x, |s.declared[x]|);
      forall k | 0 <= k < |t.declared[x]| && t.declared[x][k].Regular?
        ensures DependencySettled(t, x, t.declared[x][k].target)
      {
        assert DependencySettled(s, x, s.declared[x][k].target);
      }
    }
  }

  lemma AwaitKeepsResolving(s: Tables, m: nat, deps: seq<Dependency>, i: nat)
    requires Resolving(s, m, deps, i) && i < |deps| && deps[i].Regular?
    requires !IsComplete(s, deps[i].target) && !ClosesCycle(s, m, deps[i].target)
    ensures Resolving(Await(s, m, deps[i].target), m, deps, i + 1)
  {
    var d := deps[i].target;
    assert deps[i].Id() == d && d < s.nextId;
    assert WaiterValid(s, m, d);
    AwaitKeepsCore(s, m, d, |deps| - (i + 1));
    AwaitKeepsSettled(s, m, d, i);
  }

  lemma AwaitKeepsCore(s: Tables, m: nat, d: nat, n: nat)
    requires Core(s, Owed(m, n + 1)) && WaiterValid(s, m, d) && m in s.modules && d < s.nextId
    requires !ClosesCycle(s, m, d)
    ensures Core(Await(s, m, d), Owed(m, n))
  {
    AwaitKeepsRecords(s, m, d);
    AwaitKeepsCounts(s, m, d, n);
    AwaitKeepsWaiters(s, m, d);
  }

  lemma ExamineKeepsResolving(s: Tables, m: nat, deps: seq<Dependency>, i: nat)
    requires WaitersDefined(s) && Resolving(s, m, deps, i) && i < |deps|
    requires deps[i].Regular? ==> !Failed(s, deps[i].target)
    ensures Resolving(Examine(s, m, deps[i]), m, deps, i + 1)
  {
    match deps[i]
    case Exports =>
      PassExportsKeepsResolving(s, m, deps, i);
      DecrementKeepsResolving(PassExports(s, m), m, deps, i);
    case ModuleObject => DecrementKeepsResolving(s, m, deps, i);
    case RequireFunction => DecrementKeepsResolving(s, m, deps, i);
    case Regular(d) =>
      if IsComplete(s, d) {
        assert RecordValid(s, d);
        DecrementKeepsResolving(s, m, deps, i);
      } else if ClosesCycle(s, m, d) {
        CutKeepsResolving(s, m, deps, i);
      } else {
        AwaitKeepsResolving(s, m, deps, i);
      }
  }

  // ---- _resolve and defineModule ----

  lemma SettledWhole(s: Tables, m: nat)
    requires SettledExcept(s, m)
    requires m in s.modules && m in s.declared ==> s.modules[m].complete || SettledUpto(s, m, |s.declared[m]|)
    ensures Settled(s)
  {}

  /** A module that fails while being resolved keeps the tables consistent; whoever already
      waits for it goes on waiting. */
  lemma FailKeepsCore(s: Tables, m: nat, deps: seq<Dependency>, i: nat, err: LoadError)
    requires Resolving(s, m, deps, i)
    ensures Core(OnDependencyError(s, m, err), multiset{})
  {
    var t := OnDependencyError(s, m, err);
    assert RecordValid(s, m);
    forall x | x in t.modules ensures RecordValid(t, x) && CountValid(t, multiset{}, x) {
      assert RecordValid(s, x) && CountValid(s, Owed(m, |deps| - i), x);
    }
    forall d, j | d in t.inverse && 0 <= j < |t.inverse[d]| ensures WaiterValid(t, t.inverse[d][j], d) {
      assert WaiterValid(s, s.inverse[d][j], d);
    }
    CutsTransfer(s, t);
    assert Waits(t) == Waits(s);
  }

  lemma FailKeepsQuiet(s: Tables, m: nat, deps: seq<Dependency>, i: nat, err: LoadError)
    requires Resolving(s, m, deps, i)
    ensures Quiet(OnDependencyError(s, m, err))
  {
    FailKeepsCore(s, m, deps, i, err);
    SettledTransfers(s, OnDependencyError(s, m, err), m);
    SettledWhole(OnDependencyError(s, m, err), m);
  }

  lemma {:induction false} ResolveKeepsQuiet(s: Tables, m: nat, deps: seq<Dependency>, i: nat)
    requires WaitersDefined(s) && Resolving(s, m, deps, i)
    ensures Quiet(Resolve(s, m, deps, i))
    decreases |deps| - i
  {
    if i == |deps| {
      assert Owed(m, 0) == multiset{};
      SettledWhole(s, m);
      assert CountValid(s, multiset{}, m);
      if s.modules[m].unresolved == 0 {
        OnModuleCompleteKeeps(s, m, multiset{});
      }
    } else if deps[i].Regular? && Failed(s, deps[i].target) {
      FailKeepsQuiet(s, m, deps, i, s.modules[deps[i].target].error.value);
    } else {
      ExamineKeepsResolving(s, m, deps, i);
      ResolveKeepsQuiet(Examine(s, m, deps[i]), m, deps, i + 1);
    }
  }

  lemma RegisterKeepsCuts(s: Tables, m: nat, deps: seq<Dependency>, callback: Callback, errorback: bool)
    requires CutsValid(s) && m !in s.declared
    ensures CutsValid(Register(s, m, deps, callback, errorback))
  {
    var t := Register(s, m, deps, callback, errorback);
    forall e | e in DeclaredEdges(s) ensures e in DeclaredEdges(t) {
      var i :| 0 <= i < |s.declared[e.0]| && s.declared[e.0][i].Id() == e.1;
      assert t.declared[e.0][i].Id() == e.1;
    }
    forall c | c in t.cuts ensures CutValid(t, c.0, c.1) {
      assert CutValid(s, c.0, c.1);
      ReachMonotone(DeclaredEdges(s), DeclaredEdges(t), c.1, c.0);
    }
  }

  lemma RegisterKeepsCounts(s: Tables, m: nat, deps: seq<Dependency>, callback: Callback, errorback: bool)
    requires RecordsValid(s) && WaitersValid(s) && CountsValid(s, multiset{}) && LostValid(s) && m !in s.modules
    ensures CountsValid(Register(s, m, deps, callback, errorback), Owed(m, |deps|))
  {
    var t := Register(s, m, deps, callback, errorback);
    assert m !in s.invoked;
    forall d | d in s.inverse ensures m !in s.inverse[d] {
      forall j | 0 <= j < |s.inverse[d]| ensures s.inverse[d][j] != m { assert WaiterValid(s, s.inverse[d][j], d); }
    }
    NoOccurrences(s.inverse, m, s.nextId);
    forall x | x in t.modules ensures CountValid(t, Owed(m, |deps|), x) {
      assert x != m ==> CountValid(s, multiset{}, x);
    }
  }

  lemma RegisterKeepsRecords(s: Tables, m: nat, deps: seq<Dependency>, callback: Callback, errorback: bool)
    requires IdsValid(s) && RecordsValid(s) && m !in s.modules && m < s.nextId && AllocatedDeps(s, deps)
    ensures IdsValid(Register(s, m, deps, callback, errorback))
            && RecordsValid(Register(s, m, deps, callback, errorback))
  {
    var t := Register(s, m, deps, callback, errorback);
    forall x | x in t.modules ensures RecordValid(t, x) {
      assert x != m ==> RecordValid(s, x);
    }
  }

  lemma RegisterKeepsCore(s: Tables, m: nat, deps: seq<Dependency>, callback: Callback, errorback: bool)
    requires Core(s, multiset{}) && m !in s.modules && m < s.nextId && AllocatedDeps(s, deps)
    ensures Core(Register(s, m, deps, callback, errorback), Owed(m, |deps|))
  {
    var t := Register(s, m, deps, callback, errorback);
    assert m !in s.invoked;
    RegisterKeepsCounts(s, m, deps, callback, errorback);
    RegisterKeepsRecords(s, m, deps, callback, errorback);
    forall d, j | d in t.inverse && 0 <= j < |t.inverse[d]| ensures WaiterValid(t, t.inverse[d][j], d) {
      assert WaiterValid(s, s.inverse[d][j], d);
    }
    RegisterKeepsCuts(s, m, deps, callback, errorback);
    assert Waits(t) == Waits(s);
  }

  lemma RegisterStartsResolving(s: Tables, m: nat, deps: seq<Dependency>, callback: Callback, errorback: bool)
    requires Quiet(s) && m !in s.modules && m < s.nextId && AllocatedDeps(s, deps)
    ensures Resolving(Register(s, m, deps, callback, errorback), m, deps, 0)
  {
    var t := Register(s, m, deps, callback, errorback);
    RegisterKeepsCore(s, m, deps, callback, errorback);
    forall x | x in t.modules && x in t.declared && !t.modules[x].complete && x != m
      ensures SettledUpto(t, x, |t.declared[x]|)
    {
      assert SettledUpto(s, x, |s.declared[x]|);
      forall k | 0 <= k < |t.declared[x]| && t.declared[x][k].Regular?
        ensures DependencySettled(t, x, t.declared[x][k].target)
      {
        assert DependencySettled(s, x, s.declared[x][k].target);
      }
    }
  }

  lemma DefineKeepsQuiet(s: Tables, m: nat, deps: seq<Dependency>, callback: Callback, errorback: bool)
    requires WaitersDefined(s) && Quiet(s) && m < s.nextId && AllocatedDeps(s, deps)
    ensures Quiet(Define(s, m, deps, callback, errorback))
  {
    if m !in s.modules {
      RegisterStartsResolving(s, m, deps, callback, errorback);
      ResolveKeepsQuiet(Register(s, m, deps, callback, errorback), m, deps, 0);
    }
  }

  // ---- _onLoadError ----

  lemma PlaceholderKeepsCore(s: Tables, m: nat)
    requires Quiet(s) && m < s.nextId
    ensures Core(WithPlaceholder(s, m), multiset{})
    ensures SettledExcept(WithPlaceholder(s, m), m) && NoneReady(WithPlaceholder(s, m), {m})
  {
    if m !in s.modules {
      RegisterStartsResolving(s, m, [], Factory(Returns), false);
      assert Owed(m, 0) == multiset{};
    }
  }

  /** Marking any set of modules complete with an error keeps the tables consistent. */
  ghost predicate Marked(p: Tables, t: Tables) {
    && t == p.(modules := t.modules, reports := t.reports)
    && t.modules.Keys == p.modules.Keys
    && forall x :: x in p.modules ==>
         t.modules[x] == p.modules[x] ||
         (t.modules[x].error.Some? && t.modules[x] == p.modules[x].(complete := true, error := t.modules[x].error))
  }

  lemma MarkingKeepsCore(p: Tables, t: Tables)
    requires Core(p, multiset{}) && Marked(p, t)
    ensures Core(t, multiset{})
  {
    MarkingKeepsRecords(p, t);
    forall d, j | d in t.inverse && 0 <= j < |t.inverse[d]| ensures WaiterValid(t, t.inverse[d][j], d) {
      assert WaiterValid(p, p.inverse[d][j], d);
    }
    CutsTransfer(p, t);
    assert Waits(t) == Waits(p);
  }

  lemma MarkingKeepsRecords(p: Tables, t: Tables)
    requires IdsValid(p) && RecordsValid(p) && CountsValid(p, multiset{}) && Marked(p, t)
    ensures IdsValid(t) && RecordsValid(t) && CountsValid(t, multiset{})
  {
    forall x | x in t.modules ensures RecordValid(t, x) && CountValid(t, multiset{}, x) {
      assert RecordValid(p, x) && CountValid(p, multiset{}, x);
    }
  }

  lemma MarkingKeepsSettled(p: Tables, t: Tables, m: nat)
    requires SettledExcept(p, m) && Marked(p, t)
    requires m in t.modules && t.modules[m].complete
    ensures Settled(t)
  {
    forall x | x in t.modules && x in t.declared && !t.modules[x].complete
      ensures SettledUpto(t, x, |t.declared[x]|)
    {
      assert SettledUpto(p, x, |p.declared[x]|);
      forall k | 0 <= k < |t.declared[x]| && t.declared[x][k].Regular?
        ensures DependencySettled(t, x, t.declared[x][k].target)
      {
        assert DependencySettled(p, x, p.declared[x][k].target);
      }
    }
  }

  lemma LoadFailedMarks(s: Tables, m: nat, throwing: set<nat>)
    requires WaitersDefined(s)
    ensures Marked(WithPlaceholder(s, m), LoadFailed(s, m, throwing)) && Failed(LoadFailed(s, m, throwing), m)
  {
    var t := WithPlaceholder(s, m);
    assert Walked(t, [m], {m})[0] == m;
    assert Told(t, m, throwing)[0] == m;
  }

  lemma LoadFailedKeepsQuiet(s: Tables, m: nat, throwing: set<nat>)
    requires WaitersDefined(s) && Quiet(s) && m < s.nextId
    ensures Quiet(LoadFailed(s, m, throwing))
  {
    PlaceholderKeepsCore(s, m);
    LoadFailedMarks(s, m, throwing);
    MarkingKeepsCore(WithPlaceholder(s, m), LoadFailed(s, m, throwing));
    MarkingKeepsSettled(WithPlaceholder(s, m), LoadFailed(s, m, throwing), m);
  }

  // ---- Whole runs ----

  lemma InternKeepsCore(s: Tables)
    requires Core(s, multiset{})
    ensures Core(s.(nextId := s.nextId + 1), multiset{})
  {
    var t := s.(nextId := s.nextId + 1);
    forall x | x in t.modules ensures RecordValid(t, x) && CountValid(t, multiset{}, x) {
      assert RecordValid(s, x) && CountValid(s, multiset{}, x);
    }
    forall d, j | d in t.inverse && 0 <= j < |t.inverse[d]| ensures WaiterValid(t, t.inverse[d][j], d) {
      assert WaiterValid(s, s.inverse[d][j], d);
    }
    CutsTransfer(s, t);
    assert Waits(t) == Waits(s);
  }

  lemma InternKeepsQuiet(s: Tables)
    requires Quiet(s)
    ensures Quiet(s.(nextId := s.nextId + 1))
  {
    var t := s.(nextId := s.nextId + 1);
    InternKeepsCore(s);
    SettledTransfers(s, t, t.nextId);
    SettledWhole(t, t.nextId);
  }

  lemma InternApplied(s: Tables, e: Event)
    requires WaitersDefined(s) && Quiet(s) && e.Intern?
    ensures Quiet(Apply(s, e))
  {
    InternKeepsQuiet(s);
  }

  lemma DefineApplied(s: Tables, e: Event)
    requires WaitersDefined(s) && Quiet(s) && Enabled(s, e) && e.Defines?
    ensures Quiet(Apply(s, e))
  {
    DefineKeepsQuiet(s, e.m, e.deps, e.callback, e.errorback);
  }

  lemma LoadFailedApplied(s: Tables, e: Event)
    requires WaitersDefined(s) && Quiet(s) && Enabled(s, e) && e.FailsToLoad?
    ensures Quiet(Apply(s, e))
  {
    LoadFailedKeepsQuiet(s, e.m, e.throwing);
  }

  lemma ApplyKeepsQuiet(s: Tables, e: Event)
    requires WaitersDefined(s) && Quiet(s) && Enabled(s, e)
    ensures Quiet(Apply(s, e))
  {
    if e.Defines? {
      DefineApplied(s, e);
    } else if e.FailsToLoad? {
      LoadFailedApplied(s, e);
    } else {
      InternApplied(s, e);
    }
  }

  /** The invariant holds after every run. */
  lemma {:induction false} RunKeepsQuiet(events: seq<Event>)
    ensures Quiet(Run(events))
    decreases |events|
  {
    if events == [] {
      forall v: nat ensures !Reach(Waits(EMPTY), v, v) {
        if Reach(Waits(EMPTY), v, v) {
          var mid :| Walk(Waits(EMPTY), v, mid, v);
          WalkEndsInTarget(Waits(EMPTY), v, mid, v);
        }
      }
    } else {
      RunKeepsQuiet(events[..|events| - 1]);
      var s := Run(events[..|events| - 1]);
      if Enabled(s, events[|events| - 1]) {
        ApplyKeepsQuiet(s, events[|events| - 1]);
      }
    }
  }
}
