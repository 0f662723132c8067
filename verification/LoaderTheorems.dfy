/** What holds of the module manager after every run, whatever the dependency graph, the
    order of definitions, load failures and throwing factories. */
module LoaderTheorems {
  import opened Collections
  import opened Graphs
  import opened LoaderSpec
  import opened LoaderInvariant
  import opened LoaderSteps

  /** Whoever waits for d waits for good: d has failed, an exception left it as it ran, or a
      decrement it needs was lost to one. */
  ghost predicate Hopeless(s: Tables, d: nat) {
    Failed(s, d) || d in s.escaped || s.lost[d] > 0
  }

  /** m lost a decrement, or it waits, directly or through other waiting modules, for something
      that will not be resolved by the tables themselves: a hopeless module or one nobody has
      defined yet. */
  ghost predicate Blocked(s: Tables, m: nat) {
    s.lost[m] > 0 || exists d :: Reach(Waits(s), m, d) && (Hopeless(s, d) || d !in s.modules)
  }

  lemma IncompleteHasWait(s: Tables, m: nat)
    requires Quiet(s) && m in s.modules && !s.modules[m].complete && s.lost[m] == 0
    ensures exists d :: (m, d) in Waits(s)
  {
    assert CountValid(s, multiset{}, m);
    OccurrencesFound(s.inverse, m, s.nextId);
    var d :| d in s.inverse && m in s.inverse[d];
    var j :| 0 <= j < |s.inverse[d]| && s.inverse[d][j] == m;
    assert (s.inverse[d][j], d) in Waits(s);
  }

  /** Following waits from an incomplete module ends at a hopeless or undefined one, because
      the wait-for graph is acyclic. */
  lemma {:induction false} IncompleteIsBlocked(s: Tables, m: nat)
    requires Quiet(s) && m in s.modules && !s.modules[m].complete
    ensures Blocked(s, m)
    decreases Below(Waits(s), m)
  {
    if s.lost[m] == 0 {
      IncompleteHasWait(s, m);
      var d :| (m, d) in Waits(s);
      ReachEdge(Waits(s), m, d);
      assert WaiterValid(s, m, d);
      if d in s.modules && !Hopeless(s, d) {
        assert RecordValid(s, d);
        BelowShrinks(Waits(s), m, d);
        IncompleteIsBlocked(s, d);
        var e :| Reach(Waits(s), d, e) && (Hopeless(s, e) || e !in s.modules);
        ReachTrans(Waits(s), m, d, e);
      }
    }
  }

  lemma LoserHasNotRun(s: Tables, m: nat)
    requires Quiet(s) && s.lost[m] > 0
    ensures m in s.modules && m !in s.invoked && (s.modules[m].complete ==> Failed(s, m))
  {
    assert CountValid(s, multiset{}, m) && RecordValid(s, m);
  }

  lemma WaiterHasNotRun(s: Tables, m: nat, d: nat)
    requires Quiet(s) && Reach(Waits(s), m, d)
    ensures m in s.modules && m !in s.invoked && (s.modules[m].complete ==> Failed(s, m))
  {
    var mid :| Walk(Waits(s), m, mid, d);
    var y := if mid == [] then d else mid[0];
    assert (m, y) in Waits(s);
    assert WaiterValid(s, m, y) && RecordValid(s, m);
  }

  /** Deadlock freedom, exactly: after any run, a defined module that has not failed is still
      incomplete if and only if it is blocked. */
  lemma IncompleteIffBlocked(events: seq<Event>, m: nat)
    requires m in Run(events).modules && !Failed(Run(events), m)
    ensures !Run(events).modules[m].complete <==> Blocked(Run(events), m)
  {
    var s := Run(events);
    RunKeepsQuiet(events);
    if !s.modules[m].complete {
      IncompleteIsBlocked(s, m);
    } else if s.lost[m] > 0 {
      LoserHasNotRun(s, m);
    } else if Blocked(s, m) {
      var d :| Reach(Waits(s), m, d) && (Hopeless(s, d) || d !in s.modules);
      WaiterHasNotRun(s, m, d);
    }
  }

  /** No deadlock: when everything awaited has been defined, nothing has failed and no exception
      has left a module as it ran, every defined module has run, even when the dependency graph is cyclic. */
  lemma NoDeadlock(events: seq<Event>, m: nat)
    requires forall d :: d in Run(events).inverse && Run(events).inverse[d] != [] ==> d in Run(events).modules
    requires forall d :: d in Run(events).modules ==> !Failed(Run(events), d)
    requires Run(events).escaped == []
    requires m in Run(events).modules
    ensures m in Run(events).invoked
  {
    var s := Run(events);
    RunKeepsQuiet(events);
    IncompleteIffBlocked(events, m);
    if Blocked(s, m) {
      var d :| Reach(Waits(s), m, d) && (Hopeless(s, d) || d !in s.modules);
      var mid :| Walk(Waits(s), m, mid, d);
      WalkEndsInTarget(Waits(s), m, mid, d);
    }
    assert RecordValid(s, m);
  }

  /** Nothing is awaited in vain: whatever some module waits for is defined, or was requested
      from the script loader; and no script is requested twice. */
  lemma AwaitedIsDefinedOrRequested(events: seq<Event>)
    ensures forall e :: e in Waits(Run(events)) ==> e.1 in Run(events).modules || e.1 in Run(events).requests
    ensures NoDuplicates(Run(events).requests)
  {
    RunKeepsQuiet(events);
  }

  /** Factory safety: modules run at most once, and each regular dependency of a module that
      ran either ran before it or is a cut lying on a cycle of declared dependencies. */
  lemma FactoryOrder(events: seq<Event>, k: nat, d: nat)
    requires k < |Run(events).invoked|
    ensures NoDuplicates(Run(events).invoked)
    ensures Run(events).invoked[k] in Run(events).declared
    ensures Regular(d) in Run(events).declared[Run(events).invoked[k]] ==>
              d in Run(events).invoked[..k]
              || ((Run(events).invoked[k], d) in Run(events).cuts
                  && Reach(DeclaredEdges(Run(events)), d, Run(events).invoked[k]))
  {
    var s := Run(events);
    RunKeepsQuiet(events);
    assert s.invoked[k] in s.invoked;
    if Regular(d) in s.declared[s.invoked[k]] && d !in s.invoked[..k] {
      assert CutValid(s, s.invoked[k], d);
    }
  }

  /** On an acyclic dependency graph no edge is cut and modules run in topological order. */
  lemma TopologicalOrder(events: seq<Event>)
    requires Acyclic(DeclaredEdges(Run(events)))
    ensures Run(events).cuts == []
    ensures forall k: nat, d: nat :: k < |Run(events).invoked|
              && Run(events).invoked[k] in Run(events).declared
              && Regular(d) in Run(events).declared[Run(events).invoked[k]]
              ==> d in Run(events).invoked[..k]
  {
    var s := Run(events);
    RunKeepsQuiet(events);
    if s.cuts != [] {
      var c := s.cuts[0];
      assert CutValid(s, c.0, c.1);
      var i :| 0 <= i < |s.declared[c.0]| && s.declared[c.0][i] == Regular(c.1);
      assert (c.0, s.declared[c.0][i].Id()) in DeclaredEdges(s);
      ReachEdge(DeclaredEdges(s), c.0, c.1);
      ReachTrans(DeclaredEdges(s), c.0, c.1, c.0);
    }
  }

  /** Who regularly depends on whom, as declared. */
  ghost function RegularEdges(s: Tables): Graph {
    set m, i | m in s.declared && 0 <= i < |s.declared[m]| && s.declared[m][i].Regular? ::
      (m, s.declared[m][i].target)
  }

  lemma WaitsAreRegular(s: Tables)
    requires WaitersValid(s)
    ensures Waits(s) <= RegularEdges(s)
  {
    forall e | e in Waits(s) ensures e in RegularEdges(s) {
      assert WaiterValid(s, e.0, e.1);
      var i :| 0 <= i < |s.declared[e.0]| && s.declared[e.0][i] == Regular(e.1);
      assert (e.0, s.declared[e.0][i].target) in RegularEdges(s);
    }
  }

  /** On an acyclic graph, what a module that ran depends on ran. */
  lemma {:induction false} DependenciesRan(events: seq<Event>, m: nat, mid: seq<nat>, d: nat)
    requires Acyclic(DeclaredEdges(Run(events))) && m in Run(events).invoked
    requires Walk(RegularEdges(Run(events)), m, mid, d)
    ensures d in Run(events).invoked
    decreases |mid|
  {
    var s := Run(events);
    TopologicalOrder(events);
    var b := if mid == [] then d else mid[0];
    assert (m, b) in RegularEdges(s);
    var k :| 0 <= k < |s.invoked| && s.invoked[k] == m;
    assert Regular(b) in s.declared[s.invoked[k]];
    assert b in s.invoked[..k];
    if mid != [] { DependenciesRan(events, b, mid[1..], d); }
  }

  /** On an acyclic graph, without failures and exceptions, a defined module has run if and only
      if everything it depends on, directly or not, is defined; the order of events is
      immaterial. */
  lemma RunsIffAllDefined(events: seq<Event>, m: nat)
    requires Acyclic(DeclaredEdges(Run(events))) && m in Run(events).modules
    requires forall d :: d in Run(events).modules ==> !Failed(Run(events), d)
    requires Run(events).escaped == []
    ensures m in Run(events).invoked <==>
            forall d :: Reach(RegularEdges(Run(events)), m, d) ==> d in Run(events).modules
  {
    var s := Run(events);
    RunKeepsQuiet(events);
    assert RecordValid(s, m);
    if m in s.invoked {
      forall d | Reach(RegularEdges(s), m, d) ensures d in s.modules {
        var mid :| Walk(RegularEdges(s), m, mid, d);
        DependenciesRan(events, m, mid, d);
      }
    } else {
      IncompleteIsBlocked(s, m);
      var d :| Reach(Waits(s), m, d) && (Hopeless(s, d) || d !in s.modules);
      WaitsAreRegular(s);
      ReachMonotone(Waits(s), RegularEdges(s), m, d);
      assert d !in s.modules;
    }
  }

  /** The dependencies of modules that ran, without the cut ones. */
  ghost function UncutEdges(s: Tables): Graph {
    set m, i | m in s.invoked && m in s.declared && 0 <= i < |s.declared[m]|
               && s.declared[m][i].Regular? && (m, s.declared[m][i].target) !in s.cuts ::
      (m, s.declared[m][i].target)
  }

  ghost function Position(s: seq<nat>, m: nat): nat {
    if s == [] then 0 else if s[0] == m then 0 else 1 + Position(s[1..], m)
  }

  lemma {:induction false} PositionOf(s: seq<nat>, k: nat)
    requires NoDuplicates(s) && k < |s|
    ensures Position(s, s[k]) == k
    decreases k
  {
    if k > 0 { PositionOf(s[1..], k - 1); }
  }

  /** Cutting is complete: once the cut edges are taken out, the modules that ran depend on
      each other acyclically. So every dependency cycle that ran contains a cut edge. */
  lemma CutsBreakAllCycles(events: seq<Event>)
    ensures Acyclic(UncutEdges(Run(events)))
  {
    var s := Run(events);
    RunKeepsQuiet(events);
    var rank := (m: nat) => Position(s.invoked, m);
    forall x, y | (x, y) in UncutEdges(s) ensures rank(y) < rank(x) {
      var k :| 0 <= k < |s.invoked| && s.invoked[k] == x;
      assert y in s.invoked[..k];
      var j :| 0 <= j < k && s.invoked[j] == y;
      PositionOf(s.invoked, k);
      PositionOf(s.invoked, j);
    }
    forall v: nat ensures !Reach(UncutEdges(s), v, v) {
      if Reach(UncutEdges(s), v, v) {
        var mid :| Walk(UncutEdges(s), v, mid, v);
        WalkDescends(UncutEdges(s), rank, v, mid, v);
      }
    }
  }
}
