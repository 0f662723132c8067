/** Failures reach the modules that wait when _onLoadError runs, but a module that fails while
    it is being resolved does not tell its own waiters, and an exception that leaves a module
    keeps its waiters, and those further up, from being told that it is complete. All of these
    are stranded: they never run, whatever happens later. */
module LoaderStranding {
  import opened Graphs
  import opened LoaderSpec
  import opened LoaderInvariant
  import opened LoaderSteps
  import opened LoaderTheorems
  import LoaderFlood

  ghost predicate Stranded(s: Tables, m: nat) {
    s.lost[m] > 0 || exists d :: Hopeless(s, d) && Reach(Waits(s), m, d)
  }

  ghost predicate Doomed(s: Tables, m: nat) {
    Hopeless(s, m) || Stranded(s, m)
  }

  /** What is hopeless stays so, and so does whatever waits for a doomed module. */
  ghost predicate KeepsDoom(s: Tables, t: Tables) {
    && (forall d :: Hopeless(s, d) ==> Hopeless(t, d)) && s.lost <= t.lost
    && (forall e :: e in Waits(s) && Doomed(s, e.1) ==> e in Waits(t))
  }

  lemma {:induction false} DoomedWalk(s: Tables, t: Tables, m: nat, mid: seq<nat>, d: nat)
    requires KeepsDoom(s, t) && Hopeless(s, d) && Walk(Waits(s), m, mid, d)
    ensures Walk(Waits(t), m, mid, d)
    decreases |mid|
  {
    if mid != [] {
      DoomedWalk(s, t, mid[0], mid[1..], d);
      assert Reach(Waits(s), mid[0], d);
    }
  }

  lemma DoomedStays(s: Tables, t: Tables, m: nat)
    requires KeepsDoom(s, t) && Doomed(s, m)
    ensures Doomed(t, m)
  {
    if !Hopeless(s, m) {
      var d :| Hopeless(s, d) && Reach(Waits(s), m, d);
      var mid :| Walk(Waits(s), m, mid, d);
      DoomedWalk(s, t, m, mid, d);
    }
  }

  lemma KeepsDoomTrans(s: Tables, t: Tables, u: Tables)
    requires KeepsDoom(s, t) && KeepsDoom(t, u)
    ensures KeepsDoom(s, u)
  {
    forall e | e in Waits(s) && Doomed(s, e.1) ensures e in Waits(u) {
      DoomedStays(s, t, e.1);
    }
  }

  /** Growing waits, failures and exceptions keep doom. */
  lemma GrowingKeepsDoom(s: Tables, t: Tables)
    requires Waits(s) <= Waits(t) && s.lost <= t.lost && forall d :: d in s.escaped ==> d in t.escaped
    requires forall d :: Failed(s, d) ==> Failed(t, d)
    ensures KeepsDoom(s, t)
  {}

  lemma CompleteKeepsDoom(s: Tables, m: nat, pending: multiset<nat>)
    requires m in s.modules && Core(s, pending)
    requires !s.modules[m].complete && s.modules[m].unresolved == 0
    ensures KeepsDoom(s, ClearWaiters(Complete(s, m), m))
  {
    var t := ClearWaiters(Complete(s, m), m);
    NothingAwaited(s, m, pending);
    forall e | e in Waits(s) && Doomed(s, e.1) ensures e in Waits(t) {
      var j :| 0 <= j < |s.inverse[e.1]| && s.inverse[e.1][j] == e.0;
      assert t.inverse[e.1][j] == e.0;
    }
  }

  lemma {:induction false} OnModuleCompleteKeepsDoom(s: Tables, m: nat, pending: multiset<nat>)
    requires WaitersDefined(s) && m in s.modules
    requires Core(s, pending) && Settled(s) && NoneReady(s, {m})
    requires s.modules[m].complete || s.modules[m].unresolved == 0
    ensures KeepsDoom(s, OnModuleComplete(s, m))
    decreases Incomplete(s), 0
  {
    if s.modules[m].complete {
      GrowingKeepsDoom(s, s);
    } else if s.modules[m].callback.Escapes() {
      assert Waits(Escape(s, m)) == Waits(s);
      GrowingKeepsDoom(s, Escape(s, m));
    } else {
      var t := ClearWaiters(Complete(s, m), m);
      assert Incomplete(t) == Incomplete(s) - {m};
      CompleteKeepsCore(s, m, pending);
      CompleteKeepsSettled(s, m);
      CompleteKeepsDoom(s, m, pending);
      ReleaseKeepsDoom(t, Waiters(s, m), pending);
      KeepsDoomTrans(s, t, OnModuleComplete(s, m));
    }
  }

  lemma {:induction false} ReleaseOneKeepsDoom(s: Tables, w: nat, pending: multiset<nat>)
    requires WaitersDefined(s) && w in s.modules
    requires Core(s, pending + multiset{w}) && Settled(s) && NoneReady(s, {})
    ensures KeepsDoom(s, ReleaseOne(s, w))
    decreases Incomplete(s), 1
  {
    var t := Decrement(s, w);
    assert Waits(t) == Waits(s);
    GrowingKeepsDoom(s, t);
    DecrementKeepsCore(s, w, pending);
    DecrementKeepsSettled(s, w);
    assert Incomplete(t) == Incomplete(s);
    if t.modules[w].unresolved == 0 {
      OnModuleCompleteKeepsDoom(t, w, pending);
      KeepsDoomTrans(s, t, OnModuleComplete(t, w));
    }
  }

  lemma AbandonKeepsDoom(s: Tables, waiters: seq<nat>)
    ensures KeepsDoom(s, Abandon(s, waiters))
  {
    assert Waits(Abandon(s, waiters)) == Waits(s);
    GrowingKeepsDoom(s, Abandon(s, waiters));
  }

  lemma {:induction false} ReleaseKeepsDoom(s: Tables, waiters: seq<nat>, pending: multiset<nat>)
    requires WaitersDefined(s) && forall w :: w in waiters ==> w in s.modules
    requires Core(s, pending + multiset(waiters)) && Settled(s) && NoneReady(s, {})
    ensures KeepsDoom(s, Release(s, waiters))
    decreases Incomplete(s), 2 + |waiters|
  {
    if waiters != [] {
      var owed := pending + multiset(waiters[1..]);
      OwedFirst(waiters, pending);
      var t := ReleaseOne(s, waiters[0]);
      ReleaseOneKeeps(s, waiters[0], owed);
      ReleaseOneKeepsDoom(s, waiters[0], owed);
      if ThrewOut(s, t) {
        AbandonKeepsDoom(t, waiters[1..]);
        KeepsDoomTrans(s, t, Abandon(t, waiters[1..]));
      } else {
        ReleaseKeepsDoom(t, waiters[1..], pending);
        KeepsDoomTrans(s, t, Release(t, waiters[1..]));
      }
    }
  }

  lemma ExamineKeepsDoom(s: Tables, m: nat, dep: Dependency)
    requires WaitersDefined(s) && m in s.modules
    ensures KeepsDoom(s, Examine(s, m, dep))
  {
    if dep.Regular? {
      AwaitAddsEdge(s, m, dep.target);
    }
    var t := Examine(s, m, dep);
    assert t.inverse == s.inverse ==> Waits(t) == Waits(s);
    GrowingKeepsDoom(s, t);
  }

  lemma {:induction false} ResolveKeepsDoom(s: Tables, m: nat, deps: seq<Dependency>, i: nat)
    requires WaitersDefined(s) && Resolving(s, m, deps, i)
    ensures KeepsDoom(s, Resolve(s, m, deps, i))
    decreases |deps| - i
  {
    if i == |deps| {
      assert Owed(m, 0) == multiset{};
      SettledWhole(s, m);
      if s.modules[m].unresolved == 0 {
        OnModuleCompleteKeepsDoom(s, m, multiset{});
      } else {
        GrowingKeepsDoom(s, s);
      }
    } else if deps[i].Regular? && Failed(s, deps[i].target) {
      var t := OnDependencyError(s, m, s.modules[deps[i].target].error.value);
      assert Waits(t) == Waits(s);
      GrowingKeepsDoom(s, t);
    } else {
      var t := Examine(s, m, deps[i]);
      ExamineKeepsResolving(s, m, deps, i);
      ExamineKeepsDoom(s, m, deps[i]);
      ResolveKeepsDoom(t, m, deps, i + 1);
      KeepsDoomTrans(s, t, Resolve(t, m, deps, i + 1));
    }
  }

  lemma DefineKeepsDoom(s: Tables, m: nat, deps: seq<Dependency>, callback: Callback, errorback: bool)
    requires WaitersDefined(s) && Quiet(s) && m < s.nextId && AllocatedDeps(s, deps)
    ensures KeepsDoom(s, Define(s, m, deps, callback, errorback))
  {
    if m !in s.modules {
      var t := Register(s, m, deps, callback, errorback);
      RegisterStartsResolving(s, m, deps, callback, errorback);
      assert Waits(t) == Waits(s);
      GrowingKeepsDoom(s, t);
      ResolveKeepsDoom(t, m, deps, 0);
      KeepsDoomTrans(s, t, Resolve(t, m, deps, 0));
    } else {
      GrowingKeepsDoom(s, s);
    }
  }

  lemma LoadFailedKeepsDoom(s: Tables, m: nat, throwing: set<nat>)
    requires WaitersDefined(s)
    ensures KeepsDoom(s, LoadFailed(s, m, throwing))
  {
    var t := LoadFailed(s, m, throwing);
    assert Waits(t) == Waits(s);
    forall d | Failed(s, d) ensures Failed(t, d) {
      assert d in s.modules && d in t.modules;
    }
    GrowingKeepsDoom(s, t);
  }

  lemma ApplyKeepsDoom(s: Tables, e: Event)
    requires WaitersDefined(s) && Quiet(s) && Enabled(s, e)
    ensures KeepsDoom(s, Apply(s, e))
  {
    match e
    case Intern =>
      assert Waits(Apply(s, e)) == Waits(s);
      GrowingKeepsDoom(s, Apply(s, e));
    case Defines(m, deps, callback, errorback) => DefineKeepsDoom(s, m, deps, callback, errorback);
    case FailsToLoad(m, throwing) => LoadFailedKeepsDoom(s, m, throwing);
  }

  lemma {:induction false} RunKeepsDoom(events: seq<Event>, more: seq<Event>)
    ensures KeepsDoom(Run(events), Run(events + more))
    decreases |more|
  {
    if more == [] {
      assert events + more == events;
      GrowingKeepsDoom(Run(events), Run(events));
    } else {
      var fewer := more[..|more| - 1];
      assert (events + more)[..|events + more| - 1] == events + fewer;
      RunKeepsDoom(events, fewer);
      RunKeepsQuiet(events + fewer);
      var t := Run(events + fewer);
      if Enabled(t, more[|more| - 1]) {
        ApplyKeepsDoom(t, more[|more| - 1]);
        KeepsDoomTrans(Run(events), t, Run(events + more));
      }
    }
  }

  /** Stranded modules are stranded for good: no continuation ever runs them. */
  lemma StrandedForever(events: seq<Event>, more: seq<Event>, m: nat)
    requires Stranded(Run(events), m)
    ensures m !in Run(events + more).invoked
  {
    RunKeepsDoom(events, more);
    RunKeepsQuiet(events + more);
    var s, t := Run(events), Run(events + more);
    if s.lost[m] > 0 {
      LoserHasNotRun(t, m);
    } else {
      var d :| Hopeless(s, d) && Reach(Waits(s), m, d);
      var mid :| Walk(Waits(s), m, mid, d);
      DoomedWalk(s, t, m, mid, d);
      WaiterHasNotRun(t, m, d);
    }
  }

  // ---- It does happen ----

  /** Module 3 waits for 4; 5 fails to load; then 4 is defined and fails because of 5. */
  const STRANDING: seq<Event> := [
    Intern, Intern, Intern,
    Defines(3, [Regular(4)], Factory(Returns), false),
    FailsToLoad(5, {}),
    Defines(4, [Regular(5)], Factory(Returns), false)]

  /** What the tables hold after a definition that waits for its only, undefined dependency. */
  lemma WaitsForUndefined(s: Tables, w: nat, d: nat, callback: Callback, errorback: bool)
    requires WaitersDefined(s) && w !in s.modules && d !in s.modules && w != d
    ensures Define(s, w, [Regular(d)], callback, errorback)
         == Await(Register(s, w, [Regular(d)], callback, errorback), w, d)
  {
    var r := Register(s, w, [Regular(d)], callback, errorback);
    assert !ClosesCycle(r, w, d);
    assert Resolve(r, w, [Regular(d)], 0) == Resolve(Await(r, w, d), w, [Regular(d)], 1);
  }

  lemma StrandingBegins()
    ensures WaitersDefined(Run(STRANDING[..4]))
    ensures var s := Run(STRANDING[..4]);
            && s.nextId == 6 && s.modules.Keys == {3} && !s.modules[3].complete
            && s.inverse == map[4 := [3]]
  {
    assert Run([]) == EMPTY;
    RunStep([], Intern);
    assert [Intern] == [] + [Intern];
    RunStep([Intern], Intern);
    assert [Intern, Intern] == [Intern] + [Intern];
    RunStep([Intern, Intern], Intern);
    assert STRANDING[..3] == [Intern, Intern] + [Intern];
    assert Run(STRANDING[..3]) == EMPTY.(nextId := 6);
    RunStep(STRANDING[..3], STRANDING[3]);
    assert STRANDING[..4] == STRANDING[..3] + [STRANDING[3]];
    WaitsForUndefined(Run(STRANDING[..3]), 3, 4, Factory(Returns), false);
    assert Waiters(Run(STRANDING[..3]), 4) + [3] == [3];
  }

  lemma StrandingContinues()
    ensures WaitersDefined(Run(STRANDING[..5]))
    ensures var s := Run(STRANDING[..5]);
            && s.nextId == 6 && s.modules.Keys == {3, 5} && !s.modules[3].complete && Failed(s, 5)
            && s.inverse == map[4 := [3]]
  {
    StrandingBegins();
    RunStep(STRANDING[..4], STRANDING[4]);
    assert STRANDING[..5] == STRANDING[..4] + [STRANDING[4]];
    LoaderFlood.NobodyWaits(WithPlaceholder(Run(STRANDING[..4]), 5), 5, {});
  }

  lemma DefineFails(s: Tables)
    requires WaitersDefined(s) && 4 !in s.modules && Failed(s, 5)
    ensures var t := Define(s, 4, [Regular(5)], Factory(Returns), false);
            && t.modules.Keys == s.modules.Keys + {4} && Failed(t, 4) && t.inverse == s.inverse
            && forall m :: m in s.modules ==> t.modules[m] == s.modules[m]
  {
    var r := Register(s, 4, [Regular(5)], Factory(Returns), false);
    assert Failed(r, 5);
    assert Resolve(r, 4, [Regular(5)], 0) == OnDependencyError(r, 4, r.modules[5].error.value);
  }

  /** After STRANDING everything awaited is defined, yet module 3 has neither run nor failed;
      by StrandedForever it never will run. */
  lemma StrandingHappens()
    ensures var s := Run(STRANDING);
            && (forall d :: d in s.inverse ==> d in s.modules)
            && 3 in s.modules && !s.modules[3].complete && Stranded(s, 3)
  {
    StrandingContinues();
    RunStep(STRANDING[..5], STRANDING[5]);
    assert STRANDING == STRANDING[..5] + [STRANDING[5]];
    DefineFails(Run(STRANDING[..5]));
    var s := Run(STRANDING);
    assert (s.inverse[4][0], 4) in Waits(s);
    ReachEdge(Waits(s), 3, 4);
  }
}
