/** Exceptions that leave a factory. Without catchError nothing on the way up catches them, so
    they cut short every loop over waiters that is on the stack. */
module LoaderExceptions {
  import opened Collections
  import opened Graphs
  import opened Options
  import opened LoaderSpec
  import opened LoaderTheorems
  import opened LoaderStranding

  // ---- Runs without them ----

  ghost predicate Tame(s: Tables) {
    forall m :: m in s.modules ==> !s.modules[m].callback.Escapes()
  }

  /** No exception leaves a factory between s and t, and none can later. */
  ghost predicate StaysTame(s: Tables, t: Tables) {
    Tame(t) && t.escaped == s.escaped
  }

  lemma {:induction false} OnModuleCompleteStaysTame(s: Tables, m: nat)
    requires Tame(s) && m in s.modules && WaitersDefined(s)
    ensures StaysTame(s, OnModuleComplete(s, m))
    decreases Incomplete(s), 0
  {
    if !s.modules[m].complete {
      var t := ClearWaiters(Complete(s, m), m);
      assert Incomplete(t) == Incomplete(s) - {m};
      ReleaseStaysTame(t, Waiters(s, m));
    }
  }

  lemma {:induction false} ReleaseStaysTame(s: Tables, waiters: seq<nat>)
    requires Tame(s) && WaitersDefined(s) && forall w :: w in waiters ==> w in s.modules
    ensures StaysTame(s, Release(s, waiters))
    decreases Incomplete(s), 2 + |waiters|
  {
    if waiters != [] {
      var t := Decrement(s, waiters[0]);
      assert Incomplete(t) == Incomplete(s);
      if t.modules[waiters[0]].unresolved == 0 {
        OnModuleCompleteStaysTame(t, waiters[0]);
      }
      ReleaseStaysTame(ReleaseOne(s, waiters[0]), waiters[1..]);
    }
  }

  lemma {:induction false} ResolveStaysTame(s: Tables, m: nat, deps: seq<Dependency>, i: nat)
    requires Tame(s) && m in s.modules && WaitersDefined(s) && i <= |deps|
    ensures StaysTame(s, Resolve(s, m, deps, i))
    decreases |deps| - i
  {
    if i == |deps| {
      if s.modules[m].unresolved == 0 { OnModuleCompleteStaysTame(s, m); }
    } else if !(deps[i].Regular? && Failed(s, deps[i].target)) {
      assert StaysTame(s, Examine(s, m, deps[i]));
      ResolveStaysTame(Examine(s, m, deps[i]), m, deps, i + 1);
    }
  }

  ghost predicate TameEvent(e: Event) {
    e.Defines? ==> !e.callback.Escapes()
  }

  lemma ApplyStaysTame(s: Tables, e: Event)
    requires Tame(s) && WaitersDefined(s) && Enabled(s, e) && TameEvent(e)
    ensures StaysTame(s, Apply(s, e))
  {
    if e.Defines? && e.m !in s.modules {
      ResolveStaysTame(Register(s, e.m, e.deps, e.callback, e.errorback), e.m, e.deps, 0);
    }
  }

  lemma {:induction false} RunStaysTame(events: seq<Event>)
    requires forall i :: 0 <= i < |events| ==> TameEvent(events[i])
    ensures StaysTame(EMPTY, Run(events))
    decreases |events|
  {
    if events != [] {
      var n := |events| - 1;
      RunStaysTame(events[..n]);
      assert TameEvent(events[n]);
      if Enabled(Run(events[..n]), events[n]) { ApplyStaysTame(Run(events[..n]), events[n]); }
    }
  }

  /** If no exception leaves a factory or the handler it is reported to, and nothing fails, then
      as soon as everything awaited is defined, every defined module has run. */
  lemma NoDeadlockWithoutExceptions(events: seq<Event>, m: nat)
    requires forall i :: 0 <= i < |events| ==> TameEvent(events[i])
    requires forall d :: d in Run(events).inverse && Run(events).inverse[d] != [] ==> d in Run(events).modules
    requires forall d :: d in Run(events).modules ==> !Failed(Run(events), d)
    requires m in Run(events).modules
    ensures m in Run(events).invoked
  {
    RunStaysTame(events);
    NoDeadlock(events, m);
  }

  // ---- A waiter of the module that throws ----

  /** The run that hands out ids 3 to 5. */
  lemma Interned()
    ensures Run([Intern, Intern, Intern]) == EMPTY.(nextId := 6)
  {
    assert Run([]) == EMPTY;
    RunStep([], Intern);
    assert [Intern] == [] + [Intern];
    RunStep([Intern], Intern);
    assert [Intern, Intern] == [Intern] + [Intern];
    RunStep([Intern, Intern], Intern);
    assert [Intern, Intern, Intern] == [Intern, Intern] + [Intern];
  }

  /** Then module 3 is defined, which waits for 5. */
  function OneWaits(callback: Callback, errorback: bool): seq<Event> {
    [Intern, Intern, Intern] + [Defines(3, [Regular(5)], callback, errorback)]
  }

  /** What defining a module that waits for an undefined one leaves. */
  lemma DefinedWaiting(s: Tables, w: nat, d: nat, callback: Callback, errorback: bool)
    requires WaitersDefined(s) && w !in s.modules && d !in s.modules && w != d
    ensures Define(s, w, [Regular(d)], callback, errorback) ==
            s.(modules := s.modules[w := Record(Some([Regular(d)]), callback, errorback, false, 1, false, None)],
               declared := s.declared[w := [Regular(d)]], inverse := s.inverse[d := Waiters(s, d) + [w]],
               known := s.known + {d}, requests := if d in s.known then s.requests else s.requests + [d])
  {
    WaitsForUndefined(s, w, d, callback, errorback);
    if d in s.known { assert s.known + {d} == s.known; }
  }

  function Waiting(callback: Callback, errorback: bool): Record {
    Record(Some([Regular(5)]), callback, errorback, false, 1, false, None)
  }

  function OneWaiter(callback: Callback, errorback: bool): Tables {
    EMPTY.(nextId := 6, modules := map[3 := Waiting(callback, errorback)], known := {5}, inverse := map[5 := [3]],
           requests := [5], declared := map[3 := [Regular(5)]])
  }

  lemma OneWaiting(callback: Callback, errorback: bool)
    ensures Run(OneWaits(callback, errorback)) == OneWaiter(callback, errorback)
  {
    Interned();
    RunStep([Intern, Intern, Intern], Defines(3, [Regular(5)], callback, errorback));
    var s := EMPTY.(nextId := 6);
    DefinedWaiting(s, 3, 5, callback, errorback);
    assert Waiters(s, 5) + [3] == [3] && s.requests + [5] == [5] && s.known + {5} == {5};
  }

  /** The factory of 5 throws. Everything awaited is defined and nothing has failed, yet module 3
      has not run, and by LoaderStranding.StrandedForever it never will. */
  lemma ExceptionStrandsWaiters()
    ensures var s := Run(OneWaits(Factory(Returns), false) + [Defines(5, [], Factory(ThrowsOut), false)]);
            && (forall d :: d in s.inverse ==> d in s.modules) && (forall d :: d in s.modules ==> !Failed(s, d))
            && 3 in s.modules && !s.modules[3].complete && Stranded(s, 3)
  {
    var events := OneWaits(Factory(Returns), false);
    OneWaiting(Factory(Returns), false);
    RunStep(events, Defines(5, [], Factory(ThrowsOut), false));
    var r := Register(Run(events), 5, [], Factory(ThrowsOut), false);
    assert Resolve(r, 5, [], 0) == Escape(r, 5);
    WaitsThere(Escape(r, 5), 5, 0);
  }

  lemma WaitsThere(s: Tables, d: nat, j: nat)
    requires d in s.inverse && j < |s.inverse[d]|
    ensures Reach(Waits(s), s.inverse[d][j], d)
  {
    assert (s.inverse[d][j], d) in Waits(s);
    ReachEdge(Waits(s), s.inverse[d][j], d);
  }

  // ---- A waiter further down the list ----

  /** Module 4 waits for 5, too. */
  function TwoWait(callback: Callback, errorback: bool): seq<Event> {
    OneWaits(callback, errorback) + [Defines(4, [Regular(5)], Factory(Returns), errorback)]
  }

  function TwoWaiters(callback: Callback, errorback: bool): Tables {
    EMPTY.(nextId := 6, known := {5}, inverse := map[5 := [3, 4]], requests := [5],
           modules := map[3 := Waiting(callback, errorback), 4 := Waiting(Factory(Returns), errorback)],
           declared := map[3 := [Regular(5)], 4 := [Regular(5)]])
  }

  lemma OneMoreWaits(callback: Callback, errorback: bool)
    ensures WaitersDefined(OneWaiter(callback, errorback))
    ensures Define(OneWaiter(callback, errorback), 4, [Regular(5)], Factory(Returns), errorback)
         == TwoWaiters(callback, errorback)
  {
    var s := OneWaiter(callback, errorback);
    DefinedWaiting(s, 4, 5, Factory(Returns), errorback);
    assert Waiters(s, 5) + [4] == [3, 4] && s.known + {5} == {5};
  }

  lemma TwoWaiting(callback: Callback, errorback: bool)
    ensures Run(TwoWait(callback, errorback)) == TwoWaiters(callback, errorback)
  {
    var events := OneWaits(callback, errorback);
    OneWaiting(callback, errorback);
    OneMoreWaits(callback, errorback);
    RunStep(events, Defines(4, [Regular(5)], Factory(Returns), errorback));
  }

  /** An exception that leaves module 3, be it the factory's or that of the handler its error is
      reported to, leaves the loop over the waiters of 5, so that 4 never learns that 5 has run:
      it waits for nothing any more, and yet never runs. */
  lemma ExceptionLosesDecrements(callback: Callback)
    requires callback.Escapes()
    ensures var s := Run(TwoWait(callback, false) + [Defines(5, [], Factory(Returns), false)]);
            && 5 in s.invoked && 5 !in s.escaped && Waits(s) == {}
            && 4 in s.modules && !s.modules[4].complete && Stranded(s, 4)
  {
    var events := TwoWait(callback, false);
    TwoWaiting(callback, false);
    RunStep(events, Defines(5, [], Factory(Returns), false));
    var r := Register(Run(events), 5, [], Factory(Returns), false);
    assert Resolve(r, 5, [], 0) == OnModuleComplete(r, 5);
    FirstWaiterThrows(r);
  }

  lemma FirstWaiterThrows(r: Tables)
    requires WaitersDefined(r) && {3, 4, 5} <= r.modules.Keys && r.inverse == map[5 := [3, 4]] && r.escaped == []
    requires r.modules[3].callback.Escapes() && !r.modules[3].complete && r.modules[3].unresolved == 1
    requires !r.modules[4].complete && !r.modules[5].complete && r.modules[5].callback == Factory(Returns)
    ensures var s := OnModuleComplete(r, 5);
            && s.invoked == r.invoked + [5, 3] && s.escaped == [3] && s.inverse == map[]
            && 4 in s.modules && s.modules[4] == r.modules[4] && s.lost == r.lost + multiset{4}
  {
    var t := ClearWaiters(Complete(r, 5), 5);
    var u := Escape(Decrement(t, 3), 3);
    assert ReleaseOne(t, 3) == u;
    assert [3, 4][1..] == [4];
    assert u.escaped == [3] && ThrewOut(t, u);
    assert Release(t, [3, 4]) == Abandon(u, [4]);
  }

  // ---- An errorback that throws ----

  /** Modules 3 and 4 wait for 5 and have an errorback each; 5 fails to load, and the errorback of 3
      throws: 4 has not failed, its errorback was not called, and no error was reported. It
      waits for 5, so that by LoaderStranding.StrandedForever it never runs. */
  lemma ErrorbackSilencesOthers()
    ensures var s := Run(TwoWait(Factory(Returns), true) + [FailsToLoad(5, {3})]);
            && Failed(s, 5) && Failed(s, 3) && s.reports == []
            && 4 in s.modules && !s.modules[4].complete && Stranded(s, 4)
  {
    var events := TwoWait(Factory(Returns), true);
    TwoWaiting(Factory(Returns), true);
    RunStep(events, FailsToLoad(5, {3}));
    var t := WithPlaceholder(Run(events), 5);
    ToldInOrder(t);
    assert WithErrorback(t, [5, 3]) == [3] by {
      assert [5, 3][1..] == [3] && [3][1..] == [];
      assert WithErrorback(t, [3]) == [3] + WithErrorback(t, []);
    }
    WaitsThere(LoadFailed(Run(events), 5, {3}), 5, 1);
  }

  lemma ToldInOrder(t: Tables)
    requires WaitersDefined(t) && {3, 4, 5} <= t.modules.Keys && t.inverse == map[5 := [3, 4]]
    requires !t.modules[5].errorback && t.modules[3].errorback
    ensures Told(t, 5, {3}) == [5, 3]
  {
    assert Unseen([4], {5, 3}) == [4] + Unseen([], {5, 3, 4}) by { assert [4][1..] == []; }
    assert Unseen([3, 4], {5}) == [3] + Unseen([4], {5} + {3}) by { assert [3, 4][1..] == [4]; }
    var walk, more := Walked(t, [5], {5}), Unseen(Waiters(t, 5), {5});
    assert more == [3, 4] && [5][1..] + more == [3, 4];
    var rest := Walked(t, [3, 4], {5} + Elements(more));
    assert [5][0] == 5 && walk == [5] + rest;
    assert rest[0] == 3;
    assert Uninterrupted(t, rest, {3}) == [3];
    assert walk[1..] == rest;
  }
}
