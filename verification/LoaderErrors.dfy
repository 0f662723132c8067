/** Who hears of an error: of a script that fails to load, of a factory that throws. */
module LoaderErrors {
  import opened Collections
  import opened Options
  import opened LoaderSpec
  import opened LoaderFlood
  import opened LoaderRuns

  // ---- A script that fails to load ----

  /** The error made of a module that fails to load. */
  ghost predicate IsLoadErrorOf(s: Tables, m: nat, err: LoadError) {
    && err.phase == Loading && err.moduleId == m
    && err.neededBy == (if m in s.inverse then s.inverse[m] else [])
    && forall x :: x in err.neededBy <==> (x, m) in Waits(s)
  }

  /** The module, or one that waits for it, has an errorback. */
  ghost predicate SomebodyListens(s: Tables, m: nat) {
    exists x :: x in Affected(s, m) && x in s.modules && s.modules[x].errorback
  }

  /** From s to t the load failure of m was reported, unless somebody listens, and became the error of
      m. */
  ghost predicate FailureReported(s: Tables, t: Tables, m: nat) {
    && m in t.modules && t.modules[m].complete && t.modules[m].error.Some?
    && IsLoadErrorOf(s, m, t.modules[m].error.value)
    && t.reports == if SomebodyListens(s, m) then s.reports else s.reports + [t.modules[m].error.value]
  }

  /** A load failure reaches the configured handler, once and with what waits for the module, if and
      only if no errorback is there to take it; and it is the error of the module afterwards. */
  lemma LoadFailureIsReportedIff(s: Tables, m: nat, throwing: set<nat>)
    requires WaitersDefined(s)
    ensures FailureReported(s, LoadFailed(s, m, throwing), m)
  {
    var p, err := WithPlaceholder(s, m), LoadError(Loading, m, Waiters(s, m));
    assert Waits(p) == Waits(s);
    HandlerHearsIff(p, m, throwing);
    WalkIsAffected(p, m);
    ToldIff(p, m, throwing, 0);
    assert IsLoadErrorOf(s, m, err);
  }

  /** What becomes of a module that was in the walk at place k: it fails, unless an errorback in front
      of it throws. */
  lemma FailureSpreads(s: Tables, m: nat, throwing: set<nat>, k: nat) returns (err: LoadError)
    requires WaitersDefined(s)
    requires k < |Walked(WithPlaceholder(s, m), [m], {m})|
    requires Walked(WithPlaceholder(s, m), [m], {m})[k] in WithPlaceholder(s, m).modules
    ensures IsLoadErrorOf(s, m, err)
    ensures var p := WithPlaceholder(s, m); var order := Walked(p, [m], {m}); var x := order[k];
            LoadFailed(s, m, throwing).modules[x] ==
              if Unbroken(p, order, k, throwing) then p.modules[x].(complete := true, error := Some(err))
              else p.modules[x]
  {
    var p := WithPlaceholder(s, m);
    err := LoadError(Loading, m, Waiters(s, m));
    ToldIff(p, m, throwing, k);
  }

  /** Nothing else changes: not the modules outside the walk, nor any table but those of modules and
      reports. */
  lemma FailureSpreadsNoFurther(s: Tables, m: nat, throwing: set<nat>)
    requires WaitersDefined(s)
    ensures var p, t := WithPlaceholder(s, m), LoadFailed(s, m, throwing);
            && t.modules.Keys == s.modules.Keys + {m} && t == p.(modules := t.modules, reports := t.reports)
            && forall x :: x in p.modules && x !in Affected(s, m) ==> t.modules[x] == p.modules[x]
  {
    var p := WithPlaceholder(s, m);
    assert Waits(p) == Waits(s);
    WalkIsAffected(p, m);
    UninterruptedIs(p, Walked(p, [m], {m}), throwing);
    PrefixIsAmong(Told(p, m, throwing), Walked(p, [m], {m}), Affected(p, m));
  }

  // ---- The order of the walk ----

  /** The waiter lists of some modules, one after the other. */
  function AllWaiters(s: Tables, order: seq<nat>): seq<nat> {
    if order == [] then [] else Waiters(s, order[0]) + AllWaiters(s, order[1..])
  }

  lemma {:induction false} UnseenConcat(a: seq<nat>, b: seq<nat>, seen: set<nat>)
    ensures Unseen(a + b, seen) == Unseen(a, seen) + Unseen(b, seen + Elements(Unseen(a, seen)))
    decreases |a|
  {
    if a == [] {
      assert a + b == b && seen + Elements(Unseen(a, seen)) == seen;
    } else {
      assert (a + b)[1..] == a[1..] + b;
      if a[0] in seen {
        UnseenConcat(a[1..], b, seen);
      } else {
        var rest := Unseen(a[1..], seen + {a[0]});
        UnseenConcat(a[1..], b, seen + {a[0]});
        assert seen + {a[0]} + Elements(rest) == seen + Elements([a[0]] + rest);
      }
    }
  }

  /** Each waiter is taken once, where it comes first. */
  lemma {:induction false} UnseenInOrder(list: seq<nat>, seen: set<nat>, k: nat) returns (i: nat)
    requires k < |Unseen(list, seen)|
    ensures i < |list| && list[i] == Unseen(list, seen)[k]
    ensures forall x :: x in Unseen(list, seen)[..k] <==> x in list[..i] && x !in seen
    decreases |list|
  {
    var h, all := list[0], Unseen(list, seen);
    if h in seen {
      i := UnseenInOrder(list[1..], seen, k);
      i := i + 1;
      assert list[..i] == [h] + list[1..][..i - 1];
    } else if k == 0 {
      i := 0;
    } else {
      i := UnseenInOrder(list[1..], seen + {h}, k - 1);
      i := i + 1;
      assert list[..i] == [h] + list[1..][..i - 1];
      assert all[..k] == [h] + all[1..][..k - 1];
    }
  }

  /** One module taken off the queue. */
  lemma OneMoreWalked(x: nat, queue: seq<nat>, own: seq<nat>, others: seq<nat>, seen: set<nat>)
    ensures [x] + (queue + Unseen(own, seen) + Unseen(others, seen + Elements(Unseen(own, seen))))
         == [x] + queue + Unseen(own + others, seen)
  {
    UnseenConcat(own, others, seen);
  }

  lemma {:induction false} WalkedBreadthFirst(s: Tables, queue: seq<nat>, seen: set<nat>)
    requires WaitersDefined(s)
    ensures Walked(s, queue, seen) == queue + Unseen(AllWaiters(s, Walked(s, queue, seen)), seen)
    decreases |s.modules.Keys - seen| + |queue|
  {
    if queue == [] {
      assert AllWaiters(s, Walked(s, queue, seen)) == [];
    } else {
      var own := Waiters(s, queue[0]);
      var more := Unseen(own, seen);
      UnseenShrinks(own, seen, s.modules.Keys);
      var rest := Walked(s, queue[1..] + more, seen + Elements(more));
      WalkedBreadthFirst(s, queue[1..] + more, seen + Elements(more));
      OneMoreWalked(queue[0], queue[1..], own, AllWaiters(s, rest), seen);
      assert ([queue[0]] + rest)[1..] == rest && [queue[0]] + queue[1..] == queue;
    }
  }

  /** The failed module comes first, then whoever waits for those that have come so far, waiter list
      after waiter list in that very order, each where it turns up first. */
  lemma WalkIsBreadthFirst(s: Tables, m: nat)
    requires WaitersDefined(s)
    ensures Walked(s, [m], {m}) == [m] + Unseen(AllWaiters(s, Walked(s, [m], {m})), {m})
  {
    WalkedBreadthFirst(s, [m], {m});
  }

  // ---- A factory that throws ----

  /** The module has run to its end, with the given error, and what it does not need any more is
      dropped. */
  ghost predicate HasRun(t: Tables, m: nat, error: Option<LoadError>) {
    && m in t.modules && t.modules[m].complete && t.modules[m].error == error
    && t.modules[m].dependencies == None && t.modules[m].callback == Absent && !t.modules[m].errorback
  }

  /** A module that is released after it ran stays as it is. */
  lemma ReleasingKeepsRun(u: Tables, m: nat, waiters: seq<nat>)
    requires WaitersDefined(u) && forall w :: w in waiters ==> w in u.modules
    requires m in u.modules && HasRun(u, m, u.modules[m].error)
    ensures HasRun(Release(u, waiters), m, u.modules[m].error)
    ensures u.invoked <= Release(u, waiters).invoked && u.reports <= Release(u, waiters).reports
  {
    ReleaseIsOnward(u, waiters);
    assert DoneKept(u, Release(u, waiters), m);
  }

  /** A module whose turn it is to run and whose factory throws nothing, or nothing that counts, or
      that has no factory: it has run and is without a new error. */
  lemma RunningSucceeds(s: Tables, m: nat)
    requires m in s.modules && WaitersDefined(s) && !s.modules[m].complete
    requires s.modules[m].callback in {Absent, ExportsValue, Factory(Returns), Factory(ThrowsFalsy)}
    ensures HasRun(OnModuleComplete(s, m), m, s.modules[m].error)
    ensures s.invoked + [m] <= OnModuleComplete(s, m).invoked
  {
    var u := ClearWaiters(Complete(s, m), m);
    assert Incomplete(u) == Incomplete(s) - {m};
    ReleasingKeepsRun(u, m, Waiters(s, m));
  }

  /** If it throws something that is caught and truthy, that is reported, with what waits for the
      module, and stays the error of the module. */
  lemma RunningFails(s: Tables, m: nat)
    requires m in s.modules && WaitersDefined(s) && !s.modules[m].complete
    requires s.modules[m].callback == Factory(ThrowsCaught)
    ensures var err := LoadError(InFactory, m, if m in s.inverse then s.inverse[m] else []);
            HasRun(OnModuleComplete(s, m), m, Some(err)) && s.reports + [err] <= OnModuleComplete(s, m).reports
    ensures s.invoked + [m] <= OnModuleComplete(s, m).invoked
  {
    var u := ClearWaiters(Complete(s, m), m);
    assert Incomplete(u) == Incomplete(s) - {m};
    ReleasingKeepsRun(u, m, Waiters(s, m));
  }

  /** An exception that is not caught, or comes from the handler, leaves everything as it is, but that
      the module counts as complete; the error that was being reported stays, too. */
  lemma RunningThrows(s: Tables, m: nat)
    requires m in s.modules && WaitersDefined(s) && !s.modules[m].complete
    requires s.modules[m].callback in {Factory(HandlerThrows), Factory(ThrowsOut)}
    ensures var rec := s.modules[m];
            var err := LoadError(InFactory, m, if m in s.inverse then s.inverse[m] else []);
            OnModuleComplete(s, m) ==
              if rec.callback == Factory(ThrowsOut)
              then s.(modules := s.modules[m := rec.(complete := true)],
                      invoked := s.invoked + [m], escaped := s.escaped + [m])
              else s.(modules := s.modules[m := rec.(complete := true, error := Some(err))],
                      reports := s.reports + [err], invoked := s.invoked + [m], escaped := s.escaped + [m])
  {}

  // ---- Factory errors of a whole run ----

  /** How often the handler heard of the factory of m. */
  function FactoryReports(reports: seq<LoadError>, m: nat): nat {
    if reports == [] then 0
    else
      var last := reports[|reports| - 1];
      FactoryReports(reports[..|reports| - 1], m) + if last.phase == InFactory && last.moduleId == m then 1 else 0
  }

  lemma OneMoreReport(reports: seq<LoadError>, err: LoadError, m: nat)
    ensures FactoryReports(reports + [err], m) ==
            FactoryReports(reports, m) + if err.phase == InFactory && err.moduleId == m then 1 else 0
  {
    assert (reports + [err])[..|reports|] == reports;
  }

  /** What a module that was defined with the given callback has led to. */
  ghost predicate Accounted(s: Tables, m: nat, defs: map<nat, Definition>) {
    if m in s.invoked then
      && IsComplete(s, m) && m in defs
      && var callback := defs[m].callback;
         && FactoryReports(s.reports, m) ==
              (if callback == Factory(ThrowsCaught) || callback == Factory(HandlerThrows) then 1 else 0)
         && (FactoryReports(s.reports, m) == 1 ==> Failed(s, m))
         && (m in s.escaped <==> callback == Factory(HandlerThrows) || callback == Factory(ThrowsOut))
    else
      && FactoryReports(s.reports, m) == 0 && m !in s.escaped
      && (m in s.modules && !s.modules[m].complete ==> m in defs && s.modules[m].callback == defs[m].callback)
  }

  ghost predicate AllAccounted(s: Tables, defs: map<nat, Definition>) {
    forall m {:trigger Accounted(s, m, defs)} :: Accounted(s, m, defs)
  }

  lemma EscapingAccounts(s: Tables, m: nat, defs: map<nat, Definition>)
    requires AllAccounted(s, defs) && m in s.modules && !s.modules[m].complete && s.modules[m].callback.Escapes()
    ensures AllAccounted(Escape(s, m), defs)
  {
    var t, err := Escape(s, m), FactoryError(s, m);
    assert Accounted(s, m, defs);
    forall x ensures Accounted(t, x, defs) {
      assert Accounted(s, x, defs);
      if err.Some? { OneMoreReport(s.reports, err.value, x); }
    }
  }

  lemma CompletingAccounts(s: Tables, m: nat, defs: map<nat, Definition>)
    requires AllAccounted(s, defs) && m in s.modules && !s.modules[m].complete && !s.modules[m].callback.Escapes()
    ensures AllAccounted(ClearWaiters(Complete(s, m), m), defs)
  {
    var t, err := ClearWaiters(Complete(s, m), m), FactoryError(s, m);
    assert Accounted(s, m, defs);
    forall x ensures Accounted(t, x, defs) {
      assert Accounted(s, x, defs);
      if err.Some? { OneMoreReport(s.reports, err.value, x); }
    }
  }

  /** Two tables that agree on what is accounted for. */
  ghost predicate SameAccounts(s: Tables, t: Tables) {
    && t.modules.Keys == s.modules.Keys && t.reports == s.reports && t.invoked == s.invoked && t.escaped == s.escaped
    && forall x {:trigger AccountKept(s, t, x)} :: x in s.modules ==> AccountKept(s, t, x)
  }

  ghost predicate AccountKept(s: Tables, t: Tables, x: nat)
    requires x in s.modules && x in t.modules
  {
    && (s.modules[x].complete ==> t.modules[x].complete)
    && (s.modules[x].error.Some? ==> t.modules[x].error.Some?)
    && t.modules[x].callback == s.modules[x].callback
  }

  lemma SameAccountsAccounted(s: Tables, t: Tables, defs: map<nat, Definition>)
    requires AllAccounted(s, defs) && SameAccounts(s, t)
    ensures AllAccounted(t, defs)
  {
    forall x ensures Accounted(t, x, defs) {
      assert Accounted(s, x, defs);
      assert x in s.modules ==> AccountKept(s, t, x);
    }
  }

  lemma {:induction false} OnModuleCompleteAccounts(s: Tables, m: nat, defs: map<nat, Definition>)
    requires m in s.modules && WaitersDefined(s) && AllAccounted(s, defs)
    ensures AllAccounted(OnModuleComplete(s, m), defs)
    decreases Incomplete(s), 0
  {
    if !s.modules[m].complete {
      if s.modules[m].callback.Escapes() {
        EscapingAccounts(s, m, defs);
      } else {
        var t := ClearWaiters(Complete(s, m), m);
        CompletingAccounts(s, m, defs);
        assert Incomplete(t) == Incomplete(s) - {m};
        ReleaseAccounts(t, Waiters(s, m), defs);
      }
    }
  }

  lemma {:induction false} ReleaseOneAccounts(s: Tables, w: nat, defs: map<nat, Definition>)
    requires w in s.modules && WaitersDefined(s) && AllAccounted(s, defs)
    ensures AllAccounted(ReleaseOne(s, w), defs)
    decreases Incomplete(s), 1
  {
    var t := Decrement(s, w);
    assert Incomplete(t) == Incomplete(s);
    forall x | x in s.modules ensures AccountKept(s, t, x) {}
    SameAccountsAccounted(s, t, defs);
    if t.modules[w].unresolved == 0 { OnModuleCompleteAccounts(t, w, defs); }
  }

  lemma {:induction false} ReleaseAccounts(s: Tables, waiters: seq<nat>, defs: map<nat, Definition>)
    requires WaitersDefined(s) && AllAccounted(s, defs) && forall w :: w in waiters ==> w in s.modules
    ensures AllAccounted(Release(s, waiters), defs)
    decreases Incomplete(s), 2 + |waiters|
  {
    if waiters != [] {
      var t := ReleaseOne(s, waiters[0]);
      ReleaseOneAccounts(s, waiters[0], defs);
      if ThrewOut(s, t) {
        forall x | x in t.modules ensures AccountKept(t, Abandon(t, waiters[1..]), x) {}
        SameAccountsAccounted(t, Abandon(t, waiters[1..]), defs);
      } else {
        ReleaseAccounts(t, waiters[1..], defs);
      }
    }
  }

  lemma ExamineAccounts(s: Tables, m: nat, dep: Dependency, defs: map<nat, Definition>)
    requires m in s.modules && WaitersDefined(s) && AllAccounted(s, defs)
    ensures AllAccounted(Examine(s, m, dep), defs)
  {
    var t := Examine(s, m, dep);
    assert t.reports == s.reports && t.invoked == s.invoked && t.escaped == s.escaped;
    forall x | x in s.modules ensures AccountKept(s, t, x) {}
    SameAccountsAccounted(s, t, defs);
  }

  lemma {:induction false} ResolveAccounts(s: Tables, m: nat, deps: seq<Dependency>, i: nat, defs: map<nat, Definition>)
    requires m in s.modules && WaitersDefined(s) && i <= |deps| && AllAccounted(s, defs)
    ensures AllAccounted(Resolve(s, m, deps, i), defs)
    decreases |deps| - i
  {
    if i == |deps| {
      if s.modules[m].unresolved == 0 { OnModuleCompleteAccounts(s, m, defs); }
    } else if FailedAt(s, deps, i) {
      var t := OnDependencyError(s, m, s.modules[deps[i].target].error.value);
      forall x | x in s.modules ensures AccountKept(s, t, x) {}
      SameAccountsAccounted(s, t, defs);
    } else {
      ExamineAccounts(s, m, deps[i], defs);
      ResolveAccounts(Examine(s, m, deps[i]), m, deps, i + 1, defs);
    }
  }

  lemma RegisterAccounts(s: Tables, m: nat, d: Definition, defs: map<nat, Definition>)
    requires AllAccounted(s, defs) && m !in s.modules
    ensures AllAccounted(Register(s, m, d.deps, d.callback, d.errorback), defs[m := d])
  {
    var t, defs' := Register(s, m, d.deps, d.callback, d.errorback), defs[m := d];
    forall x ensures Accounted(t, x, defs') {
      assert Accounted(s, x, defs);
    }
  }

  lemma LoadFailedAccounts(s: Tables, m: nat, throwing: set<nat>, defs: map<nat, Definition>)
    requires WaitersDefined(s) && AllAccounted(WithPlaceholder(s, m), defs)
    ensures AllAccounted(LoadFailed(s, m, throwing), defs)
  {
    var p, t := WithPlaceholder(s, m), LoadFailed(s, m, throwing);
    var q := t.(reports := p.reports);
    forall x | x in p.modules ensures AccountKept(p, q, x) {}
    SameAccountsAccounted(p, q, defs);
    forall x ensures Accounted(t, x, defs) {
      assert Accounted(q, x, defs);
      OneMoreReport(s.reports, LoadError(Loading, m, Waiters(s, m)), x);
    }
  }

  lemma ApplyAccounts(before: seq<Event>, e: Event)
    requires AllAccounted(Run(before), Definitions(before)) && Enabled(Run(before), e)
    ensures AllAccounted(Apply(Run(before), e), Definitions(before + [e]))
  {
    var s, defs := Run(before), Definitions(before);
    RunIsDefined(before);
    assert (before + [e])[..|before|] == before;
    match e
    case Intern =>
      forall x | x in s.modules ensures AccountKept(s, Apply(s, e), x) {}
      SameAccountsAccounted(s, Apply(s, e), defs);
    case Defines(m, deps, callback, errorback) =>
      if m !in s.modules {
        RegisterAccounts(s, m, Definition(deps, callback, errorback), defs);
        ResolveAccounts(Register(s, m, deps, callback, errorback), m, deps, 0, Definitions(before + [e]));
      }
    case FailsToLoad(m, throwing) =>
      if m !in s.modules { RegisterAccounts(s, m, Definition([], Factory(Returns), false), defs); }
      LoadFailedAccounts(s, m, throwing, Definitions(before + [e]));
  }

  lemma {:induction false} RunAccounts(events: seq<Event>)
    ensures AllAccounted(Run(events), Definitions(events))
    decreases |events|
  {
    if events == [] {
      forall x ensures Accounted(Run(events), x, Definitions(events)) {}
    } else {
      var before, e := events[..|events| - 1], events[|events| - 1];
      RunAccounts(before);
      assert events == before + [e];
      if Enabled(Run(before), e) {
        ApplyAccounts(before, e);
      } else {
        RunIsDefined(before);
      }
    }
  }

  /** In every run, the handler hears once of each factory that ran and threw something caught and
      truthy, and of no other; that module is failed; and exactly those factories whose exception was
      not caught, or whose report threw, ended with an exception. */
  lemma FactoryErrorsAreReported(events: seq<Event>, m: nat)
    requires m in Run(events).modules
    ensures m in Definitions(events)
    ensures var s, callback := Run(events), Definitions(events)[m].callback;
      var reported := m in s.invoked && (callback == Factory(ThrowsCaught) || callback == Factory(HandlerThrows));
      && FactoryReports(s.reports, m) == (if reported then 1 else 0)
      && (reported ==> Failed(s, m))
      && (m in s.escaped <==>
          m in s.invoked && (callback == Factory(HandlerThrows) || callback == Factory(ThrowsOut)))
  {
    RunIsDefined(events);
    RunAccounts(events);
    assert Accounted(Run(events), m, Definitions(events));
  }
}
