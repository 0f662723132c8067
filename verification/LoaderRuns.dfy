/** What a run comes to, said of its events alone: what is defined and how, which factories were in
    error, what is requested from the script loader. */
module LoaderRuns {
  import opened Options
  import opened LoaderSpec
  import opened LoaderSteps

  // ---- Definitions ----

  datatype Definition = Definition(deps: seq<Dependency>, callback: Callback, errorback: bool)

  /** The ids handed out. */
  function IdsAfter(events: seq<Event>): nat {
    if events == [] then 3 else IdsAfter(events[..|events| - 1]) + if events[|events| - 1].Intern? then 1 else 0
  }

  /** How each module was defined: first come, first served; a module that is said to have failed to
      load before it was defined counts as defined without anything. */
  function Definitions(events: seq<Event>): map<nat, Definition> {
    if events == [] then map[]
    else
      var before, ids, e := Definitions(events[..|events| - 1]), IdsAfter(events[..|events| - 1]), events[|events| - 1];
      match e
      case Intern => before
      case Defines(m, deps, callback, errorback) =>
        if m < ids && m !in before && (forall i :: 0 <= i < |deps| ==> deps[i].Id() < ids)
        then before[m := Definition(deps, callback, errorback)] else before
      case FailsToLoad(m, _) =>
        if m < ids && m !in before then before[m := Definition([], Factory(Returns), false)] else before
  }

  /** Until a module has run to its end it is what it was defined as. */
  ghost predicate AsDefined(s: Tables, m: nat, d: Definition)
    requires m in s.modules
  {
    s.modules[m].dependencies.Some? ==>
      && s.modules[m].dependencies.value == d.deps && s.modules[m].callback == d.callback
      && s.modules[m].errorback == d.errorback
  }

  ghost predicate AllAsDefined(s: Tables, defs: map<nat, Definition>) {
    && s.modules.Keys == defs.Keys && s.declared == (map m | m in defs :: defs[m].deps)
    && forall m {:trigger AsDefined(s, m, defs[m])} :: m in defs ==> AsDefined(s, m, defs[m])
  }

  // ---- What goes on only grows ----

  /** A module's record from s to t: what it was defined as stays, until it is dropped. */
  ghost predicate RecordKept(s: Tables, t: Tables, m: nat)
    requires m in s.modules && m in t.modules
  {
    t.modules[m].dependencies.Some? ==>
      && t.modules[m].dependencies == s.modules[m].dependencies && t.modules[m].callback == s.modules[m].callback
      && t.modules[m].errorback == s.modules[m].errorback
  }

  ghost predicate Later(s: Tables, t: Tables) {
    && t.nextId == s.nextId && t.declared == s.declared && t.modules.Keys == s.modules.Keys
    && s.reports <= t.reports && s.invoked <= t.invoked && s.escaped <= t.escaped
    && s.requests <= t.requests && (forall x :: x in t.requests ==> x in s.requests || x !in t.modules)
    && forall m {:trigger RecordKept(s, t, m)} :: m in s.modules ==> RecordKept(s, t, m)
  }

  lemma LaterTrans(s: Tables, t: Tables, u: Tables)
    requires Later(s, t) && Later(t, u)
    ensures Later(s, u)
  {
    forall m | m in s.modules ensures RecordKept(s, u, m) {
      assert RecordKept(s, t, m) && RecordKept(t, u, m);
    }
  }

  lemma LaterIsAsDefined(s: Tables, t: Tables, defs: map<nat, Definition>)
    requires Later(s, t) && AllAsDefined(s, defs)
    ensures AllAsDefined(t, defs)
  {
    forall m | m in defs ensures AsDefined(t, m, defs[m]) {
      assert RecordKept(s, t, m) && AsDefined(s, m, defs[m]);
    }
  }

  /** What has run stays as it is, but for its counter. */
  ghost predicate DoneKept(s: Tables, t: Tables, m: nat)
    requires m in s.modules && m in t.modules
  {
    && (s.modules[m].complete ==> t.modules[m] == s.modules[m].(unresolved := t.modules[m].unresolved))
    && t.modules[m].exportsPassedIn == s.modules[m].exportsPassedIn
  }

  ghost predicate Onward(s: Tables, t: Tables) {
    && Later(s, t) && t.requests == s.requests
    && forall m {:trigger DoneKept(s, t, m)} :: m in s.modules ==> DoneKept(s, t, m)
  }

  lemma OnwardTrans(s: Tables, t: Tables, u: Tables)
    requires Onward(s, t) && Onward(t, u)
    ensures Onward(s, u)
  {
    LaterTrans(s, t, u);
    forall m | m in s.modules ensures DoneKept(s, u, m) {
      assert DoneKept(s, t, m) && DoneKept(t, u, m);
    }
  }

  lemma InvokingIsOnward(s: Tables, m: nat)
    requires m in s.modules && !s.modules[m].complete
    ensures Onward(s, Escape(s, m)) && Onward(s, ClearWaiters(Complete(s, m), m))
  {
    forall x | x in s.modules ensures RecordKept(s, Escape(s, m), x) && DoneKept(s, Escape(s, m), x) {}
    var t := ClearWaiters(Complete(s, m), m);
    forall x | x in s.modules ensures RecordKept(s, t, x) && DoneKept(s, t, x) {}
  }

  lemma DecrementIsOnward(s: Tables, m: nat)
    requires m in s.modules
    ensures Onward(s, Decrement(s, m))
  {
    forall x | x in s.modules ensures RecordKept(s, Decrement(s, m), x) && DoneKept(s, Decrement(s, m), x) {}
  }

  lemma AbandonIsOnward(s: Tables, waiters: seq<nat>)
    ensures Onward(s, Abandon(s, waiters)) && Onward(s, s)
  {
    forall x | x in s.modules ensures RecordKept(s, Abandon(s, waiters), x) && DoneKept(s, Abandon(s, waiters), x) {}
    forall x | x in s.modules ensures RecordKept(s, s, x) && DoneKept(s, s, x) {}
  }

  lemma {:induction false} CompletingIsOnward(s: Tables, m: nat)
    requires m in s.modules && WaitersDefined(s)
    ensures Onward(s, OnModuleComplete(s, m))
    decreases Incomplete(s), 0
  {
    if s.modules[m].complete {
      AbandonIsOnward(s, []);
    } else {
      InvokingIsOnward(s, m);
      if !s.modules[m].callback.Escapes() {
        var t := ClearWaiters(Complete(s, m), m);
        assert Incomplete(t) == Incomplete(s) - {m};
        ReleaseIsOnward(t, Waiters(s, m));
        OnwardTrans(s, t, OnModuleComplete(s, m));
      }
    }
  }

  lemma {:induction false} ReleaseOneIsOnward(s: Tables, w: nat)
    requires WaitersDefined(s) && w in s.modules
    ensures Onward(s, ReleaseOne(s, w))
    decreases Incomplete(s), 1
  {
    var t := Decrement(s, w);
    DecrementIsOnward(s, w);
    assert Incomplete(t) == Incomplete(s);
    if t.modules[w].unresolved == 0 {
      CompletingIsOnward(t, w);
      OnwardTrans(s, t, OnModuleComplete(t, w));
    }
  }

  lemma {:induction false} ReleaseIsOnward(s: Tables, waiters: seq<nat>)
    requires WaitersDefined(s) && forall w :: w in waiters ==> w in s.modules
    ensures Onward(s, Release(s, waiters))
    decreases Incomplete(s), 2 + |waiters|
  {
    if waiters == [] {
      AbandonIsOnward(s, []);
    } else {
      var t := ReleaseOne(s, waiters[0]);
      ReleaseOneIsOnward(s, waiters[0]);
      if ThrewOut(s, t) {
        AbandonIsOnward(t, waiters[1..]);
      } else {
        ReleaseIsOnward(t, waiters[1..]);
      }
      OnwardTrans(s, t, Release(s, waiters));
    }
  }

  lemma ExaminingIsLater(s: Tables, m: nat, dep: Dependency)
    requires m in s.modules && WaitersDefined(s)
    ensures Later(s, Examine(s, m, dep))
    ensures Examine(s, m, dep).modules[m].exportsPassedIn <==> s.modules[m].exportsPassedIn || dep == Exports
    ensures Examine(s, m, dep).invoked == s.invoked && Examine(s, m, dep).reports == s.reports
  {
    ExamineFailsNobody(s, m, dep);
    match dep
    case Exports => forall x | x in s.modules ensures RecordKept(s, Decrement(PassExports(s, m), m), x) {}
    case ModuleObject => DecrementIsOnward(s, m);
    case RequireFunction => DecrementIsOnward(s, m);
    case Regular(d) =>
      if IsComplete(s, d) {
        DecrementIsOnward(s, m);
      } else {
        AwaitingIsLater(s, m, d);
      }
  }

  lemma AwaitingIsLater(s: Tables, m: nat, d: nat)
    requires m in s.modules
    ensures Later(s, Cut(s, m, d)) && Later(s, Await(s, m, d))
  {
    forall x | x in s.modules ensures RecordKept(s, Cut(s, m, d), x) {}
    forall x | x in s.modules ensures RecordKept(s, Await(s, m, d), x) {}
  }

  lemma FailingIsLater(s: Tables, m: nat, err: LoadError)
    requires m in s.modules
    ensures Later(s, OnDependencyError(s, m, err))
  {
    forall x | x in s.modules ensures RecordKept(s, OnDependencyError(s, m, err), x) {}
  }

  lemma {:induction false} ResolvingIsLater(s: Tables, m: nat, deps: seq<Dependency>, i: nat)
    requires m in s.modules && WaitersDefined(s) && i <= |deps|
    ensures Later(s, Resolve(s, m, deps, i))
    decreases |deps| - i
  {
    if i == |deps| {
      AbandonIsOnward(s, []);
      if s.modules[m].unresolved == 0 { CompletingIsOnward(s, m); }
    } else if FailedAt(s, deps, i) {
      FailingIsLater(s, m, s.modules[deps[i].target].error.value);
    } else {
      ExaminingIsLater(s, m, deps[i]);
      ResolvingIsLater(Examine(s, m, deps[i]), m, deps, i + 1);
      LaterTrans(s, Examine(s, m, deps[i]), Resolve(s, m, deps, i));
    }
  }

  lemma MarkingIsLater(s: Tables, m: nat, throwing: set<nat>)
    requires WaitersDefined(s)
    ensures Later(WithPlaceholder(s, m), LoadFailed(s, m, throwing))
  {
    var p, t := WithPlaceholder(s, m), LoadFailed(s, m, throwing);
    forall x | x in p.modules ensures RecordKept(p, t, x) {}
  }

  // ---- A run is what its events say ----

  lemma RegisteringDefines(s: Tables, m: nat, deps: seq<Dependency>, callback: Callback, errorback: bool,
                           defs: map<nat, Definition>)
    requires AllAsDefined(s, defs) && m !in s.modules
    ensures AllAsDefined(Register(s, m, deps, callback, errorback), defs[m := Definition(deps, callback, errorback)])
  {
    var t, defs' := Register(s, m, deps, callback, errorback), defs[m := Definition(deps, callback, errorback)];
    forall x | x in defs' ensures AsDefined(t, x, defs'[x]) {
      assert x != m ==> AsDefined(s, x, defs[x]);
    }
  }

  lemma OneMoreDefined(before: seq<Event>, e: Event)
    requires Run(before).nextId == IdsAfter(before) && AllAsDefined(Run(before), Definitions(before))
    requires Enabled(Run(before), e)
    ensures Apply(Run(before), e).nextId == IdsAfter(before + [e])
    ensures AllAsDefined(Apply(Run(before), e), Definitions(before + [e]))
  {
    var s, defs := Run(before), Definitions(before);
    assert (before + [e])[..|before|] == before;
    match e
    case Intern =>
      forall m | m in defs ensures AsDefined(Apply(s, e), m, defs[m]) { assert AsDefined(s, m, defs[m]); }
    case Defines(m, deps, callback, errorback) =>
      if m !in s.modules {
        var r := Register(s, m, deps, callback, errorback);
        RegisteringDefines(s, m, deps, callback, errorback, defs);
        ResolvingIsLater(r, m, deps, 0);
        LaterIsAsDefined(r, Apply(s, e), Definitions(before + [e]));
      }
    case FailsToLoad(m, throwing) =>
      if m !in s.modules { RegisteringDefines(s, m, [], Factory(Returns), false, defs); }
      MarkingIsLater(s, m, throwing);
      LaterIsAsDefined(WithPlaceholder(s, m), Apply(s, e), Definitions(before + [e]));
  }

  /** After a run exactly those modules are there that the events define, declared as the events
      say; and until it has run to its end a module has the dependencies, the callback and the
      errorback it was defined with. */
  lemma {:induction false} RunIsDefined(events: seq<Event>)
    ensures Run(events).nextId == IdsAfter(events) && AllAsDefined(Run(events), Definitions(events))
    decreases |events|
  {
    if events != [] {
      var before, e := events[..|events| - 1], events[|events| - 1];
      RunIsDefined(before);
      assert events == before + [e];
      if Enabled(Run(before), e) { OneMoreDefined(before, e); }
    }
  }

  // ---- Requests ----

  /** Only modules that are not defined are requested, in any step of any run. */
  lemma RequestsAreForUndefined(events: seq<Event>, e: Event)
    requires Enabled(Run(events), e)
    ensures Run(events).requests <= Run(events + [e]).requests
    ensures forall x :: x in Run(events + [e]).requests ==> x in Run(events).requests || x !in Run(events + [e]).modules
  {
    var s := Run(events);
    RunStep(events, e);
    if e.Defines? && e.m !in s.modules {
      ResolvingIsLater(Register(s, e.m, e.deps, e.callback, e.errorback), e.m, e.deps, 0);
    } else if e.FailsToLoad? {
      MarkingIsLater(s, e.m, e.throwing);
    }
  }

  // ---- One definition ----

  /** No dependency up to i has failed before. */
  ghost predicate NoneFailed(s: Tables, deps: seq<Dependency>, i: nat, n: nat)
    requires n <= |deps|
  {
    forall k {:trigger FailedAt(s, deps, k)} :: i <= k < n ==> !FailedAt(s, deps, k)
  }

  /** m has failed because of an earlier failure, before it ran. */
  ghost predicate FailedBefore(s: Tables, t: Tables, m: nat, error: Option<LoadError>) {
    && m in t.modules && t.modules[m].complete && t.modules[m].error == error
    && t.invoked == s.invoked && t.reports == s.reports
  }

  /** _resolve gets to the first dependency that has failed before. */
  lemma {:induction false} ReachDependency(s: Tables, m: nat, deps: seq<Dependency>, k: nat) returns (t: Tables)
    requires m in s.modules && WaitersDefined(s) && k <= |deps| && NoneFailed(s, deps, 0, k)
    ensures Examined(s, m, deps, k, t) && SameErrors(s, t)
  {
    if k == 0 {
      t := s;
    } else {
      var u := ReachDependency(s, m, deps, k - 1);
      assert !FailedAt(s, deps, k - 1);
      assert FailedAt(u, deps, k - 1) <==> FailedAt(s, deps, k - 1);
      ExaminedOneMore(s, m, deps, k - 1, u);
      t := Examine(u, m, deps[k - 1]);
      ExamineKeepsErrors(u, m, deps[k - 1]);
    }
  }

  ghost predicate SameErrors(s: Tables, t: Tables) {
    && t.invoked == s.invoked && t.reports == s.reports && t.modules.Keys == s.modules.Keys
    && forall x :: x in s.modules ==> t.modules[x].error == s.modules[x].error
  }

  lemma ExamineKeepsErrors(s: Tables, m: nat, dep: Dependency)
    requires m in s.modules && WaitersDefined(s)
    ensures SameErrors(s, Examine(s, m, dep))
  {
    ExaminingIsLater(s, m, dep);
  }

  /** A definition fails at once if one of its dependencies has failed before, with the error of the
      first that has; nothing runs and nothing is reported. */
  lemma DefinitionFails(s: Tables, m: nat, deps: seq<Dependency>, callback: Callback, errorback: bool, k: nat)
    requires WaitersDefined(s) && m !in s.modules && k < |deps| && NoneFailed(s, deps, 0, k) && FailedAt(s, deps, k)
    ensures FailedBefore(s, Define(s, m, deps, callback, errorback), m, s.modules[deps[k].target].error)
  {
    var r := Register(s, m, deps, callback, errorback);
    forall j | 0 <= j < k ensures !FailedAt(r, deps, j) { assert !FailedAt(s, deps, j); }
    ResolvingFails(r, m, deps, k);
  }

  lemma ResolvingFails(s: Tables, m: nat, deps: seq<Dependency>, k: nat)
    requires m in s.modules && WaitersDefined(s) && k < |deps| && NoneFailed(s, deps, 0, k) && FailedAt(s, deps, k)
    ensures FailedBefore(s, Resolve(s, m, deps, 0), m, s.modules[deps[k].target].error)
  {
    var t := ReachDependency(s, m, deps, k);
    ExaminedOneMore(s, m, deps, k, t);
    assert FailedAt(t, deps, k) <==> FailedAt(s, deps, k);
  }

  /** It is given an exports object if and only if it asks for one before any failed dependency. */
  ghost predicate AsksForExports(s: Tables, deps: seq<Dependency>, i: nat) {
    exists k :: i <= k < |deps| && deps[k] == Exports && NoneFailed(s, deps, i, k)
  }

  lemma {:induction false} ResolvingPassesExports(s: Tables, m: nat, deps: seq<Dependency>, i: nat)
    requires m in s.modules && WaitersDefined(s) && i <= |deps|
    ensures Resolve(s, m, deps, i).modules[m].exportsPassedIn
       <==> s.modules[m].exportsPassedIn || AsksForExports(s, deps, i)
    decreases |deps| - i
  {
    if i == |deps| {
      if s.modules[m].unresolved == 0 {
        CompletingIsOnward(s, m);
        assert DoneKept(s, OnModuleComplete(s, m), m);
      }
    } else if FailedAt(s, deps, i) {
      assert forall k :: i < k < |deps| ==> !NoneFailed(s, deps, i, k);
    } else {
      var u := Examine(s, m, deps[i]);
      ExaminingIsLater(s, m, deps[i]);
      ExamineFailsNobody(s, m, deps[i]);
      ResolvingPassesExports(u, m, deps, i + 1);
      AsksHereOrLater(s, u, deps, i);
    }
  }

  lemma AsksHereOrLater(s: Tables, u: Tables, deps: seq<Dependency>, i: nat)
    requires i < |deps| && !FailedAt(s, deps, i) && forall d :: Failed(u, d) <==> Failed(s, d)
    ensures AsksForExports(s, deps, i) <==> deps[i] == Exports || AsksForExports(u, deps, i + 1)
  {
    assert forall k :: 0 <= k < |deps| ==> (FailedAt(u, deps, k) <==> FailedAt(s, deps, k));
    if deps[i] == Exports { assert NoneFailed(s, deps, i, i); }
    if k :| i <= k < |deps| && deps[k] == Exports && NoneFailed(s, deps, i, k) {
      if k > i { assert NoneFailed(u, deps, i + 1, k); }
    }
    if k :| i + 1 <= k < |deps| && deps[k] == Exports && NoneFailed(u, deps, i + 1, k) {
      assert NoneFailed(s, deps, i, k);
    }
  }

  /** A new module is handed an exports object if and only if it asks for one, before any of its
      dependencies that has failed. */
  lemma ExportsIffAsked(s: Tables, m: nat, deps: seq<Dependency>, callback: Callback, errorback: bool)
    requires WaitersDefined(s) && m !in s.modules
    ensures Define(s, m, deps, callback, errorback).modules[m].exportsPassedIn <==> AsksForExports(s, deps, 0)
  {
    var r := Register(s, m, deps, callback, errorback);
    ResolvingPassesExports(r, m, deps, 0);
    assert forall k :: 0 <= k < |deps| ==> (FailedAt(r, deps, k) <==> FailedAt(s, deps, k));
    if k :| 0 <= k < |deps| && deps[k] == Exports && NoneFailed(r, deps, 0, k) { assert NoneFailed(s, deps, 0, k); }
    if k :| 0 <= k < |deps| && deps[k] == Exports && NoneFailed(s, deps, 0, k) { assert NoneFailed(r, deps, 0, k); }
  }
}
