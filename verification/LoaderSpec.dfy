/** The AMD module manager as a transition system on values: what each operation of
    ModuleManager does to its tables. ModuleManager.dfy proves that the mutable class
    performs exactly these transitions. Modules are the integer ids ModuleIdProvider
    hands out. */
module LoaderSpec {
  import opened Collections
  import opened Options
  import opened Graphs

  /** Special dependencies are recognised by object identity, so a regular dependency may
      also carry one of the ids 0, 1, 2. */
  datatype Dependency = Exports | ModuleObject | RequireFunction | Regular(target: nat) {
    function Id(): nat {
      match this
      case Exports => 0
      case ModuleObject => 1
      case RequireFunction => 2
      case Regular(target) => target
    }
  }

  datatype Phase = Loading | InFactory

  datatype LoadError = LoadError(phase: Phase, moduleId: nat, neededBy: seq<nat>)

  /** How the invocation of a factory ends. What it throws is caught only if the loader is
      configured with catchError, which it is not by default; and once it is caught, it is an
      error only if it is truthy. Reporting an error runs a handler, which may throw as well. */
  datatype Outcome =
    | Returns
    | ThrowsFalsy      // caught, but null, undefined, 0, NaN, false or "" count as no error
    | ThrowsCaught     // caught and reported
    | HandlerThrows    // caught, but the handler it is reported to throws
    | ThrowsOut        // not caught

  /** What a module was defined with: nothing, an exports object, or a factory function. */
  datatype Callback = Absent | ExportsValue | Factory(outcome: Outcome) {
    /** An error is handed to the configured onError. */
    predicate Reported() {
      this == Factory(ThrowsCaught) || this == Factory(HandlerThrows)
    }

    /** An exception leaves Module.complete. */
    predicate Escapes() {
      this == Factory(HandlerThrows) || this == Factory(ThrowsOut)
    }
  }

  datatype Record = Record(
    dependencies: Option<seq<Dependency>>,  // None once the module has run to the end (`null` in the source)
    callback: Callback,
    errorback: bool,
    exportsPassedIn: bool,
    unresolved: int,
    complete: bool,
    error: Option<LoadError>)

  datatype Tables = Tables(
    nextId: nat,
    modules: map<nat, Record>,
    known: set<nat>,
    inverse: map<nat, seq<nat>>,             // absent stands for undefined and null
    requests: seq<nat>,                      // scripts the loader was asked for, in order
    reports: seq<LoadError>,                 // errors handed to the configured onError
    cuts: seq<(nat, nat)>,                   // (module, dependency) pairs of the cycle warnings
    declared: map<nat, seq<Dependency>>,     // dependencies as defined (the build information)
    invoked: seq<nat>,                       // modules in the order Module.complete was called
    escaped: seq<nat>,                       // those whose Module.complete an exception left
    lost: multiset<nat>)                     // decrements that an exception kept from happening

  const EMPTY := Tables(3, map[], {}, map[], [], [], [], map[], [], [], multiset{})

  function Waiters(s: Tables, d: nat): seq<nat> {
    if d in s.inverse then s.inverse[d] else []
  }

  ghost predicate WaitersDefined(s: Tables) {
    forall d, j :: d in s.inverse && 0 <= j < |s.inverse[d]| ==> s.inverse[d][j] in s.modules
  }

  predicate IsComplete(s: Tables, m: nat) {
    m in s.modules && s.modules[m].complete
  }

  ghost predicate Failed(s: Tables, m: nat) {
    IsComplete(s, m) && s.modules[m].error.Some?
  }

  ghost function Incomplete(s: Tables): set<nat> {
    set m | m in s.modules && !s.modules[m].complete
  }

  /** The edges the cycle search follows: dependency lists that have not been dropped. */
  ghost function DependencyEdges(s: Tables): Graph {
    set m, i | m in s.modules && s.modules[m].dependencies.Some? &&
               0 <= i < |s.modules[m].dependencies.value| ::
      (m, s.modules[m].dependencies.value[i].Id())
  }

  /** Every dependency ever declared. */
  ghost function DeclaredEdges(s: Tables): Graph {
    set m, i | m in s.declared && 0 <= i < |s.declared[m]| :: (m, s.declared[m][i].Id())
  }

  /** (waiter, awaited) for every entry of the inverse dependency lists. */
  ghost function Waits(s: Tables): Graph {
    set d, j | d in s.inverse && 0 <= j < |s.inverse[d]| :: (s.inverse[d][j], d)
  }

  ghost predicate ThrewOut(s: Tables, t: Tables) {
    t.escaped != s.escaped
  }

  /** The error Module.complete makes of what a factory throws, if it makes one. */
  function FactoryError(s: Tables, m: nat): Option<LoadError>
    requires m in s.modules
  {
    if s.modules[m].callback.Reported() then Some(LoadError(InFactory, m, Waiters(s, m))) else None
  }

  function Report(reports: seq<LoadError>, error: Option<LoadError>): seq<LoadError> {
    if error.Some? then reports + [error.value] else reports
  }

  /** Module.complete left by an exception: the module counts as complete, but keeps everything
      it has, its waiters included. */
  function Escape(s: Tables, m: nat): Tables
    requires m in s.modules
  {
    var rec, err := s.modules[m], FactoryError(s, m);
    s.(modules := s.modules[m := rec.(complete := true, error := if err.Some? then err else rec.error)],
       reports := Report(s.reports, err),
       invoked := s.invoked + [m], escaped := s.escaped + [m])
  }

  /** The rest of a waiter list when an exception leaves the loop over it. */
  function Abandon(s: Tables, waiters: seq<nat>): Tables {
    s.(lost := s.lost + multiset(waiters))
  }

  /** Module.complete, unless an exception leaves it: run the factory, forget what is no longer
      needed. */
  function Complete(s: Tables, m: nat): Tables
    requires m in s.modules
  {
    var rec, err := s.modules[m], FactoryError(s, m);
    var done := rec.(complete := true, dependencies := None, callback := Absent, errorback := false,
                     error := if err.Some? then err else rec.error);
    s.(modules := s.modules[m := done], reports := Report(s.reports, err), invoked := s.invoked + [m])
  }

  function ClearWaiters(s: Tables, m: nat): Tables {
    s.(inverse := s.inverse - {m})
  }

  function Decrement(s: Tables, m: nat): Tables
    requires m in s.modules
  {
    s.(modules := s.modules[m := s.modules[m].(unresolved := s.modules[m].unresolved - 1)])
  }

  /** _onModuleComplete. */
  ghost function OnModuleComplete(s: Tables, m: nat): (r: Tables)
    requires m in s.modules && WaitersDefined(s)
    ensures r.modules.Keys == s.modules.Keys && WaitersDefined(r)
    ensures Incomplete(r) <= Incomplete(s) && |s.escaped| <= |r.escaped|
    decreases Incomplete(s), 0
  {
    if s.modules[m].complete then s
    else if s.modules[m].callback.Escapes() then
      assert Incomplete(Escape(s, m)) <= Incomplete(s);
      Escape(s, m)
    else
      var t := ClearWaiters(Complete(s, m), m);
      assert Incomplete(t) == Incomplete(s) - {m};
      Release(t, Waiters(s, m))
  }

  /** One iteration of the loop of _onModuleComplete: a waiter that waits for nothing more runs. */
  ghost function ReleaseOne(s: Tables, w: nat): (r: Tables)
    requires WaitersDefined(s) && w in s.modules
    ensures r.modules.Keys == s.modules.Keys && WaitersDefined(r)
    ensures Incomplete(r) <= Incomplete(s) && |s.escaped| <= |r.escaped|
    decreases Incomplete(s), 1
  {
    var t := Decrement(s, w);
    assert Incomplete(t) == Incomplete(s);
    if t.modules[w].unresolved == 0 then OnModuleComplete(t, w) else t
  }

  /** The loop of _onModuleComplete over the waiters it took; an exception abandons the rest. */
  ghost function Release(s: Tables, waiters: seq<nat>): (r: Tables)
    requires WaitersDefined(s) && forall w :: w in waiters ==> w in s.modules
    ensures r.modules.Keys == s.modules.Keys && WaitersDefined(r)
    ensures Incomplete(r) <= Incomplete(s) && |s.escaped| <= |r.escaped|
    decreases Incomplete(s), 2 + |waiters|
  {
    if waiters == [] then s
    else
      var t := ReleaseOne(s, waiters[0]);
      if ThrewOut(s, t) then Abandon(t, waiters[1..]) else Release(t, waiters[1..])
  }

  /** Module.onDependencyError. */
  function OnDependencyError(s: Tables, m: nat, err: LoadError): Tables
    requires m in s.modules
  {
    s.(modules := s.modules[m := s.modules[m].(complete := true, error := Some(err))])
  }

  function PassExports(s: Tables, m: nat): Tables
    requires m in s.modules
  {
    s.(modules := s.modules[m := s.modules[m].(exportsPassedIn := true)])
  }

  function RecordCut(s: Tables, m: nat, d: nat): Tables {
    s.(cuts := s.cuts + [(m, d)])
  }

  /** Breaking a cycle: the dependency is warned about and no longer waited for. */
  function Cut(s: Tables, m: nat, d: nat): Tables
    requires m in s.modules
  {
    Decrement(RecordCut(s, m, d), m)
  }

  /** _loadModule: ask the script loader once for a module nobody has defined. */
  function LoadModule(s: Tables, d: nat): Tables {
    if d in s.modules || d in s.known then s
    else s.(known := s.known + {d}, requests := s.requests + [d])
  }

  function AddWaiter(s: Tables, d: nat, m: nat): Tables {
    s.(inverse := s.inverse[d := Waiters(s, d) + [m]])
  }

  /** Does the cycle search from d find m? */
  ghost predicate ClosesCycle(s: Tables, m: nat, d: nat) {
    Reach(DependencyEdges(s), d, m)
  }

  /** One iteration of _resolve that does not fail the module. */
  ghost function Examine(s: Tables, m: nat, dep: Dependency): (r: Tables)
    requires m in s.modules && WaitersDefined(s)
    ensures r.modules.Keys == s.modules.Keys && WaitersDefined(r)
    ensures Incomplete(r) == Incomplete(s)
  {
    match dep
    case Exports => Decrement(PassExports(s, m), m)
    case ModuleObject => Decrement(s, m)
    case RequireFunction => Decrement(s, m)
    case Regular(d) =>
      if IsComplete(s, d) then Decrement(s, m)
      else if ClosesCycle(s, m, d) then Cut(s, m, d)
      else LoadModule(AddWaiter(s, d, m), d)
  }

  /** _resolve, from dependency i on. */
  ghost function Resolve(s: Tables, m: nat, deps: seq<Dependency>, i: nat): (r: Tables)
    requires m in s.modules && WaitersDefined(s) && i <= |deps|
    ensures r.modules.Keys == s.modules.Keys && WaitersDefined(r)
    decreases |deps| - i
  {
    if i == |deps| then
      if s.modules[m].unresolved == 0 then OnModuleComplete(s, m) else s
    else if deps[i].Regular? && Failed(s, deps[i].target) then
      OnDependencyError(s, m, s.modules[deps[i].target].error.value)
    else
      Resolve(Examine(s, m, deps[i]), m, deps, i + 1)
  }

  /** Some dependency has failed before the module that asks for it was resolved. */
  ghost predicate DependencyFailed(s: Tables, deps: seq<Dependency>) {
    exists k :: 0 <= k < |deps| && FailedAt(s, deps, k)
  }

  ghost predicate FailedAt(s: Tables, deps: seq<Dependency>, k: nat)
    requires k < |deps|
  {
    deps[k].Regular? && Failed(s, deps[k].target)
  }

  /** _resolve has come from s to t, where it examines dependency i next. */
  ghost predicate Examined(s: Tables, m: nat, deps: seq<Dependency>, i: nat, t: Tables)
    requires m in s.modules && WaitersDefined(s) && i <= |deps|
  {
    && m in t.modules && WaitersDefined(t) && Resolve(t, m, deps, i) == Resolve(s, m, deps, 0)
    && t.escaped == s.escaped && t.modules[m].errorback == s.modules[m].errorback
    && (forall d :: Failed(t, d) <==> Failed(s, d)) && (forall k :: 0 <= k < i ==> !FailedAt(s, deps, k))
  }

  lemma ExaminedOneMore(s: Tables, m: nat, deps: seq<Dependency>, i: nat, t: Tables)
    requires m in s.modules && WaitersDefined(s) && i < |deps| && Examined(s, m, deps, i, t)
    ensures m in t.modules && WaitersDefined(t) && t.escaped == s.escaped
    ensures t.modules[m].errorback == s.modules[m].errorback
    ensures if FailedAt(t, deps, i)
            then DependencyFailed(s, deps)
                 && Resolve(s, m, deps, 0) == OnDependencyError(t, m, t.modules[deps[i].target].error.value)
            else Examined(s, m, deps, i + 1, Examine(t, m, deps[i]))
  {
    assert FailedAt(t, deps, i) <==> FailedAt(s, deps, i);
    ExamineFailsNobody(t, m, deps[i]);
  }

  lemma ExamineFailsNobody(s: Tables, m: nat, dep: Dependency)
    requires WaitersDefined(s) && m in s.modules
    ensures forall d :: Failed(Examine(s, m, dep), d) <==> Failed(s, d)
    ensures Examine(s, m, dep).modules[m].errorback == s.modules[m].errorback
    ensures Examine(s, m, dep).escaped == s.escaped
  {}

  lemma ExaminedAll(s: Tables, m: nat, deps: seq<Dependency>, t: Tables)
    requires m in s.modules && WaitersDefined(s) && Examined(s, m, deps, |deps|, t)
    ensures !DependencyFailed(s, deps) && m in t.modules && WaitersDefined(t) && t.escaped == s.escaped
    ensures Resolve(s, m, deps, 0) == if t.modules[m].unresolved == 0 then OnModuleComplete(t, m) else t
  {}

  /** Registering a module changes nothing about which dependencies have failed. */
  lemma RegisterFailsNobody(s: Tables, m: nat, deps: seq<Dependency>, callback: Callback, errorback: bool)
    requires m !in s.modules
    ensures DependencyFailed(Register(s, m, deps, callback, errorback), deps) <==> DependencyFailed(s, deps)
  {
    var t := Register(s, m, deps, callback, errorback);
    assert forall k :: 0 <= k < |deps| ==> (FailedAt(t, deps, k) <==> FailedAt(s, deps, k));
  }

  function Register(s: Tables, m: nat, deps: seq<Dependency>, callback: Callback, errorback: bool): Tables {
    s.(modules := s.modules[m := Record(Some(deps), callback, errorback, false, |deps|, false, None)],
       declared := s.declared[m := deps])
  }

  /** defineModule. */
  ghost function Define(s: Tables, m: nat, deps: seq<Dependency>, callback: Callback, errorback: bool): (r: Tables)
    requires WaitersDefined(s)
    ensures WaitersDefined(r)
  {
    if m in s.modules then s
    else Resolve(Register(s, m, deps, callback, errorback), m, deps, 0)
  }

  /** The stand-in _onLoadError creates for a module that was never defined. */
  function WithPlaceholder(s: Tables, m: nat): Tables {
    if m in s.modules then s else Register(s, m, [], Factory(Returns), false)
  }

  /** Everything that waits, directly or not, for m, and m itself. */
  ghost function Affected(s: Tables, m: nat): set<nat> {
    {m} + set e | e in Waits(s) && Reach(Waits(s), e.0, m) :: e.0
  }

  /** onDependencyError for each module of a set. */
  ghost function MarkFailed(s: Tables, hit: set<nat>, err: LoadError): (r: Tables)
    ensures r.modules.Keys == s.modules.Keys
  {
    s.(modules := map x | x in s.modules ::
                    if x in hit then s.modules[x].(complete := true, error := Some(err)) else s.modules[x])
  }

  /** The elements of a list that are not in `seen`, each once. */
  function Unseen(list: seq<nat>, seen: set<nat>): seq<nat>
    decreases |list|
  {
    if list == [] then []
    else if list[0] in seen then Unseen(list[1..], seen)
    else [list[0]] + Unseen(list[1..], seen + {list[0]})
  }

  lemma {:induction false} UnseenIs(list: seq<nat>, seen: set<nat>)
    ensures forall x :: x in Unseen(list, seen) <==> x in list && x !in seen
    ensures NoDuplicates(Unseen(list, seen))
    decreases |list|
  {
    if list != [] {
      UnseenIs(list[1..], if list[0] in seen then seen else seen + {list[0]});
      assert list == [list[0]] + list[1..];
    }
  }

  lemma UnseenShrinks(list: seq<nat>, seen: set<nat>, all: set<nat>)
    requires forall x :: x in list ==> x in all
    ensures |all - (seen + Elements(Unseen(list, seen)))| + |Unseen(list, seen)| == |all - seen|
  {
    var more := Elements(Unseen(list, seen));
    UnseenIs(list, seen);
    ElementsSize(Unseen(list, seen));
    assert all - seen == (all - (seen + more)) + more;
  }

  /** The walk of _onLoadError: the modules in the queue, and whoever waits for them, breadth
      first. */
  ghost function Walked(s: Tables, queue: seq<nat>, seen: set<nat>): seq<nat>
    requires WaitersDefined(s)
    decreases |s.modules.Keys - seen| + |queue|
  {
    if queue == [] then []
    else
      var more := Unseen(Waiters(s, queue[0]), seen);
      UnseenShrinks(Waiters(s, queue[0]), seen, s.modules.Keys);
      [queue[0]] + Walked(s, queue[1..] + more, seen + Elements(more))
  }

  /** The errorback of x is called and throws. */
  predicate Interrupts(s: Tables, x: nat, throwing: set<nat>) {
    x in s.modules && s.modules[x].errorback && x in throwing
  }

  /** The walk ends with the first errorback that throws. */
  function Uninterrupted(s: Tables, order: seq<nat>, throwing: set<nat>): seq<nat> {
    if order == [] then []
    else [order[0]] + if Interrupts(s, order[0], throwing) then [] else Uninterrupted(s, order[1..], throwing)
  }

  /** The modules _onLoadError gets to, in order. */
  ghost function Told(s: Tables, m: nat, throwing: set<nat>): seq<nat>
    requires WaitersDefined(s)
  {
    Uninterrupted(s, Walked(s, [m], {m}), throwing)
  }

  /** Those whose errorback is called, in order. */
  function WithErrorback(s: Tables, order: seq<nat>): seq<nat> {
    if order == [] then []
    else
      (if order[0] in s.modules && s.modules[order[0]].errorback then [order[0]] else [])
      + WithErrorback(s, order[1..])
  }

  /** _onLoadError: the failed module and those that wait for it fail, up to the first whose
      errorback throws, and the global handler hears of it only if no errorback does. */
  ghost function LoadFailed(s: Tables, m: nat, throwing: set<nat>): (r: Tables)
    requires WaitersDefined(s)
    ensures WaitersDefined(r)
  {
    var t := WithPlaceholder(s, m);
    var told := Told(t, m, throwing);
    var err := LoadError(Loading, m, Waiters(s, m));
    MarkFailed(t, Elements(told), err).(
      reports := if WithErrorback(t, told) == [] then s.reports + [err] else s.reports)
  }

  // ---- Runs ----

  datatype Event =
    | Intern                                  // the id provider hands out the next id
    | Defines(m: nat, deps: seq<Dependency>, callback: Callback, errorback: bool)
    | FailsToLoad(m: nat, throwing: set<nat>) // the errorbacks of these modules throw if they are called

  /** Operations only mention ids that have been handed out. */
  predicate Enabled(s: Tables, e: Event) {
    match e
    case Intern => true
    case Defines(m, deps, _, _) => m < s.nextId && AllocatedDeps(s, deps)
    case FailsToLoad(m, _) => m < s.nextId
  }

  predicate AllocatedDeps(s: Tables, deps: seq<Dependency>) {
    forall i :: 0 <= i < |deps| ==> deps[i].Id() < s.nextId
  }

  ghost function Apply(s: Tables, e: Event): (r: Tables)
    requires WaitersDefined(s) && Enabled(s, e)
    ensures WaitersDefined(r)
  {
    match e
    case Intern => s.(nextId := s.nextId + 1)
    case Defines(m, deps, callback, errorback) => Define(s, m, deps, callback, errorback)
    case FailsToLoad(m, throwing) => LoadFailed(s, m, throwing)
  }

  /** The tables after a sequence of events; an event that names an id not yet handed out
      cannot happen and is skipped. */
  ghost function Run(events: seq<Event>): (r: Tables)
    ensures WaitersDefined(r)
  {
    if events == [] then EMPTY
    else
      var s := Run(events[..|events| - 1]);
      var e := events[|events| - 1];
      if Enabled(s, e) then Apply(s, e) else s
  }

  lemma RunStep(events: seq<Event>, e: Event)
    requires Enabled(Run(events), e)
    ensures Run(events + [e]) == Apply(Run(events), e)
  {
    assert (events + [e])[..|events + [e]| - 1] == events;
  }
}
