/** What every operation of the module manager keeps, through the recursion that releases
    waiters. The parameter `pending` counts decrements that are still owed: the unprocessed
    tails of the waiter lists held by active calls, and the dependencies a module being
    resolved has not examined yet. */
module LoaderInvariant {
  import opened Collections
  import opened Graphs
  import opened LoaderSpec

  // ---- Counting occurrences in the inverse dependency lists ----

  ghost function Count(inverse: map<nat, seq<nat>>, d: nat, x: nat): nat {
    if d in inverse then multiset(inverse[d])[x] else 0
  }

  /** Occurrences of x in the lists of the ids below n. */
  ghost function Occurrences(inverse: map<nat, seq<nat>>, x: nat, n: nat): nat {
    if n == 0 then 0 else Occurrences(inverse, x, n - 1) + Count(inverse, n - 1, x)
  }

  lemma {:induction false} OccurrencesAfterClear(inverse: map<nat, seq<nat>>, d: nat, x: nat, n: nat)
    ensures Occurrences(inverse - {d}, x, n) + (if d < n then Count(inverse, d, x) else 0) == Occurrences(inverse, x, n)
  {
    if n > 0 { OccurrencesAfterClear(inverse, d, x, n - 1); }
  }

  lemma {:induction false} OccurrencesAfterAdd(inverse: map<nat, seq<nat>>, d: nat, list: seq<nat>, m: nat, x: nat,
                                               n: nat)
    requires list == if d in inverse then inverse[d] else []
    ensures Occurrences(inverse[d := list + [m]], x, n) ==
            Occurrences(inverse, x, n) + (if d < n && x == m then 1 else 0)
  {
    if n > 0 { OccurrencesAfterAdd(inverse, d, list, m, x, n - 1); }
  }

  lemma {:induction false} OccurrencesFound(inverse: map<nat, seq<nat>>, x: nat, n: nat)
    requires Occurrences(inverse, x, n) > 0
    ensures exists d :: d in inverse && x in inverse[d]
  {
    if Count(inverse, n - 1, x) > 0 {
      assert n - 1 in inverse && x in inverse[n - 1];
    } else {
      OccurrencesFound(inverse, x, n - 1);
    }
  }

  lemma {:induction false} OccurrenceCounts(inverse: map<nat, seq<nat>>, d: nat, x: nat, n: nat)
    requires d < n && d in inverse && x in inverse[d]
    ensures Occurrences(inverse, x, n) > 0
  {
    if d < n - 1 { OccurrenceCounts(inverse, d, x, n - 1); }
  }

  lemma {:induction false} NoOccurrences(inverse: map<nat, seq<nat>>, x: nat, n: nat)
    requires forall d :: d in inverse ==> x !in inverse[d]
    ensures Occurrences(inverse, x, n) == 0
  {
    if n > 0 { NoOccurrences(inverse, x, n - 1); }
  }

  // ---- The invariant ----

  /** Every id in the tables was handed out, and the awaited ones are defined or requested. */
  ghost predicate IdsValid(s: Tables) {
    && (forall m :: m in s.modules ==> m < s.nextId)
    && (forall d :: d in s.inverse ==> d < s.nextId && (d in s.modules || d in s.known))
    && (forall m :: m in s.known ==> m < s.nextId)
    && (forall m :: m in s.declared ==> AllocatedDeps(s, s.declared[m]))
    && (forall m :: m in s.known <==> m in s.requests)
    && NoDuplicates(s.requests)
  }

  /** Lifecycle of the individual records. */
  ghost predicate RecordsValid(s: Tables) {
    && s.declared.Keys == s.modules.Keys
    && (forall m :: m in s.invoked ==> IsComplete(s, m))
    && (forall m :: m in s.escaped ==> m in s.invoked)
    && NoDuplicates(s.invoked)
    && (forall m {:trigger RecordValid(s, m)} :: m in s.modules ==> RecordValid(s, m))
  }

  ghost predicate RecordValid(s: Tables, m: nat)
    requires m in s.modules && m in s.declared
  {
    var rec := s.modules[m];
    && (rec.dependencies.None? <==> m in s.invoked && m !in s.escaped)
    && (rec.dependencies.Some? ==> rec.dependencies.value == s.declared[m])
    && (rec.complete && rec.error.None? ==> m in s.invoked)
    && (!rec.complete ==> rec.error.None?)
  }

  /** Whoever waits has not run and depends on what it waits for, which has not run to the end. */
  ghost predicate WaitersValid(s: Tables) {
    forall d, j {:trigger WaiterValid(s, s.inverse[d][j], d)} :: d in s.inverse && 0 <= j < |s.inverse[d]| ==>
      WaiterValid(s, s.inverse[d][j], d)
  }

  ghost predicate WaiterValid(s: Tables, w: nat, d: nat) {
    && w in s.modules && s.modules[w].dependencies.Some? && w !in s.invoked
    && w in s.declared && Regular(d) in s.declared[w]
    && (d in s.invoked ==> d in s.escaped)
  }

  /** The counter of a live module is exact; a failed module's counter is never too small. Whoever
      is owed a decrement, or lost one, has not run. */
  ghost predicate CountsValid(s: Tables, pending: multiset<nat>) {
    forall m {:trigger CountValid(s, pending, m)} :: m in s.modules ==> CountValid(s, pending, m)
  }

  ghost predicate CountValid(s: Tables, pending: multiset<nat>, m: nat)
    requires m in s.modules
  {
    var due := Occurrences(s.inverse, m, s.nextId) + pending[m] + s.lost[m];
    && s.modules[m].unresolved >= due
    && (!s.modules[m].complete ==> s.modules[m].unresolved == due)
    && (pending[m] + s.lost[m] > 0 ==> m !in s.invoked)
  }

  /** Only exceptions lose decrements, and only of modules. */
  ghost predicate LostValid(s: Tables) {
    forall x :: x in s.lost ==> x in s.modules && |s.escaped| > 0
  }

  /** Each dependency of a module that ran had run before it, or was cut. */
  ghost predicate OrderValid(s: Tables) {
    forall k: nat, d: nat ::
      0 <= k < |s.invoked| && s.invoked[k] in s.declared && Regular(d) in s.declared[s.invoked[k]] ==>
      d in s.invoked[..k] || (s.invoked[k], d) in s.cuts
  }

  /** A cut pair is a declared dependency lying on a cycle of declared dependencies. */
  ghost predicate CutsValid(s: Tables) {
    forall c {:trigger CutValid(s, c.0, c.1)} :: c in s.cuts ==> CutValid(s, c.0, c.1)
  }

  ghost predicate CutValid(s: Tables, m: nat, d: nat) {
    m in s.declared && Regular(d) in s.declared[m] && Reach(DeclaredEdges(s), d, m)
  }

  ghost predicate Core(s: Tables, pending: multiset<nat>) {
    && IdsValid(s) && RecordsValid(s) && WaitersValid(s) && CountsValid(s, pending)
    && LostValid(s) && OrderValid(s) && CutsValid(s) && Acyclic(Waits(s))
  }

  /** The first `upto` dependencies of an incomplete module have each run, been cut, or are awaited. */
  ghost predicate SettledUpto(s: Tables, x: nat, upto: nat)
    requires x in s.declared && upto <= |s.declared[x]|
  {
    forall k {:trigger DependencySettled(s, x, s.declared[x][k].target)} ::
      0 <= k < upto && s.declared[x][k].Regular? ==> DependencySettled(s, x, s.declared[x][k].target)
  }

  ghost predicate DependencySettled(s: Tables, x: nat, d: nat) {
    d in s.invoked || (x, d) in s.cuts || x in Waiters(s, d)
  }

  ghost predicate SettledExcept(s: Tables, m: nat) {
    forall x {:trigger SettledUpto(s, x, |s.declared[x]|)} ::
      x in s.modules && x in s.declared && !s.modules[x].complete && x != m ==> SettledUpto(s, x, |s.declared[x]|)
  }

  ghost predicate Settled(s: Tables) {
    forall x {:trigger SettledUpto(s, x, |s.declared[x]|)} ::
      x in s.modules && x in s.declared && !s.modules[x].complete ==> SettledUpto(s, x, |s.declared[x]|)
  }

  /** No incomplete module outside `hot` has run out of things to wait for. */
  ghost predicate NoneReady(s: Tables, hot: set<nat>) {
    forall m :: m in s.modules && !s.modules[m].complete && m !in hot ==> s.modules[m].unresolved > 0
  }

  /** The invariant between two operations. */
  ghost predicate Quiet(s: Tables) {
    Core(s, multiset{}) && Settled(s) && NoneReady(s, {})
  }

  // ---- Module.complete ----

  lemma NothingAwaited(s: Tables, m: nat, pending: multiset<nat>)
    requires m in s.modules && IdsValid(s) && CountsValid(s, pending) && s.modules[m].unresolved == 0
    ensures pending[m] == 0 && s.lost[m] == 0
    ensures forall d :: d in s.inverse ==> m !in s.inverse[d]
  {
    assert CountValid(s, pending, m);
    forall d | d in s.inverse ensures m !in s.inverse[d] {
      if m in s.inverse[d] { OccurrenceCounts(s.inverse, d, m, s.nextId); }
    }
  }

  lemma CompleteKeepsCounts(s: Tables, m: nat, pending: multiset<nat>)
    requires m in s.modules && IdsValid(s) && CountsValid(s, pending) && WaitersValid(s)
    requires !s.modules[m].complete && s.modules[m].unresolved == 0
    ensures CountsValid(ClearWaiters(Complete(s, m), m), pending + multiset(Waiters(s, m)))
  {
    var t := ClearWaiters(Complete(s, m), m);
    NothingAwaited(s, m, pending);
    forall w | w in Waiters(s, m) ensures w !in t.invoked {
      var j :| 0 <= j < |s.inverse[m]| && s.inverse[m][j] == w;
      assert WaiterValid(s, s.inverse[m][j], m);
    }
    forall x | x in t.modules ensures CountValid(t, pending + multiset(Waiters(s, m)), x) {
      assert CountValid(s, pending, x);
      OccurrencesAfterClear(s.inverse, m, x, s.nextId);
    }
  }

  /** Running a module that waits for nothing keeps the order, however its factory ends. */
  lemma InvokeKeepsOrder(s: Tables, m: nat, pending: multiset<nat>, t: Tables)
    requires m in s.modules && Core(s, pending) && Settled(s)
    requires !s.modules[m].complete && s.modules[m].unresolved == 0
    requires t.invoked == s.invoked + [m] && t.declared == s.declared && t.cuts == s.cuts
    ensures OrderValid(t)
  {
    NothingAwaited(s, m, pending);
    forall k: nat, d: nat | 0 <= k < |t.invoked| && t.invoked[k] in t.declared && Regular(d) in t.declared[t.invoked[k]]
      ensures d in t.invoked[..k] || (t.invoked[k], d) in t.cuts
    {
      if k < |s.invoked| {
        assert t.invoked[..k] == s.invoked[..k];
      } else {
        assert t.invoked[..k] == s.invoked;
        var i :| 0 <= i < |s.declared[m]| && s.declared[m][i] == Regular(d);
        assert SettledUpto(s, m, |s.declared[m]|);
        assert DependencySettled(s, m, s.declared[m][i].target);
      }
    }
  }

  lemma CompleteKeepsRecords(s: Tables, m: nat)
    requires m in s.modules && IdsValid(s) && RecordsValid(s) && !s.modules[m].complete
    ensures IdsValid(ClearWaiters(Complete(s, m), m)) && RecordsValid(ClearWaiters(Complete(s, m), m))
  {
    var t := ClearWaiters(Complete(s, m), m);
    assert RecordValid(s, m);
    forall x | x in t.modules ensures RecordValid(t, x) { assert RecordValid(s, x); }
  }

  lemma CompleteKeepsWaiters(s: Tables, m: nat)
    requires m in s.modules && WaitersValid(s) && Acyclic(Waits(s))
    requires forall d :: d in s.inverse ==> m !in s.inverse[d]
    ensures WaitersValid(ClearWaiters(Complete(s, m), m)) && Acyclic(Waits(ClearWaiters(Complete(s, m), m)))
  {
    var t := ClearWaiters(Complete(s, m), m);
    forall d, j | d in t.inverse && 0 <= j < |t.inverse[d]| ensures WaiterValid(t, t.inverse[d][j], d) {
      assert WaiterValid(s, s.inverse[d][j], d);
    }
    AcyclicSubgraph(Waits(t), Waits(s));
  }

  lemma CutsTransfer(s: Tables, t: Tables)
    requires CutsValid(s) && t.cuts == s.cuts && t.declared == s.declared
    ensures CutsValid(t)
  {
    assert DeclaredEdges(t) == DeclaredEdges(s);
    forall c | c in t.cuts ensures CutValid(t, c.0, c.1) { assert CutValid(s, c.0, c.1); }
  }

  lemma CompleteKeepsSettled(s: Tables, m: nat)
    requires m in s.modules && Settled(s)
    ensures Settled(ClearWaiters(Complete(s, m), m))
  {
    var t := ClearWaiters(Complete(s, m), m);
    forall x | x in t.modules && x in t.declared && !t.modules[x].complete
      ensures SettledUpto(t, x, |t.declared[x]|)
    {
      forall k | 0 <= k < |t.declared[x]| && t.declared[x][k].Regular?
        ensures DependencySettled(t, x, t.declared[x][k].target)
      {
        assert SettledUpto(s, x, |s.declared[x]|);
        assert DependencySettled(s, x, s.declared[x][k].target);
      }
    }
  }

  lemma CompleteKeepsCore(s: Tables, m: nat, pending: multiset<nat>)
    requires m in s.modules && Core(s, pending) && Settled(s)
    requires !s.modules[m].complete && s.modules[m].unresolved == 0
    ensures Core(ClearWaiters(Complete(s, m), m), pending + multiset(Waiters(s, m)))
  {
    NothingAwaited(s, m, pending);
    CompleteKeepsRecords(s, m);
    CompleteKeepsCounts(s, m, pending);
    InvokeKeepsOrder(s, m, pending, ClearWaiters(Complete(s, m), m));
    CompleteKeepsWaiters(s, m);
    CutsTransfer(s, ClearWaiters(Complete(s, m), m));
  }

  // ---- An exception ----

  lemma EscapeKeepsRecords(s: Tables, m: nat, pending: multiset<nat>)
    requires m in s.modules && Core(s, pending) && !s.modules[m].complete && s.modules[m].unresolved == 0
    ensures IdsValid(Escape(s, m)) && RecordsValid(Escape(s, m)) && CountsValid(Escape(s, m), pending)
  {
    var t := Escape(s, m);
    NothingAwaited(s, m, pending);
    assert RecordValid(s, m);
    forall x | x in t.modules ensures RecordValid(t, x) && CountValid(t, pending, x) {
      assert RecordValid(s, x) && CountValid(s, pending, x);
    }
  }

  lemma EscapeKeepsWaiters(s: Tables, m: nat)
    requires m in s.modules && WaitersValid(s) && forall d :: d in s.inverse ==> m !in s.inverse[d]
    ensures WaitersValid(Escape(s, m)) && Waits(Escape(s, m)) == Waits(s)
  {
    var t := Escape(s, m);
    forall d, j | d in t.inverse && 0 <= j < |t.inverse[d]| ensures WaiterValid(t, t.inverse[d][j], d) {
      assert WaiterValid(s, s.inverse[d][j], d);
      assert s.inverse[d][j] in s.inverse[d];
    }
  }

  lemma EscapeKeepsCore(s: Tables, m: nat, pending: multiset<nat>)
    requires m in s.modules && Core(s, pending) && Settled(s)
    requires !s.modules[m].complete && s.modules[m].unresolved == 0
    ensures Core(Escape(s, m), pending)
  {
    NothingAwaited(s, m, pending);
    EscapeKeepsRecords(s, m, pending);
    EscapeKeepsWaiters(s, m);
    InvokeKeepsOrder(s, m, pending, Escape(s, m));
    CutsTransfer(s, Escape(s, m));
  }

  lemma EscapeKeepsSettled(s: Tables, m: nat)
    requires m in s.modules && Settled(s)
    ensures Settled(Escape(s, m))
  {
    var t := Escape(s, m);
    forall x | x in t.modules && x in t.declared && !t.modules[x].complete
      ensures SettledUpto(t, x, |t.declared[x]|)
    {
      forall k | 0 <= k < |t.declared[x]| && t.declared[x][k].Regular?
        ensures DependencySettled(t, x, t.declared[x][k].target)
      {
        assert SettledUpto(s, x, |s.declared[x]|);
        assert DependencySettled(s, x, s.declared[x][k].target);
      }
    }
  }

  /** Abandoning a waiter list turns owed decrements into lost ones. */
  lemma AbandonKeeps(s: Tables, waiters: seq<nat>, pending: multiset<nat>)
    requires Core(s, pending + multiset(waiters)) && Settled(s) && NoneReady(s, {}) && |s.escaped| > 0
    requires forall w :: w in waiters ==> w in s.modules
    ensures Core(Abandon(s, waiters), pending) && Settled(Abandon(s, waiters)) && NoneReady(Abandon(s, waiters), {})
  {
    var t := Abandon(s, waiters);
    forall x | x in t.modules ensures RecordValid(t, x) && CountValid(t, pending, x) {
      assert RecordValid(s, x) && CountValid(s, pending + multiset(waiters), x);
    }
    forall d, j | d in t.inverse && 0 <= j < |t.inverse[d]| ensures WaiterValid(t, t.inverse[d][j], d) {
      assert WaiterValid(s, s.inverse[d][j], d);
    }
    CutsTransfer(s, t);
    assert Waits(t) == Waits(s);
    SettledTransfers(s, t, t.nextId);
    assert t.nextId !in t.modules;
  }

  // ---- The recursion ----

  /** A decrement turns one owed decrement into a done one. */
  lemma DecrementKeepsCore(s: Tables, w: nat, pending: multiset<nat>)
    requires w in s.modules && Core(s, pending + multiset{w})
    ensures Core(Decrement(s, w), pending)
  {
    var t := Decrement(s, w);
    forall x | x in t.modules ensures RecordValid(t, x) && CountValid(t, pending, x) {
      assert RecordValid(s, x) && CountValid(s, pending + multiset{w}, x);
    }
    forall d, j | d in t.inverse && 0 <= j < |t.inverse[d]| ensures WaiterValid(t, t.inverse[d][j], d) {
      assert WaiterValid(s, s.inverse[d][j], d);
    }
    CutsTransfer(s, t);
    assert Waits(t) == Waits(s);
  }

  /** Settledness depends only on what ran, what was cut and who waits. */
  lemma SettledTransfers(s: Tables, t: Tables, m: nat)
    requires SettledExcept(s, m)
    requires t.declared == s.declared && t.invoked == s.invoked && t.cuts == s.cuts && t.inverse == s.inverse
    requires t.modules.Keys == s.modules.Keys
    requires forall x :: x in s.modules && x != m ==> t.modules[x].complete == s.modules[x].complete
    ensures SettledExcept(t, m)
  {
    forall x | x in t.modules && x in t.declared && !t.modules[x].complete && x != m
      ensures SettledUpto(t, x, |t.declared[x]|)
    {
      assert SettledUpto(s, x, |s.declared[x]|);
      forall k | 0 <= k < |t.declared[x]| && t.declared[x][k].Regular?
        ensures DependencySettled(t, x, t.declared[x][k].target)
      {
        assert DependencySettled(s, x, s.declared[x][k].target);
      }
    }
  }

  lemma DecrementKeepsSettled(s: Tables, w: nat)
    requires w in s.modules && Settled(s)
    ensures Settled(Decrement(s, w))
  {
    var t := Decrement(s, w);
    SettledTransfers(s, t, w);
    if !t.modules[w].complete && w in t.declared {
      forall k | 0 <= k < |t.declared[w]| && t.declared[w][k].Regular?
        ensures DependencySettled(t, w, t.declared[w][k].target)
      {
        assert SettledUpto(s, w, |s.declared[w]|);
        assert DependencySettled(s, w, s.declared[w][k].target);
      }
    }
  }

  /** _onModuleComplete keeps the invariant whatever decrements its callers still owe. */
  lemma {:induction false} OnModuleCompleteKeeps(s: Tables, m: nat, pending: multiset<nat>)
    requires WaitersDefined(s) && m in s.modules
    requires Core(s, pending) && Settled(s) && NoneReady(s, {m})
    requires s.modules[m].complete || s.modules[m].unresolved == 0
    ensures Core(OnModuleComplete(s, m), pending) && Settled(OnModuleComplete(s, m))
    ensures NoneReady(OnModuleComplete(s, m), {})
    decreases Incomplete(s), 0
  {
    if s.modules[m].complete {
    } else if s.modules[m].callback.Escapes() {
      EscapeKeepsCore(s, m, pending);
      EscapeKeepsSettled(s, m);
    } else {
      var t := ClearWaiters(Complete(s, m), m);
      assert Incomplete(t) == Incomplete(s) - {m};
      CompleteKeepsCore(s, m, pending);
      CompleteKeepsSettled(s, m);
      ReleaseKeeps(t, Waiters(s, m), pending);
    }
  }

  lemma {:induction false} ReleaseOneKeeps(s: Tables, w: nat, pending: multiset<nat>)
    requires WaitersDefined(s) && w in s.modules
    requires Core(s, pending + multiset{w}) && Settled(s) && NoneReady(s, {})
    ensures Core(ReleaseOne(s, w), pending) && Settled(ReleaseOne(s, w))
    ensures NoneReady(ReleaseOne(s, w), {})
    decreases Incomplete(s), 1
  {
    var t := Decrement(s, w);
    DecrementKeepsCore(s, w, pending);
    DecrementKeepsSettled(s, w);
    assert Incomplete(t) == Incomplete(s);
    if t.modules[w].unresolved == 0 {
      OnModuleCompleteKeeps(t, w, pending);
    } else {
      assert CountValid(t, pending, w);
    }
  }

  lemma OwedFirst(waiters: seq<nat>, pending: multiset<nat>)
    requires waiters != []
    ensures pending + multiset(waiters) == pending + multiset(waiters[1..]) + multiset{waiters[0]}
  {
    assert waiters == [waiters[0]] + waiters[1..];
  }

  lemma {:induction false} ReleaseKeeps(s: Tables, waiters: seq<nat>, pending: multiset<nat>)
    requires WaitersDefined(s) && forall w :: w in waiters ==> w in s.modules
    requires Core(s, pending + multiset(waiters)) && Settled(s) && NoneReady(s, {})
    ensures Core(Release(s, waiters), pending) && Settled(Release(s, waiters))
    ensures NoneReady(Release(s, waiters), {})
    decreases Incomplete(s), 2 + |waiters|
  {
    if waiters == [] {
      assert pending + multiset(waiters) == pending;
    } else {
      var owed := pending + multiset(waiters[1..]);
      OwedFirst(waiters, pending);
      ReleaseOneKeeps(s, waiters[0], owed);
      var t := ReleaseOne(s, waiters[0]);
      if ThrewOut(s, t) {
        AbandonKeeps(t, waiters[1..], pending);
      } else {
        ReleaseKeeps(t, waiters[1..], pending);
      }
    }
  }
}
