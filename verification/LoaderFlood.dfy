/** The walk of _onLoadError over the modules that wait, directly or not, for the one that failed
    to load: whom it gets to if errorbacks throw. */
module LoaderFlood {
  import opened Collections
  import opened Graphs
  import opened LoaderSpec

  // ---- The walk covers exactly the affected modules ----

  lemma {:induction false} Captured(s: Tables, failed: nat, seen: set<nat>, x: nat, mid: seq<nat>)
    requires failed in seen && Walk(Waits(s), x, mid, failed)
    requires forall d, w :: d in seen && w in Waiters(s, d) ==> w in seen
    ensures x in seen
    decreases |mid|
  {
    if mid != [] { Captured(s, failed, seen, mid[0], mid[1..]); }
    assert x in Waiters(s, if mid == [] then failed else mid[0]);
  }

  lemma SeenIsAffected(s: Tables, failed: nat, seen: set<nat>)
    requires failed in seen && seen <= Affected(s, failed)
    requires forall d, w :: d in seen && w in Waiters(s, d) ==> w in seen
    ensures seen == Affected(s, failed)
  {
    forall x | x in Affected(s, failed) ensures x in seen {
      if x != failed {
        var mid :| Walk(Waits(s), x, mid, failed);
        Captured(s, failed, seen, x, mid);
      }
    }
  }

  lemma WaiterIsAffected(s: Tables, failed: nat, d: nat, w: nat)
    requires d in Affected(s, failed) && w in Waiters(s, d)
    ensures w in Affected(s, failed)
  {
    var j :| 0 <= j < |s.inverse[d]| && s.inverse[d][j] == w;
    assert (s.inverse[d][j], d) in Waits(s);
    ReachEdge(Waits(s), w, d);
    if d != failed { ReachTrans(Waits(s), w, d, failed); }
  }

  /** Where the walk stands: `done` has been taken off the queue, and nobody who waits for a module
      in there was overlooked. */
  ghost predicate Flooding(s: Tables, m: nat, done: set<nat>, queue: seq<nat>, seen: set<nat>) {
    && m in seen && seen <= Affected(s, m) && NoDuplicates(queue)
    && (forall x :: x in seen <==> x in done || x in queue)
    && (forall x :: x in queue ==> x !in done)
    && (forall d, w :: d in done && w in Waiters(s, d) ==> w in seen)
  }

  lemma FloodStep(s: Tables, m: nat, done: set<nat>, queue: seq<nat>, seen: set<nat>, more: seq<nat>)
    requires Flooding(s, m, done, queue, seen) && queue != [] && NoDuplicates(more)
    requires forall x :: x in more <==> x in Waiters(s, queue[0]) && x !in seen
    ensures Flooding(s, m, done + {queue[0]}, queue[1..] + more, seen + Elements(more))
  {
    assert queue[0] in queue;
    forall w | w in Waiters(s, queue[0]) ensures w in Affected(s, m) {
      WaiterIsAffected(s, m, queue[0], w);
    }
    assert queue == [queue[0]] + queue[1..] && queue[0] !in queue[1..];
    assert forall x :: x in queue[1..] ==> x in seen;
    NoDuplicatesConcat(queue[1..], more);
  }

  lemma {:induction false} WalkedCovers(s: Tables, m: nat, done: set<nat>, queue: seq<nat>, seen: set<nat>)
    requires WaitersDefined(s) && Flooding(s, m, done, queue, seen)
    ensures NoDuplicates(Walked(s, queue, seen))
    ensures forall x :: x in Walked(s, queue, seen) <==> x in Affected(s, m) && x !in done
    decreases |s.modules.Keys - seen| + |queue|
  {
    if queue == [] {
      SeenIsAffected(s, m, seen);
    } else {
      var more := Unseen(Waiters(s, queue[0]), seen);
      UnseenIs(Waiters(s, queue[0]), seen);
      UnseenShrinks(Waiters(s, queue[0]), seen, s.modules.Keys);
      FloodStep(s, m, done, queue, seen, more);
      WalkedCovers(s, m, done + {queue[0]}, queue[1..] + more, seen + Elements(more));
      assert queue[0] in queue;
      CoversOneMore(Affected(s, m), done, queue[0], Walked(s, queue[1..] + more, seen + Elements(more)));
    }
  }

  lemma CoversOneMore(all: set<nat>, done: set<nat>, x: nat, rest: seq<nat>)
    requires x in all && x !in done && NoDuplicates(rest)
    requires forall y :: y in rest <==> y in all && y !in done + {x}
    ensures NoDuplicates([x] + rest)
    ensures forall y :: y in [x] + rest <==> y in all && y !in done
  {
    NoDuplicatesConcat([x], rest);
  }

  /** Undisturbed, the walk gets once to everything that waits for the failed module, starting
      with that module itself. */
  lemma WalkIsAffected(s: Tables, m: nat)
    requires WaitersDefined(s)
    ensures NoDuplicates(Walked(s, [m], {m})) && Elements(Walked(s, [m], {m})) == Affected(s, m)
    ensures |Walked(s, [m], {m})| > 0 && Walked(s, [m], {m})[0] == m
  {
    WalkedCovers(s, m, {}, [m], {m});
  }

  // ---- How far it gets ----

  /** The walk gets past everyone in front of position k. */
  ghost predicate Unbroken(s: Tables, order: seq<nat>, k: nat, throwing: set<nat>)
    requires k <= |order|
  {
    forall j :: 0 <= j < k ==> !Interrupts(s, order[j], throwing)
  }

  lemma {:induction false} UninterruptedIs(s: Tables, order: seq<nat>, throwing: set<nat>)
    ensures Uninterrupted(s, order, throwing) <= order
    ensures forall k: nat :: k < |order| ==>
            (k < |Uninterrupted(s, order, throwing)| <==> Unbroken(s, order, k, throwing))
    decreases |order|
  {
    if order != [] {
      UninterruptedIs(s, order[1..], throwing);
      forall k: nat | k < |order|
        ensures k < |Uninterrupted(s, order, throwing)| <==> Unbroken(s, order, k, throwing)
      {
        if k > 0 && !Interrupts(s, order[0], throwing) {
          assert Unbroken(s, order, k, throwing) <==> Unbroken(s, order[1..], k - 1, throwing) by {
            assert forall j :: 0 <= j < k - 1 ==> order[1..][j] == order[j + 1];
          }
        }
      }
    }
  }

  lemma {:induction false} UninterruptedUpto(s: Tables, done: seq<nat>, rest: seq<nat>, throwing: set<nat>)
    requires NoneInterrupts(s, done, throwing)
    requires rest == [] || Interrupts(s, rest[0], throwing)
    ensures Uninterrupted(s, done + rest, throwing) == done + if rest == [] then [] else [rest[0]]
    decreases |done|
  {
    if done == [] {
      assert done + rest == rest;
    } else {
      assert (done + rest)[1..] == done[1..] + rest && done[0] in done;
      UninterruptedUpto(s, done[1..], rest, throwing);
    }
  }

  /** A module fails with the one that failed to load if and only if it waits for it and no
      errorback that is called before its own throws. */
  lemma ToldIff(s: Tables, m: nat, throwing: set<nat>, k: nat)
    requires WaitersDefined(s) && k < |Walked(s, [m], {m})|
    ensures Walked(s, [m], {m})[k] in Told(s, m, throwing) <==> Unbroken(s, Walked(s, [m], {m}), k, throwing)
  {
    var order, told := Walked(s, [m], {m}), Told(s, m, throwing);
    UninterruptedIs(s, order, throwing);
    WalkIsAffected(s, m);
    InPrefixIff(told, order, k);
  }

  lemma InPrefixIff(told: seq<nat>, order: seq<nat>, k: nat)
    requires told <= order && NoDuplicates(order) && k < |order|
    ensures order[k] in told <==> k < |told|
  {
    if k < |told| { assert told[k] == order[k]; }
  }

  /** Everything that waits for the failed module fails with it if and only if no errorback
      throws, but perhaps the last. */
  lemma AllToldIff(s: Tables, m: nat, throwing: set<nat>)
    requires WaitersDefined(s) && |Walked(s, [m], {m})| > 0
    ensures Elements(Told(s, m, throwing)) == Affected(s, m)
       <==> Unbroken(s, Walked(s, [m], {m}), |Walked(s, [m], {m})| - 1, throwing)
  {
    var order, told := Walked(s, [m], {m}), Told(s, m, throwing);
    WalkIsAffected(s, m);
    UninterruptedIs(s, order, throwing);
    ToldIff(s, m, throwing, |order| - 1);
    if Unbroken(s, order, |order| - 1, throwing) {
      assert |told| == |order| && told == order;
    } else {
      assert order[|order| - 1] in Elements(order) && order[|order| - 1] !in told;
    }
  }

  // ---- Errorbacks and the global handler ----

  lemma {:induction false} WithErrorbackIs(s: Tables, order: seq<nat>)
    ensures forall x :: x in WithErrorback(s, order) <==> x in order && x in s.modules && s.modules[x].errorback
    ensures NoDuplicates(order) ==> NoDuplicates(WithErrorback(s, order))
    decreases |order|
  {
    if order != [] {
      WithErrorbackIs(s, order[1..]);
      assert order == [order[0]] + order[1..];
      assert NoDuplicates(order) ==> NoDuplicates(order[1..]) && order[0] !in order[1..];
    }
  }

  lemma {:induction false} WithErrorbackConcat(s: Tables, a: seq<nat>, b: seq<nat>)
    ensures WithErrorback(s, a + b) == WithErrorback(s, a) + WithErrorback(s, b)
    decreases |a|
  {
    if a == [] {
      assert a + b == b;
    } else {
      assert (a + b)[1..] == a[1..] + b;
      WithErrorbackConcat(s, a[1..], b);
    }
  }

  lemma {:induction false} InterruptedHasErrorback(s: Tables, order: seq<nat>, throwing: set<nat>)
    ensures Uninterrupted(s, order, throwing) != order ==> WithErrorback(s, Uninterrupted(s, order, throwing)) != []
    decreases |order|
  {
    if order != [] {
      InterruptedHasErrorback(s, order[1..], throwing);
      if Interrupts(s, order[0], throwing) {
        assert WithErrorback(s, [order[0]]) == [order[0]] + WithErrorback(s, []);
      } else {
        assert Uninterrupted(s, order, throwing)[1..] == Uninterrupted(s, order[1..], throwing);
      }
    }
  }

  /** No errorback is called twice; and whichever of them throw, the global handler hears of the
      failure if and only if nobody who waits for the module has an errorback. */
  lemma HandlerHearsIff(s: Tables, m: nat, throwing: set<nat>)
    requires WaitersDefined(s)
    ensures NoDuplicates(WithErrorback(s, Told(s, m, throwing)))
    ensures WithErrorback(s, Told(s, m, throwing)) == []
       <==> forall x :: x in Affected(s, m) && x in s.modules ==> !s.modules[x].errorback
  {
    var order, told := Walked(s, [m], {m}), Told(s, m, throwing);
    WalkIsAffected(s, m);
    UninterruptedIs(s, order, throwing);
    PrefixIsAmong(told, order, Affected(s, m));
    WithErrorbackIs(s, told);
    NobodyHasErrorback(s, told);
    InterruptedHasErrorback(s, order, throwing);
  }

  lemma NobodyHasErrorback(s: Tables, order: seq<nat>)
    ensures WithErrorback(s, order) == [] <==> forall x :: x in order && x in s.modules ==> !s.modules[x].errorback
  {
    WithErrorbackIs(s, order);
    if WithErrorback(s, order) != [] {
      assert WithErrorback(s, order)[0] in WithErrorback(s, order);
    }
  }

  lemma PrefixIsAmong(told: seq<nat>, order: seq<nat>, all: set<nat>)
    requires told <= order && Elements(order) == all
    ensures forall x :: x in told ==> x in all
    ensures told == order ==> forall x :: x in all ==> x in told
    ensures NoDuplicates(order) ==> NoDuplicates(told)
  {
    assert forall x :: x in told ==> x in Elements(order);
    assert forall x :: x in Elements(order) ==> x in order;
  }

  /** If nobody waits for the module, the walk ends with it. */
  lemma NobodyWaits(s: Tables, m: nat, throwing: set<nat>)
    requires WaitersDefined(s) && Waiters(s, m) == []
    ensures Told(s, m, throwing) == [m]
  {
    var more := Unseen(Waiters(s, m), {m});
    assert more == [] && [m][0] == m && [m][1..] + more == [];
    assert Walked(s, [], {m} + Elements(more)) == [];
    assert Walked(s, [m], {m}) == [m];
    assert Uninterrupted(s, [m][1..], throwing) == [];
  }

  // ---- The walk step by step ----

  /** `done` has been taken off the queue, and the rest of the walk is ahead. */
  ghost predicate Walking(s: Tables, order: seq<nat>, done: seq<nat>, queue: seq<nat>, seen: set<nat>)
    requires WaitersDefined(s)
  {
    order == done + Walked(s, queue, seen) && forall x :: x in queue ==> x in s.modules
  }

  ghost predicate NoneInterrupts(s: Tables, done: seq<nat>, throwing: set<nat>) {
    forall x {:trigger Interrupts(s, x, throwing)} :: x in done ==> !Interrupts(s, x, throwing)
  }

  lemma WalkOne(s: Tables, order: seq<nat>, done: seq<nat>, queue: seq<nat>, seen: set<nat>)
    requires WaitersDefined(s) && queue != [] && Walking(s, order, done, queue, seen)
    ensures var more := Unseen(Waiters(s, queue[0]), seen);
      && Walking(s, order, done + [queue[0]], queue[1..] + more, seen + Elements(more))
      && |s.modules.Keys - (seen + Elements(more))| + |queue[1..] + more| < |s.modules.Keys - seen| + |queue|
  {
    UnseenShrinks(Waiters(s, queue[0]), seen, s.modules.Keys);
    UnseenIs(Waiters(s, queue[0]), seen);
  }

  lemma WalkHead(s: Tables, order: seq<nat>, done: seq<nat>, queue: seq<nat>, seen: set<nat>)
    requires WaitersDefined(s) && queue != [] && Walking(s, order, done, queue, seen)
    ensures queue[0] in s.modules
  {
    assert queue[0] in queue;
  }

  lemma WalkInterrupted(s: Tables, order: seq<nat>, done: seq<nat>, queue: seq<nat>, seen: set<nat>, throwing: set<nat>)
    requires WaitersDefined(s) && queue != [] && Walking(s, order, done, queue, seen)
    requires NoneInterrupts(s, done, throwing) && Interrupts(s, queue[0], throwing)
    ensures Uninterrupted(s, order, throwing) == done + [queue[0]]
    ensures exists x :: x in done + [queue[0]] && Interrupts(s, x, throwing)
  {
    UninterruptedUpto(s, done, Walked(s, queue, seen), throwing);
    assert queue[0] in done + [queue[0]];
  }

  lemma WalkFinished(s: Tables, order: seq<nat>, done: seq<nat>, seen: set<nat>, throwing: set<nat>)
    requires WaitersDefined(s) && Walking(s, order, done, [], seen) && NoneInterrupts(s, done, throwing)
    ensures Uninterrupted(s, order, throwing) == done
  {
    UninterruptedUpto(s, done, [], throwing);
  }

  lemma NotifyOneMore(s: Tables, done: seq<nat>, x: nat)
    requires x in s.modules
    ensures WithErrorback(s, done + [x]) ==
            if s.modules[x].errorback then WithErrorback(s, done) + [x] else WithErrorback(s, done)
  {
    WithErrorbackConcat(s, done, [x]);
    assert [x][1..] == [] && WithErrorback(s, []) == [];
  }

  /** Where the flood stands in the tables `now`: those in `done` have failed, and no errorback has
      thrown. */
  ghost predicate Flooded(s: Tables, order: seq<nat>, done: seq<nat>, queue: seq<nat>, seen: set<nat>,
                          err: LoadError, throwing: set<nat>, notified: seq<nat>, now: Tables)
    requires WaitersDefined(s)
  {
    && now == MarkFailed(s, Elements(done), err)
    && Walking(s, order, done, queue, seen) && NoneInterrupts(s, done, throwing)
    && notified == WithErrorback(s, done)
  }

  /** Where it ends. */
  ghost predicate FloodEnds(s: Tables, told: seq<nat>, err: LoadError, throwing: set<nat>,
                            notified: seq<nat>, threw: bool, now: Tables) {
    && now == MarkFailed(s, Elements(told), err) && notified == WithErrorback(s, told)
    && (threw <==> exists x :: x in told && Interrupts(s, x, throwing))
  }

  lemma FloodStarts(s: Tables, m: nat, err: LoadError, throwing: set<nat>)
    requires WaitersDefined(s) && m in s.modules
    ensures Flooded(s, Walked(s, [m], {m}), [], [m], {m}, err, throwing, [], s)
  {
    assert [] + Walked(s, [m], {m}) == Walked(s, [m], {m});
  }

  lemma FloodHead(s: Tables, order: seq<nat>, done: seq<nat>, queue: seq<nat>, seen: set<nat>,
                  err: LoadError, throwing: set<nat>, notified: seq<nat>, now: Tables)
    requires WaitersDefined(s) && queue != []
    requires Flooded(s, order, done, queue, seen, err, throwing, notified, now)
    ensures queue[0] in s.modules && now.modules.Keys == s.modules.Keys && now.inverse == s.inverse
    ensures now.modules[queue[0]].errorback == s.modules[queue[0]].errorback
  {
    WalkHead(s, order, done, queue, seen);
    MarkOneMore(s, done, queue[0], err);
  }

  /** Where calling the errorback of x leaves the list of those called. */
  function Called(s: Tables, notified: seq<nat>, x: nat): seq<nat>
    requires x in s.modules
  {
    if s.modules[x].errorback then notified + [x] else notified
  }

  lemma FloodThrows(s: Tables, order: seq<nat>, done: seq<nat>, queue: seq<nat>, seen: set<nat>, err: LoadError,
                    throwing: set<nat>, notified: seq<nat>, now: Tables, notified': seq<nat>, next: Tables)
    requires WaitersDefined(s) && queue != [] && queue[0] in s.modules && queue[0] in now.modules
    requires Flooded(s, order, done, queue, seen, err, throwing, notified, now)
    requires Interrupts(s, queue[0], throwing)
    requires next == OnDependencyError(now, queue[0], err) && notified' == Called(s, notified, queue[0])
    ensures FloodEnds(s, Uninterrupted(s, order, throwing), err, throwing, notified', true, next)
  {
    NotifyOneMore(s, done, queue[0]);
    MarkOneMore(s, done, queue[0], err);
    WalkInterrupted(s, order, done, queue, seen, throwing);
  }

  lemma FloodAdvances(s: Tables, order: seq<nat>, done: seq<nat>, queue: seq<nat>, seen: set<nat>, err: LoadError,
                      throwing: set<nat>, notified: seq<nat>, now: Tables,
                      queue': seq<nat>, seen': set<nat>, notified': seq<nat>, next: Tables)
    requires WaitersDefined(s) && queue != [] && queue[0] in s.modules && queue[0] in now.modules
    requires Flooded(s, order, done, queue, seen, err, throwing, notified, now)
    requires !Interrupts(s, queue[0], throwing)
    requires next == OnDependencyError(now, queue[0], err) && notified' == Called(s, notified, queue[0])
    requires queue' == queue[1..] + Unseen(Waiters(next, queue[0]), seen)
    requires seen' == seen + Elements(Unseen(Waiters(next, queue[0]), seen))
    ensures Flooded(s, order, done + [queue[0]], queue', seen', err, throwing, notified', next)
    ensures |s.modules.Keys - seen'| + |queue'| < |s.modules.Keys - seen| + |queue|
  {
    NotifyOneMore(s, done, queue[0]);
    MarkOneMore(s, done, queue[0], err);
    WalkOne(s, order, done, queue, seen);
  }

  lemma MarkOneMore(s: Tables, done: seq<nat>, x: nat, err: LoadError)
    requires x in s.modules
    ensures OnDependencyError(MarkFailed(s, Elements(done), err), x, err) == MarkFailed(s, Elements(done + [x]), err)
    ensures MarkFailed(s, Elements(done), err).modules[x].errorback == s.modules[x].errorback
  {}

  lemma FloodStops(s: Tables, order: seq<nat>, done: seq<nat>, seen: set<nat>,
                   err: LoadError, throwing: set<nat>, notified: seq<nat>, now: Tables)
    requires WaitersDefined(s) && Flooded(s, order, done, [], seen, err, throwing, notified, now)
    ensures FloodEnds(s, Uninterrupted(s, order, throwing), err, throwing, notified, false, now)
  {
    WalkFinished(s, order, done, seen, throwing);
  }
}
