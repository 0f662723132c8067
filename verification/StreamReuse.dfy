/** When a stream id may be used again: exactly when it has no record. */
module StreamReuse {
  import opened Options
  import opened StreamSpec
  import opened StreamInvariant
  import opened StreamTheorems

  /** A half that was never shut down and that nobody has: no task, no record. */
  ghost predicate Orphan(s: State, w: nat) {
    && w in s.pipes && s.pipes[w].shutdowns == 0 && Holders(s, w) == {}
    && forall id :: id in s.table ==> s.table[id].write != Some(w)
  }

  /** Without reuse there are no orphans. */
  lemma NoOrphans(s: State, w: nat)
    requires Invariant(s)
    ensures !Orphan(s, w)
  {
    if w in s.idOf {
      var place := PipePlace(s, w);
      assert place.InRecord? ==> s.table[s.idOf[w]].write == Some(w);
    }
  }

  /** An orphan stays one whatever happens, and nothing is delivered to it any more. */
  lemma OrphanStays(s: State, e: Event, w: nat)
    requires Orphan(s, w) && Enabled(s, e)
    ensures Orphan(Next(s, e), w) && Next(s, e).pipes[w] == s.pipes[w]
  {
    forall k | k in s.tasks ensures s.tasks[k].w != w { assert k !in Holders(s, w); }
    if e.Run? {
      OthersRun(s, e.task, e.choice, w);
    }
  }

  /** Whatever a task does that has another half, it does not get hold of this one. */
  lemma OthersRun(s: State, k: nat, choice: nat, w: nat)
    requires k in s.tasks && w in s.pipes && (forall j :: j in s.tasks ==> s.tasks[j].w != w)
    requires forall id :: id in s.table ==> s.table[id].write != Some(w)
    ensures var t := Next(s, Run(k, choice));
      && w in t.pipes && t.pipes[w] == s.pipes[w] && (forall j :: j in t.tasks ==> t.tasks[j].w != w)
      && forall id :: id in t.table ==> t.table[id].write != Some(w)
  {
    match s.tasks[k]
    case AtLock(id, v) =>
    case Writing(id, v, current, rest) =>
    case Closing(v) =>
  }

  // ---- Registering a stream over a record ----

  function ItemsLeft(task: Task): nat {
    if task.Writing? then 1 + |task.rest| else 0
  }

  function BytesLeft(task: Task): nat {
    if task.Writing? then |task.current| else 0
  }

  /** A loop that is left alone writes out its batch. */
  lemma LoopReachesLock(s: State, k: nat) returns (more: seq<Event>, t: State)
    requires k in s.tasks && !s.tasks[k].Closing? && s.tasks[k].w in s.pipes
    ensures IsRun(s, more, t) && t.table == s.table && t.pipes.Keys == s.pipes.Keys
    ensures forall p :: p in s.pipes ==> t.pipes[p].shutdowns == s.pipes[p].shutdowns
    ensures t.tasks == s.tasks[k := AtLock(s.tasks[k].id, s.tasks[k].w)]
    decreases ItemsLeft(s.tasks[k]), BytesLeft(s.tasks[k])
  {
    if s.tasks[k].AtLock? {
      more, t := [], s;
      assert s.tasks == s.tasks[k := s.tasks[k]];
    } else {
      var e := Run(k, |s.tasks[k].current|);
      var u := Next(s, e);
      more, t := LoopReachesLock(u, k);
      more := [e] + more;
    }
  }

  /** The record is idle: its half is gone at once. */
  lemma OverwriteIdle(s: State, id: nat, w: nat)
    requires Invariant(s) && w !in s.pipes && id in s.table && s.table[id].write.Some?
    ensures id in s.pipeOf && Orphan(Next(s, Insert(id, w)), s.pipeOf[id])
  {
    var t := Next(s, Insert(id, w));
    var v, place := CurrentPlace(s, id);
    assert Holders(t, v) == Holders(s, v);
    forall i | i in t.table ensures t.table[i].write != Some(v) {
      if i != id {
        var v', place' := CurrentPlace(s, i);
        assert Serves(s, i, v') && Serves(s, id, v);
      }
    }
  }

  /** A loop that was running when its record was overwritten gives its half back to the new one. */
  lemma LoopReturnsToNew(s: State, id: nat, w: nat) returns (more: seq<Event>, u: State)
    requires Invariant(s) && w !in s.pipes && id in s.table && s.table[id].write.None?
    ensures id in s.pipeOf && s.pipeOf[id] != w && IsRun(Next(s, Insert(id, w)), more, u)
    ensures w in u.pipes && u.pipes[w].shutdowns == 0
    ensures id in u.table && u.table[id].write == Some(s.pipeOf[id])
    ensures forall i :: i in u.table && i != id ==> i in s.table && u.table[i] == s.table[i]
    ensures forall j :: j in u.tasks ==> j in s.tasks && u.tasks[j].w == s.tasks[j].w
  {
    var t := Next(s, Insert(id, w));
    var v, place := CurrentPlace(s, id);
    var k := place.task;
    var first, t1 := LoopReachesLock(t, k);
    assert t1.tasks[k] == AtLock(id, v);
    u := Next(t1, Run(k, 0));
    RunThenStep(t, first, t1, Run(k, 0));
    more := first + [Run(k, 0)];
  }

  /** A loop is running: it puts the old half into the new record, and the new half is gone. */
  lemma OverwriteBusy(s: State, id: nat, w: nat) returns (more: seq<Event>, u: State)
    requires Invariant(s) && w !in s.pipes && id in s.table && s.table[id].write.None?
    ensures id in s.pipeOf && IsRun(Next(s, Insert(id, w)), more, u)
    ensures Orphan(u, w) && id in u.table && u.table[id].write == Some(s.pipeOf[id])
  {
    more, u := LoopReturnsToNew(s, id, w);
    forall i | i in u.table ensures u.table[i].write != Some(w) {
      if i != id { NewIsInNoRecord(s, i, w); }
    }
    forall j | j in u.tasks ensures u.tasks[j].w != w {
      assert s.tasks[j].w in s.idOf;
    }
  }

  lemma NewIsInNoRecord(s: State, i: nat, w: nat)
    requires Invariant(s) && w !in s.pipes && i in s.table
    ensures s.table[i].write != Some(w)
  {
    var v, place := CurrentPlace(s, i);
  }

  lemma {:induction false} RunThenStep(s: State, events: seq<Event>, t: State, e: Event)
    requires IsRun(s, events, t) && Enabled(t, e) && Vacant(t, e)
    ensures IsRun(s, events + [e], Next(t, e))
    decreases |events|
  {
    if events == [] {
      assert events + [e] == [e];
      assert [e][1..] == [];
    } else {
      RunThenStep(Next(s, events[0]), events[1..], t, e);
      assert (events + [e])[1..] == events[1..] + [e];
    }
  }

  /** Some continuation, itself without reuse, leaves a half without an owner. */
  ghost predicate CanOrphan(s: State) {
    exists events, t, w :: IsRun(s, events, t) && Orphan(t, w)
  }

  /** Registering a stream is harmless if and only if its id has no record. */
  lemma RegisteringIsSafeIff(s: State, id: nat, w: nat)
    requires Invariant(s) && w !in s.pipes
    ensures Invariant(Next(s, Insert(id, w))) <==> id !in s.table
    ensures CanOrphan(Next(s, Insert(id, w))) <==> id in s.table
  {
    var t := Next(s, Insert(id, w));
    if id !in s.table {
      InsertKeeps(s, id, w);
      if CanOrphan(t) {
        var events, u, v :| IsRun(t, events, u) && Orphan(u, v);
        RunKeeps(t, events, u);
        NoOrphans(u, v);
      }
    } else {
      var more, u, v := [], t, 0;
      if s.table[id].write.Some? {
        OverwriteIdle(s, id, w);
        v := s.pipeOf[id];
      } else {
        more, u := OverwriteBusy(s, id, w);
        v := w;
      }
      assert IsRun(t, more, u) && Orphan(u, v);
      if Invariant(t) {
        RunKeeps(t, more, u);
        NoOrphans(u, v);
      }
    }
  }
}
