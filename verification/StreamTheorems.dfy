/** What the stream protocol guarantees over all interleavings of writers, removers and write
    loops, as long as no stream is registered under an id that still has a record. Streams are
    told apart by their pipes: an id may serve many of them, one after the other, and the half of
    an earlier one may still be on its way to being shut down. */
module StreamTheorems {
  import opened Options
  import opened StreamSpec
  import opened StreamInvariant

  lemma ReachableInvariant(events: seq<Event>, s: State)
    requires IsRun(INITIAL, events, s)
    ensures Invariant(s)
  {
    RunKeeps(INITIAL, events, s);
  }

  lemma PipePlace(s: State, w: nat) returns (place: Place)
    requires Invariant(s) && w in s.idOf
    ensures StreamOk(s, s.idOf[w], w, place)
  {
    assert PipeOwned(s, w);
    place :| StreamOk(s, s.idOf[w], w, place);
  }

  /** What the record of a pipe has queued for it. */
  function Queued(s: State, w: nat): Buffer
    requires w in s.idOf
  {
    if Current(s, s.idOf[w], w) then Flat(s.table[s.idOf[w]].q) else []
  }

  /** Bytes come out in the order they were accepted, none lost, none twice, none invented: as
      long as no write has failed, what a pipe delivered, then what the loop holds if there is
      one, then the queue, is what was accepted. */
  lemma FifoConservation(events: seq<Event>, s: State, w: nat)
    requires IsRun(INITIAL, events, s) && w in s.idOf && w !in s.failed
    ensures w in s.pipes && w in s.accepted
    ensures Holders(s, w) == {} ==> s.pipes[w].delivered == Flat(s.accepted[w]) && Queued(s, w) == []
    ensures forall t :: t in Holders(s, w) ==>
              s.pipes[w].delivered + (InFlight(s.tasks[t]) + Queued(s, w)) == Flat(s.accepted[w])
  {
    ReachableInvariant(events, s);
    var place := PipePlace(s, w);
    assert s.pipes[w].delivered + [] == s.pipes[w].delivered;
  }

  lemma {:induction false} SelectsPrefix(a: Buffer, c: Buffer, b: Buffer)
    requires Selects(a + c, b)
    ensures Selects(a, b)
  {
    assert a + c == a + (c + []);
    SelectsWithout(a, c, [], b);
    assert a + [] == a;
  }

  /** Even if writes fail, nothing is invented, repeated or reordered: what a pipe delivered is
      an ordered selection of the bytes accepted for it. */
  lemma DeliveredIsSelection(events: seq<Event>, s: State, w: nat)
    requires IsRun(INITIAL, events, s) && w in s.idOf
    ensures w in s.pipes && w in s.accepted && Selects(s.pipes[w].delivered, Flat(s.accepted[w]))
  {
    ReachableInvariant(events, s);
    var place := PipePlace(s, w);
    SelectsPrefix(s.pipes[w].delivered, Undelivered(s, s.idOf[w], w, place), Flat(s.accepted[w]));
  }

  /** A half is shut down at most once, and by then everything accepted has been delivered. */
  lemma DrainedBeforeClose(events: seq<Event>, s: State, w: nat)
    requires IsRun(INITIAL, events, s) && w in s.idOf
    ensures w in s.pipes && w in s.accepted && s.pipes[w].shutdowns <= 1
    ensures s.pipes[w].shutdowns == 1 && w !in s.failed ==> s.pipes[w].delivered == Flat(s.accepted[w])
    ensures s.pipes[w].shutdowns == 1 ==> !Current(s, s.idOf[w], w) && Holders(s, w) == {}
  {
    ReachableInvariant(events, s);
    var place := PipePlace(s, w);
  }

  /** The write half has one owner: no two tasks hold it, and while one does, no record has it and
      it has not been shut down. */
  lemma SingleOwner(events: seq<Event>, s: State, t: nat, u: nat)
    requires IsRun(INITIAL, events, s) && t in s.tasks && u in s.tasks && s.tasks[t].w == s.tasks[u].w
    ensures t == u
    ensures forall id :: id in s.table ==> s.table[id].write != Some(s.tasks[t].w)
    ensures s.tasks[t].w in s.pipes && s.pipes[s.tasks[t].w].shutdowns == 0
  {
    ReachableInvariant(events, s);
    var i, place := TaskPlace(s, t);
    assert t in Holders(s, s.tasks[t].w) && u in Holders(s, s.tasks[t].w);
    forall id | id in s.table ensures s.table[id].write != Some(s.tasks[t].w) {
      var w, p := CurrentPlace(s, id);
      assert s.table[id].write == Some(w) ==> Holders(s, w) == {};
    }
  }

  /** A write loop never finds its record missing, nor another stream's. */
  lemma RecordNeverMissing(events: seq<Event>, s: State, t: nat)
    requires IsRun(INITIAL, events, s) && t in s.tasks && !s.tasks[t].Closing?
    ensures Current(s, s.tasks[t].id, s.tasks[t].w)
  {
    ReachableInvariant(events, s);
    var id, place := TaskPlace(s, t);
  }

  /** No lost wake-up: a record with work to do has exactly one write loop, and a record without
      a loop has nothing queued. */
  lemma NoLostWakeUp(events: seq<Event>, s: State, id: nat)
    requires IsRun(INITIAL, events, s) && id in s.table
    ensures id in s.pipeOf
    ensures s.table[id].q != [] || s.table[id].ended ==>
              exists t :: Holders(s, s.pipeOf[id]) == {t} && t in s.tasks && !s.tasks[t].Closing? && s.tasks[t].id == id
    ensures s.table[id].write.Some? ==> s.table[id] == StreamRec(Some(s.pipeOf[id]), [], false)
  {
    ReachableInvariant(events, s);
    var w, place := CurrentPlace(s, id);
    if place.InLoop? { assert Holders(s, w) == {place.task}; }
  }

  // ---- Every loop comes to an end ----

  function Weight(bs: seq<Buffer>): nat {
    if bs == [] then 0 else |bs[0]| + 2 + Weight(bs[1..])
  }

  function QueueWeight(q: seq<Buffer>): nat {
    Weight(q) + if q == [] then 0 else 2
  }

  /** How many more steps the tasks of a stream can take. */
  ghost function Remaining(s: State, id: nat, place: Place): nat {
    match place
    case InRecord => 1
    case InLoop(t) =>
      if t !in s.tasks || id !in s.table then 0
      else
        (match s.tasks[t]
         case AtLock(_, _) => 2
         case Writing(_, _, current, rest) => 3 + |current| + Weight(rest)
         case Closing(_) => 1) + QueueWeight(s.table[id].q)
    case BeingShut(_) => 1
    case Shut => 0
  }

  ghost function PlaceOf(s: State, w: nat): (place: Place)
    requires PipeOwned(s, w)
    ensures StreamOk(s, s.idOf[w], w, place)
  {
    var place :| StreamOk(s, s.idOf[w], w, place);
    place
  }

  lemma PlaceIsUnique(s: State, id: nat, w: nat, a: Place, b: Place)
    requires StreamOk(s, id, w, a) && StreamOk(s, id, w, b)
    ensures a == b
  {
    if a.InLoop? || a.BeingShut? { assert a.task in Holders(s, w); }
    if b.InLoop? || b.BeingShut? { assert b.task in Holders(s, w); }
  }

  ghost function Work(s: State, w: nat): nat
    requires Invariant(s)
  {
    if w in s.idOf then assert PipeOwned(s, w); Remaining(s, s.idOf[w], PlaceOf(s, w)) else 0
  }

  /** Work is what Remaining says of the one place the half is at. */
  lemma WorkAt(s: State, w: nat, place: Place)
    requires Invariant(s) && w in s.idOf && StreamOk(s, s.idOf[w], w, place)
    ensures Work(s, w) == Remaining(s, s.idOf[w], place)
  {
    assert PipeOwned(s, w);
    PlaceIsUnique(s, s.idOf[w], w, PlaceOf(s, w), place);
  }

  /** What is left at place b of t is less than what was left at place a of s. */
  lemma LessWork(s: State, a: Place, t: State, b: Place, id: nat, w: nat)
    requires Invariant(s) && Serves(s, id, w) && StreamOk(s, id, w, a)
    requires Invariant(t) && Serves(t, id, w) && StreamOk(t, id, w, b)
    requires Remaining(t, id, b) < Remaining(s, id, a)
    ensures Work(t, w) < Work(s, w)
  {
    WorkAt(s, w, a);
    WorkAt(t, w, b);
  }

  lemma TurnLeavesLess(s: State, id: nat, w: nat, k: nat)
    requires id in s.table && k in s.tasks && s.tasks[k] == AtLock(id, w)
    ensures var t, rec, r := TakeTurn(s, k, id, w), s.table[id], Remaining(s, id, InLoop(k));
      && (rec.q != [] ==> Remaining(t, id, InLoop(k)) < r)
      && (rec.q == [] && rec.ended ==> Remaining(t, id, BeingShut(k)) < r)
      && (rec.q == [] && !rec.ended ==> Remaining(t, id, InRecord) < r)
  {}

  lemma WriteLeavesLess(s: State, id: nat, w: nat, k: nat, choice: nat)
    requires id in s.table && k in s.tasks && s.tasks[k].Writing? && s.tasks[k].id == id && s.tasks[k].w == w
             && w in s.pipes
    ensures var t := WriteSome(s, k, id, w, s.tasks[k].current, s.tasks[k].rest, choice);
      Remaining(t, id, InLoop(k)) < Remaining(s, id, InLoop(k))
  {}

  /** Where the locked section leaves the half: with less to do. */
  lemma TurnGoesTo(s: State, id: nat, w: nat, k: nat) returns (place: Place)
    requires Turning(s, id, w, k)
    ensures StreamOk(TakeTurn(s, k, id, w), id, w, place)
    ensures Remaining(TakeTurn(s, k, id, w), id, place) < Remaining(s, id, InLoop(k))
  {
    TurnLeavesLess(s, id, w, k);
    if s.table[id].q != [] {
      TurnTakesBatch(s, id, w, k);
      place := InLoop(k);
    } else if s.table[id].ended {
      TurnEnds(s, id, w, k);
      place := BeingShut(k);
    } else {
      TurnReturns(s, id, w, k);
      place := InRecord;
    }
  }

  lemma TurnWorks(s: State, id: nat, w: nat, k: nat)
    requires Turning(s, id, w, k) && Invariant(TakeTurn(s, k, id, w))
    ensures Work(TakeTurn(s, k, id, w), w) < Work(s, w)
  {
    var t := TakeTurn(s, k, id, w);
    var place := TurnGoesTo(s, id, w, k);
    TurnShape(s, id, w, k);
    LessWork(s, InLoop(k), t, place, id, w);
  }

  lemma WriteWorks(s: State, id: nat, w: nat, k: nat, choice: nat)
    requires Invariant(s) && Serves(s, id, w) && StreamOk(s, id, w, InLoop(k)) && s.tasks[k].Writing?
    requires Invariant(WriteSome(s, k, id, w, s.tasks[k].current, s.tasks[k].rest, choice))
    ensures Work(WriteSome(s, k, id, w, s.tasks[k].current, s.tasks[k].rest, choice), w) < Work(s, w)
  {
    var t := WriteSome(s, k, id, w, s.tasks[k].current, s.tasks[k].rest, choice);
    assert k in Holders(s, w);
    WriteStep(s, id, w, k, choice);
    WriteLeavesLess(s, id, w, k, choice);
    LessWork(s, InLoop(k), t, InLoop(k), id, w);
  }

  /** A step of one of a stream's own tasks uses up work. */
  lemma OwnStepWorks(s: State, w: nat, k: nat, choice: nat)
    requires Invariant(s) && k in s.tasks && s.tasks[k].w == w
    requires Invariant(Next(s, Run(k, choice)))
    ensures Work(Next(s, Run(k, choice)), w) < Work(s, w)
  {
    var id, place := TaskPlace(s, k);
    match s.tasks[k] {
      case AtLock(_, _) => TurnWorks(s, id, w, k);
      case Writing(_, _, _, _) => WriteWorks(s, id, w, k, choice);
      case Closing(_) =>
        ShutStep(s, id, w, k);
        WorkAt(s, w, place);
        WorkAt(ShutDown(s, k, w), w, Shut);
    }
  }

  lemma UntouchedKeepsWork(s: State, t: State, w: nat)
    requires Invariant(s) && Invariant(t) && w in s.idOf && Untouched(s, t, s.idOf[w], w)
    ensures Work(t, w) == Work(s, w)
  {
    var place := PipePlace(s, w);
    UntouchedStaysAt(s, t, s.idOf[w], w, place);
    WorkAt(s, w, place);
    WorkAt(t, w, place);
  }

  lemma RemoveKeepsWork(s: State, id: nat, w: nat)
    requires Invariant(s) && id in s.pipeOf && s.pipeOf[id] == w && Invariant(DoRemove(s, id))
    ensures w in s.idOf && Work(DoRemove(s, id), w) <= Work(s, w)
  {
    assert IdServed(s, id);
    if id in s.table {
      var v, place := CurrentPlace(s, id);
      WorkAt(s, w, place);
      var place' := RemoveRecord(s, id, w, place);
      WorkAt(DoRemove(s, id), w, place');
    } else {
      assert DoRemove(s, id) == s;
    }
  }

  lemma OthersKeepWork(s: State, e: Event, w: nat)
    requires Invariant(s) && Enabled(s, e) && Vacant(s, e) && Invariant(Next(s, e))
    requires w in s.idOf && !Concerns(s, w, e)
    ensures Work(Next(s, e), w) == Work(s, w)
  {
    var t := Next(s, e);
    if e.Insert? {
      InsertLeavesOthers(s, e.id, e.w, w);
      UntouchedKeepsWork(s, t, w);
    } else {
      var v := StepIsLocal(s, e);
      if t != s {
        LocalLeavesOthers(s, t, s.idOf[v], v, w);
        UntouchedKeepsWork(s, t, w);
      }
    }
  }

  /** A write that goes to the pipe w. */
  ghost predicate IsWriteTo(s: State, w: nat, e: Event) {
    e.Write? && Current(s, e.id, w)
  }

  ghost predicate NoWritesTo(s: State, w: nat, events: seq<Event>)
    decreases |events|
  {
    events == [] || !Enabled(s, events[0]) ||
    (!IsWriteTo(s, w, events[0]) && NoWritesTo(Next(s, events[0]), w, events[1..]))
  }

  /** How many steps the tasks of pipe w take along a run. */
  ghost function StepsTaken(s: State, w: nat, events: seq<Event>): nat
    decreases |events|
  {
    if events == [] || !Enabled(s, events[0]) then 0
    else
      (if events[0].Run? && Concerns(s, w, events[0]) then 1 else 0) + StepsTaken(Next(s, events[0]), w, events[1..])
  }

  lemma OneStepWorks(s: State, e: Event, w: nat)
    requires Invariant(s) && Enabled(s, e) && Vacant(s, e) && w in s.idOf && !IsWriteTo(s, w, e)
    ensures Invariant(Next(s, e)) && w in Next(s, e).idOf
    ensures (if e.Run? && Concerns(s, w, e) then 1 else 0) + Work(Next(s, e), w) <= Work(s, w)
  {
    NextKeeps(s, e);
    if !Concerns(s, w, e) {
      OthersKeepWork(s, e, w);
    } else if e.Run? {
      OwnStepWorks(s, w, e.task, e.choice);
    } else if e.Remove? {
      RemoveKeepsWork(s, e.id, w);
    } else if e.Write? {
      assert Next(s, e) == s;
    }
  }

  /** Every step of a stream's tasks is paid for out of its work, and only writes add to that. */
  lemma {:induction false} WorkRunsOut(s: State, events: seq<Event>, t: State, w: nat)
    requires Invariant(s) && IsRun(s, events, t) && w in s.idOf && NoWritesTo(s, w, events)
    ensures Invariant(t) && w in t.idOf
    ensures StepsTaken(s, w, events) + Work(t, w) <= Work(s, w)
    decreases |events|
  {
    if events != [] {
      OneStepWorks(s, events[0], w);
      WorkRunsOut(Next(s, events[0]), events[1..], t, w);
    }
  }

  /** Once writes to a stream stop, its tasks take a bounded number of steps, whatever the others
      do; while one is left it has taken fewer; and when none is left the half is back in an idle
      record or shut down, with everything delivered. */
  lemma LoopsEnd(events: seq<Event>, s: State, more: seq<Event>, t: State, w: nat)
    requires IsRun(INITIAL, events, s) && IsRun(s, more, t) && w in s.idOf && NoWritesTo(s, w, more)
    ensures Invariant(s) && w in t.idOf && w in t.pipes && w in t.accepted
    ensures StepsTaken(s, w, more) <= Work(s, w)
    ensures Holders(t, w) != {} ==> StepsTaken(s, w, more) < Work(s, w)
    ensures Holders(t, w) == {} ==>
              if Current(t, t.idOf[w], w) then t.table[t.idOf[w]] == StreamRec(Some(w), [], false)
              else t.pipes[w].shutdowns == 1
    ensures Holders(t, w) == {} && w !in t.failed ==> t.pipes[w].delivered == Flat(t.accepted[w])
  {
    ReachableInvariant(events, s);
    WorkRunsOut(s, more, t, w);
    var place := PipePlace(t, w);
    WorkAt(t, w, place);
  }
}
