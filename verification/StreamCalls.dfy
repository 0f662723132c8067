/** What the calls of register, write and remove come to, said of the calls alone: which bytes a
    pipe gets, and when it is closed. */
module StreamCalls {
  import opened Collections
  import opened Options
  import opened StreamSpec
  import opened StreamInvariant
  import opened StreamTheorems

  // ---- The calls ----

  /** The pipe last registered for a stream id. */
  function Registered(events: seq<Event>, id: nat): Option<nat> {
    if events == [] then None
    else
      var e := events[|events| - 1];
      if e.Insert? && e.id == id then Some(e.w) else Registered(events[..|events| - 1], id)
  }

  /** An event goes to the stream of w: its id is one for which w was registered last. */
  predicate GoesTo(before: seq<Event>, id: nat, w: nat) {
    Registered(before, id) == Some(w)
  }

  /** The stream was removed after w was registered. */
  predicate Removed(events: seq<Event>, w: nat) {
    events != [] &&
    (var before, e := events[..|events| - 1], events[|events| - 1];
     Removed(before, w) || (e.Remove? && GoesTo(before, e.id, w)))
  }

  /** What was written to the stream of w since it was registered. */
  function Written(events: seq<Event>, w: nat): seq<Buffer> {
    if events == [] then []
    else
      var before, e := events[..|events| - 1], events[|events| - 1];
      Written(before, w) + if e.Write? && GoesTo(before, e.id, w) then [e.buf] else []
  }

  /** What was written before it was removed. */
  function WrittenInTime(events: seq<Event>, w: nat): seq<Buffer> {
    if events == [] then []
    else
      var before, e := events[..|events| - 1], events[|events| - 1];
      WrittenInTime(before, w) + if e.Write? && GoesTo(before, e.id, w) && !Removed(before, w) then [e.buf] else []
  }

  // ---- What they come to ----

  /** The state after the calls: as long as a stream is not removed its record is there, and has
      accepted everything; after that, the record is gone or is going to be, and no write made in
      time is missing. */
  ghost predicate Answers(events: seq<Event>, s: State, w: nat)
    requires w in s.idOf && w in s.accepted
  {
    && (Removed(events, w) ==> !Current(s, s.idOf[w], w) || s.table[s.idOf[w]].ended)
    && (!Removed(events, w) ==> Current(s, s.idOf[w], w) && !s.table[s.idOf[w]].ended)
    && (!Removed(events, w) || Current(s, s.idOf[w], w) ==> s.accepted[w] == Written(events, w))
    && s.accepted[w] <= Written(events, w) && WrittenInTime(events, w) <= s.accepted[w]
    && (!Removed(events, w) ==> WrittenInTime(events, w) == Written(events, w))
  }

  ghost predicate Registers(events: seq<Event>, s: State, id: nat) {
    Registered(events, id) == if id in s.pipeOf then Some(s.pipeOf[id]) else None
  }

  ghost predicate AllAnswered(events: seq<Event>, s: State) {
    && Invariant(s)
    && (forall id: nat {:trigger Registers(events, s, id)} :: Registers(events, s, id))
    && (forall w {:trigger w in s.idOf} :: w in s.idOf ==> w in s.accepted && Answers(events, s, w))
    && (forall w: nat {:trigger Unheard(events, w)} :: w !in s.idOf ==> Unheard(events, w))
  }

  predicate Unheard(events: seq<Event>, w: nat) {
    !Removed(events, w) && Written(events, w) == [] && WrittenInTime(events, w) == []
  }

  lemma {:induction false} RunSnoc(s: State, events: seq<Event>, t: State) returns (u: State)
    requires events != [] && IsRun(s, events, t)
    ensures IsRun(s, events[..|events| - 1], u)
    ensures Enabled(u, events[|events| - 1]) && Vacant(u, events[|events| - 1]) && t == Next(u, events[|events| - 1])
    decreases |events|
  {
    var n := |events| - 1;
    if n == 0 {
      u := s;
    } else {
      u := RunSnoc(Next(s, events[0]), events[1..], t);
      assert events[1..][..n - 1] == events[..n][1..];
    }
  }

  // ---- One call ----

  /** A write to a stream that has a record is accepted: its buffer is the last one queued for the
      pipe, and a loop is running afterwards. */
  lemma WriteAccepted(s: State, id: nat, w: nat, buf: Buffer)
    requires Invariant(s) && Current(s, id, w)
    ensures w in s.accepted
    ensures var t := Next(s, Write(id, buf));
            && t.accepted == s.accepted[w := s.accepted[w] + [buf]] && t.pipes == s.pipes
            && Current(t, id, w) && t.table[id] == StreamRec(None, s.table[id].q + [buf], s.table[id].ended)
            && exists k :: Holders(t, w) == {k}
  {
    var v, place := CurrentPlace(s, id);
    var t := Next(s, Write(id, buf));
    if place == InRecord {
      WriteIdle(s, id, w, buf);
      assert Holders(t, w) == {s.nextTask};
    } else {
      WriteBusy(s, id, w, buf, place.task);
      assert Holders(t, w) == {place.task};
    }
  }

  /** Removing a stream that has a record takes the record and shuts the half down, or, while a
      loop has the half, leaves a note for it. */
  lemma RemoveTakesOrMarks(s: State, id: nat, w: nat)
    requires Invariant(s) && Current(s, id, w)
    ensures var t := Next(s, Remove(id));
            if s.table[id].write.Some?
            then id !in t.table && exists k :: Holders(t, w) == {k} && k in t.tasks && t.tasks[k] == Closing(w)
            else Current(t, id, w) && t.table[id] == StreamRec(None, s.table[id].q, true) && t.tasks == s.tasks
  {
    var v, place := CurrentPlace(s, id);
    if place == InRecord {
      var t := Next(s, Remove(id));
      assert t.tasks[s.nextTask] == Closing(w);
      assert Holders(t, w) == {s.nextTask};
    }
  }

  lemma NextRegisters(s: State, e: Event)
    requires Enabled(s, e)
    ensures Next(s, e).pipeOf == if e.Insert? then s.pipeOf[e.id := e.w] else s.pipeOf
    ensures Next(s, e).idOf == if e.Insert? then s.idOf[e.w := e.id] else s.idOf
  {
    if e.Run? { RunRegistersNothing(s, e.task, e.choice); }
  }

  lemma RunRegistersNothing(s: State, k: nat, choice: nat)
    requires k in s.tasks
    ensures var t := Next(s, Run(k, choice)); t.pipeOf == s.pipeOf && t.idOf == s.idOf && t.accepted == s.accepted
  {
    match s.tasks[k]
    case AtLock(id, w) =>
    case Writing(id, w, current, rest) =>
    case Closing(w) =>
  }

  /** What one step of a task writes: part of the current buffer, in order. Only a failing write
      counts as one; it costs the rest of the batch and nothing else, and the loop goes on. */
  lemma WriteOutcome(s: State, k: nat, choice: nat)
    requires Invariant(s) && k in s.tasks && s.tasks[k].Writing?
    ensures var task, t := s.tasks[k], Next(s, Run(k, choice));
            && t.table == s.table && t.accepted == s.accepted && k in t.tasks && task.w in s.pipes && task.w in t.pipes
            && t.failed == (if task.current != [] && choice == 0 then s.failed + {task.w} else s.failed)
            && t.pipes[task.w].delivered == s.pipes[task.w].delivered + task.current[..Min(choice, |task.current|)]
            && (task.current != [] && choice == 0 ==> t.tasks[k] == AtLock(task.id, task.w))
            && (task.current == [] || choice > 0 ==>
                  InFlight(t.tasks[k]) == InFlight(task)[Min(choice, |task.current|)..])
  {
    var id, place := TaskPlace(s, k);
    var task := s.tasks[k];
    if task.current == [] {
      NextItem(s, k, task, choice);
    } else if choice > 0 {
      PartWritten(s, k, task, choice);
    } else {
      assert task.current[..0] == [] && s.pipes[task.w].delivered + [] == s.pipes[task.w].delivered;
    }
  }

  lemma NextItem(s: State, k: nat, task: Task, choice: nat)
    requires k in s.tasks && s.tasks[k] == task && task.Writing? && task.current == [] && task.w in s.pipes
    ensures var t := Next(s, Run(k, choice));
            && t == s.(tasks := t.tasks) && k in t.tasks && InFlight(t.tasks[k]) == Flat(task.rest)
            && task.current[..Min(choice, |task.current|)] == []
            && s.pipes[task.w].delivered + [] == s.pipes[task.w].delivered
            && InFlight(task)[Min(choice, |task.current|)..] == Flat(task.rest)
  {
    if task.rest != [] { assert Flat(task.rest) == task.rest[0] + Flat(task.rest[1..]); }
    assert [] + Flat(task.rest) == Flat(task.rest);
  }

  lemma PartWritten(s: State, k: nat, task: Task, choice: nat)
    requires k in s.tasks && s.tasks[k] == task && task.Writing? && task.w in s.pipes
    requires task.current != [] && choice > 0
    ensures var n, t := Min(choice, |task.current|), Next(s, Run(k, choice));
            && t == s.(tasks := t.tasks, pipes := t.pipes) && k in t.tasks
            && InFlight(t.tasks[k]) == InFlight(task)[n..] && task.w in t.pipes
            && t.pipes[task.w].delivered == s.pipes[task.w].delivered + task.current[..n]
  {
    var n := Min(choice, |task.current|);
    assert (task.current + Flat(task.rest))[n..] == task.current[n..] + Flat(task.rest);
  }

  /** A step of its own task keeps a stream's record, but for the loop that ends a removed one. */
  lemma OwnRun(s: State, k: nat, choice: nat)
    requires Invariant(s) && k in s.tasks
    ensures s.tasks[k].w in s.idOf
    ensures var w, t := s.tasks[k].w, Next(s, Run(k, choice));
            && t.accepted == s.accepted
            && (!Current(s, s.idOf[w], w) ==> !Current(t, s.idOf[w], w))
            && (Current(s, s.idOf[w], w) ==>
                  if Current(t, s.idOf[w], w) then t.table[s.idOf[w]].ended == s.table[s.idOf[w]].ended
                  else s.table[s.idOf[w]].ended)
  {
    var id, place := TaskPlace(s, k);
    RunRegistersNothing(s, k, choice);
    match s.tasks[k]
    case AtLock(i, w) => TurnKeepsRecord(s, k, i, w);
    case Writing(i, w, current, rest) => WriteOutcome(s, k, choice);
    case Closing(w) =>
  }

  lemma TurnKeepsRecord(s: State, k: nat, id: nat, w: nat)
    requires Current(s, id, w)
    ensures var t := TakeTurn(s, k, id, w);
            if Current(t, id, w) then t.table[id].ended == s.table[id].ended else s.table[id].ended
  {}

  lemma NewStreamAnswers(before: seq<Event>, s: State, id: nat, w: nat, v: nat)
    requires AllAnswered(before, s) && w !in s.pipes && id !in s.table && v in s.idOf + map[w := id]
    ensures var t := Next(s, Insert(id, w)); v in t.accepted && Answers(before + [Insert(id, w)], t, v)
  {
    assert (before + [Insert(id, w)])[..|before|] == before;
    if v == w {
      assert Unheard(before, w);
    } else {
      assert v in s.idOf;
      InsertLeavesOthers(s, id, w, v);
    }
  }

  lemma WriteAnswers(before: seq<Event>, s: State, id: nat, buf: Buffer, v: nat)
    requires AllAnswered(before, s) && v in s.idOf
    ensures var t := Next(s, Write(id, buf));
            v in t.idOf && v in t.accepted && Answers(before + [Write(id, buf)], t, v)
  {
    var e := Write(id, buf);
    assert (before + [e])[..|before|] == before;
    assert Registers(before, s, id);
    if GoesTo(before, id, v) {
      assert IdServed(s, id);
      if Current(s, id, v) { WriteAccepted(s, id, v, buf); }
    } else {
      OtherCalls(s, e, v);
    }
  }

  lemma RemoveAnswers(before: seq<Event>, s: State, id: nat, v: nat)
    requires AllAnswered(before, s) && v in s.idOf
    ensures var t := Next(s, Remove(id)); v in t.idOf && v in t.accepted && Answers(before + [Remove(id)], t, v)
  {
    var e := Remove(id);
    assert (before + [e])[..|before|] == before;
    assert Registers(before, s, id);
    if GoesTo(before, id, v) {
      assert IdServed(s, id);
      if Current(s, id, v) { RemoveTakesOrMarks(s, id, v); }
    } else {
      OtherCalls(s, e, v);
    }
  }

  lemma RunAnswers(before: seq<Event>, s: State, k: nat, choice: nat, v: nat)
    requires AllAnswered(before, s) && v in s.idOf && k in s.tasks
    ensures var t := Next(s, Run(k, choice));
            v in t.idOf && v in t.accepted && Answers(before + [Run(k, choice)], t, v)
  {
    var e := Run(k, choice);
    assert (before + [e])[..|before|] == before;
    NextRegisters(s, e);
    if s.tasks[k].w == v {
      OwnRun(s, k, choice);
    } else {
      OtherCalls(s, e, v);
    }
  }

  /** An event that is not about a stream changes nothing that is said of its calls. */
  lemma OtherCalls(s: State, e: Event, v: nat)
    requires Invariant(s) && Enabled(s, e) && !e.Insert? && v in s.idOf && !Concerns(s, v, e)
    ensures var t := Next(s, e);
            && v in s.accepted && t.idOf == s.idOf && v in t.accepted && t.accepted[v] == s.accepted[v]
            && (Current(t, s.idOf[v], v) <==> Current(s, s.idOf[v], v))
            && (Current(s, s.idOf[v], v) ==> t.table[s.idOf[v]] == s.table[s.idOf[v]])
  {
    var w := StepIsLocal(s, e);
    if Next(s, e) != s { LocalLeavesOthers(s, Next(s, e), s.idOf[w], w, v); }
  }

  lemma OneMoreAnswers(before: seq<Event>, s: State, e: Event, v: nat)
    requires AllAnswered(before, s) && Enabled(s, e) && Vacant(s, e) && v in Next(s, e).idOf
    ensures v in Next(s, e).accepted && Answers(before + [e], Next(s, e), v)
  {
    NextRegisters(s, e);
    match e
    case Insert(id, w) => NewStreamAnswers(before, s, id, w, v);
    case Write(id, buf) => WriteAnswers(before, s, id, buf, v);
    case Remove(id) => RemoveAnswers(before, s, id, v);
    case Run(k, choice) => RunAnswers(before, s, k, choice, v);
  }

  lemma OneMoreRegisters(before: seq<Event>, s: State, e: Event, id: nat)
    requires AllAnswered(before, s) && Enabled(s, e)
    ensures Registers(before + [e], Next(s, e), id)
  {
    assert (before + [e])[..|before|] == before;
    assert Registers(before, s, id);
    NextRegisters(s, e);
  }

  lemma OneMoreUnregistered(before: seq<Event>, s: State, e: Event, w: nat)
    requires AllAnswered(before, s) && Enabled(s, e) && w !in Next(s, e).idOf
    ensures Unheard(before + [e], w)
  {
    assert (before + [e])[..|before|] == before;
    NextRegisters(s, e);
    assert w !in s.idOf && Unheard(before, w);
    forall id: nat ensures !GoesTo(before, id, w) {
      assert Registers(before, s, id);
      assert id in s.pipeOf ==> IdServed(s, id);
    }
  }

  lemma {:induction false} RunAnswersAll(events: seq<Event>, s: State)
    requires IsRun(INITIAL, events, s)
    ensures AllAnswered(events, s)
    decreases |events|
  {
    if events != [] {
      var n := |events| - 1;
      var u := RunSnoc(INITIAL, events, s);
      RunAnswersAll(events[..n], u);
      assert events == events[..n] + [events[n]];
      NextKeeps(u, events[n]);
      forall v | v in s.idOf ensures v in s.accepted && Answers(events, s, v) {
        OneMoreAnswers(events[..n], u, events[n], v);
      }
      forall id: nat ensures Registers(events, s, id) { OneMoreRegisters(events[..n], u, events[n], id); }
      forall w: nat | w !in s.idOf ensures Unheard(events, w) {
        OneMoreUnregistered(events[..n], u, events[n], w);
      }
    }
  }

  // ---- The theorems ----

  /** The pipe of a stream accepts exactly what is written to it while it is registered; of what is
      written after its removal it accepts a beginning, perhaps empty. */
  lemma AcceptedIsWritten(events: seq<Event>, s: State, w: nat)
    requires IsRun(INITIAL, events, s) && w in s.idOf
    ensures w in s.accepted && WrittenInTime(events, w) <= s.accepted[w] && s.accepted[w] <= Written(events, w)
    ensures !Removed(events, w) ==> s.accepted[w] == Written(events, w)
  {
    RunAnswersAll(events, s);
  }

  /** Without failed writes, a pipe that is left alone has received what was written to its stream. */
  lemma WrittenIsDelivered(events: seq<Event>, s: State, w: nat)
    requires IsRun(INITIAL, events, s) && w in s.idOf && w !in s.failed && Holders(s, w) == {} && !Removed(events, w)
    ensures w in s.pipes && s.pipes[w].delivered == Flat(Written(events, w))
  {
    AcceptedIsWritten(events, s, w);
    FifoConservation(events, s, w);
  }

  /** A half is being shut down, or has been, only after its stream was removed; and if it was and
      no task holds the half any more, it has been, once, and the record is gone. */
  lemma ShutIffRemoved(events: seq<Event>, s: State, w: nat)
    requires IsRun(INITIAL, events, s) && w in s.idOf
    ensures w in s.pipes
    ensures s.pipes[w].shutdowns > 0 || (exists k :: k in s.tasks && s.tasks[k] == Closing(w)) ==> Removed(events, w)
    ensures Removed(events, w) && Holders(s, w) == {} ==> s.pipes[w].shutdowns == 1 && !Current(s, s.idOf[w], w)
    ensures !Removed(events, w) ==> Current(s, s.idOf[w], w) && !s.table[s.idOf[w]].ended
  {
    RunAnswersAll(events, s);
    assert Answers(events, s, w);
    var place := PipePlace(s, w);
    ShutIsNotCurrent(s, s.idOf[w], w, place);
  }

  /** A half is being shut down, or has been, only when no record leads to it; and one that nobody holds
      has been shut down, unless it is in its record, for which it must not have ended. */
  lemma ShutIsNotCurrent(s: State, id: nat, w: nat, place: Place)
    requires StreamOk(s, id, w, place)
    ensures w in s.pipes
    ensures s.pipes[w].shutdowns > 0 || (exists k :: k in s.tasks && s.tasks[k] == Closing(w)) ==> !Current(s, id, w)
    ensures Holders(s, w) == {} && (Current(s, id, w) ==> s.table[id].ended) ==>
              s.pipes[w].shutdowns == 1 && !Current(s, id, w)
  {
    if k :| k in s.tasks && s.tasks[k] == Closing(w) { assert k in Holders(s, w); }
  }
}
