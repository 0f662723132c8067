/** What holds of the stream protocol in every reachable state. */
module StreamInvariant {
  import opened Collections
  import opened Options
  import opened StreamSpec

  function Flat(bs: seq<Buffer>): Buffer {
    if bs == [] then [] else bs[0] + Flat(bs[1..])
  }

  lemma {:induction false} FlatConcat(a: seq<Buffer>, b: seq<Buffer>)
    ensures Flat(a + b) == Flat(a) + Flat(b)
    decreases |a|
  {
    if a == [] {
      assert a + b == b;
    } else {
      assert (a + b)[1..] == a[1..] + b;
      FlatConcat(a[1..], b);
    }
  }

  /** a is what stands at these positions of b, in ascending order. */
  ghost predicate SelectedAt(a: Buffer, b: Buffer, at: seq<nat>) {
    && |at| == |a| && (forall i {:trigger at[i]} :: 0 <= i < |a| ==> at[i] < |b| && a[i] == b[at[i]])
    && (forall i, j {:trigger at[i], at[j]} :: 0 <= i < j < |a| ==> at[i] < at[j])
  }

  /** a is an ordered selection of the bytes of b. */
  ghost predicate Selects(a: Buffer, b: Buffer) {
    exists at :: SelectedAt(a, b, at)
  }

  lemma SelectsAll(a: Buffer)
    ensures Selects(a, a)
  {
    assert SelectedAt(a, a, seq(|a|, i requires 0 <= i => i));
  }

  lemma SelectsBoth(a: Buffer, b: Buffer, c: Buffer)
    requires Selects(a, b)
    ensures Selects(a + c, b + c)
  {
    var at :| SelectedAt(a, b, at);
    assert SelectedAt(a + c, b + c, at + seq(|c|, i requires 0 <= i => |b| + i));
  }

  lemma SelectsWithout(a: Buffer, x: Buffer, c: Buffer, b: Buffer)
    requires Selects(a + (x + c), b)
    ensures Selects(a + c, b)
  {
    var at :| SelectedAt(a + (x + c), b, at);
    var all, at' := a + (x + c), at[..|a|] + at[|a| + |x|..];
    forall i | 0 <= i < |a + c| ensures at'[i] < |b| && (a + c)[i] == b[at'[i]] {
      var k := if i < |a| then i else i + |x|;
      assert at'[i] == at[k] && (a + c)[i] == all[k];
    }
    assert SelectedAt(a + c, b, at');
  }

  /** The record of id belongs to the pipe w. */
  predicate Current(s: State, id: nat, w: nat) {
    id in s.table && id in s.pipeOf && s.pipeOf[id] == w
  }

  /** The tasks that hold the write half of w. */
  ghost function Holders(s: State, w: nat): set<nat> {
    set t | t in s.tasks && s.tasks[t].w == w
  }

  /** Where the write half of a stream is. */
  datatype Place =
    | InRecord              // idle: in its record, nothing queued
    | InLoop(task: nat)     // a write loop is running
    | BeingShut(task: nat)  // a task is about to shut it down
    | Shut                  // it has been shut down

  ghost predicate At(s: State, id: nat, w: nat, place: Place)
    requires w in s.pipes
  {
    match place
    case InRecord =>
      && Current(s, id, w) && s.table[id] == StreamRec(Some(w), [], false)
      && Holders(s, w) == {} && s.pipes[w].shutdowns == 0
    case InLoop(t) =>
      && Current(s, id, w) && s.table[id].write.None? && Holders(s, w) == {t} && s.pipes[w].shutdowns == 0
      && t in s.tasks && !s.tasks[t].Closing? && s.tasks[t].id == id
    case BeingShut(t) =>
      && !Current(s, id, w) && Holders(s, w) == {t} && s.pipes[w].shutdowns == 0
      && t in s.tasks && s.tasks[t] == Closing(w)
    case Shut =>
      !Current(s, id, w) && Holders(s, w) == {} && s.pipes[w].shutdowns == 1
  }

  /** Bytes a loop has taken but not written. */
  function InFlight(task: Task): Buffer {
    if task.Writing? then task.current + Flat(task.rest) else []
  }

  /** Accepted bytes that have not reached the pipe. */
  ghost function Undelivered(s: State, id: nat, w: nat, place: Place): Buffer
    requires w in s.pipes && At(s, id, w, place)
  {
    match place
    case InLoop(t) => InFlight(s.tasks[t]) + Flat(s.table[id].q)
    case _ => []
  }

  /** The half is at `place`. What was delivered, then what is in flight, then the queue, is an
      ordered selection of the bytes accepted, and all of them unless a write failed. */
  ghost predicate StreamOk(s: State, id: nat, w: nat, place: Place) {
    && w in s.pipes && w in s.accepted && At(s, id, w, place)
    && Accounted(s.pipes[w].delivered, Undelivered(s, id, w, place), Flat(s.accepted[w]), w in s.failed)
  }

  ghost predicate Accounted(delivered: Buffer, undelivered: Buffer, accepted: Buffer, failed: bool) {
    (!failed ==> delivered + undelivered == accepted) && Selects(delivered + undelivered, accepted)
  }

  lemma AccountedMore(d: Buffer, u: Buffer, accepted: Buffer, failed: bool, buf: Buffer)
    requires Accounted(d, u, accepted, failed)
    ensures Accounted(d, u + buf, accepted + buf, failed)
  {
    SelectsBoth(d + u, accepted, buf);
    assert (d + u) + buf == d + (u + buf);
  }

  lemma AccountedMoved(d: Buffer, flight: Buffer, q: Buffer, accepted: Buffer, failed: bool, n: Buffer, flight': Buffer)
    requires Accounted(d, flight + q, accepted, failed) && n + flight' == flight
    ensures Accounted(d + n, flight' + q, accepted, failed)
  {
    assert (d + n) + (flight' + q) == d + (flight + q);
  }

  /** A failed write drops what the loop held. */
  lemma AccountedFailed(d: Buffer, flight: Buffer, q: Buffer, accepted: Buffer, failed: bool)
    requires Accounted(d, flight + q, accepted, failed)
    ensures Accounted(d + [], [] + q, accepted, true)
  {
    SelectsWithout(d, flight, q, accepted);
    assert (d + []) + ([] + q) == d + q;
  }

  lemma AccountedStart()
    ensures Accounted([], [], [], false)
  {
    SelectsAll([]);
  }

  /** The half is in exactly one place (StreamOk leaves no room for two). */
  ghost predicate Owned(s: State, id: nat, w: nat) {
    exists place :: StreamOk(s, id, w, place)
  }

  ghost predicate PipeOwned(s: State, w: nat) {
    w in s.idOf && Owned(s, s.idOf[w], w)
  }

  predicate IdServed(s: State, id: nat) {
    id in s.pipeOf && Serves(s, id, s.pipeOf[id])
  }

  ghost predicate Invariant(s: State) {
    && (forall w {:trigger PipeOwned(s, w)} :: w in s.idOf ==> PipeOwned(s, w))
    && s.accepted.Keys == s.idOf.Keys && s.pipes.Keys == s.idOf.Keys
    && (forall id {:trigger IdServed(s, id)} :: id in s.pipeOf ==> IdServed(s, id))
    && s.table.Keys <= s.pipeOf.Keys
    && (forall t :: t in s.tasks ==> t < s.nextTask && s.tasks[t].w in s.idOf)
    && s.failed <= s.pipes.Keys
  }

  /** id is what w was registered for. */
  predicate Serves(s: State, id: nat, w: nat) {
    w in s.idOf && s.idOf[w] == id
  }

  /** Nothing about a stream changes in a step that leaves its parts alone. */
  ghost predicate Untouched(s: State, t: State, id: nat, w: nat) {
    && Serves(s, id, w) && Serves(t, id, w)
    && (Current(s, id, w) <==> Current(t, id, w)) && (Current(s, id, w) ==> t.table[id] == s.table[id])
    && w in s.pipes && w in t.pipes && t.pipes[w] == s.pipes[w] && (w in t.failed <==> w in s.failed)
    && w in s.accepted && w in t.accepted && t.accepted[w] == s.accepted[w]
    && Holders(t, w) == Holders(s, w) && forall k :: k in Holders(s, w) ==> t.tasks[k] == s.tasks[k]
  }

  lemma UntouchedStaysAt(s: State, t: State, id: nat, w: nat, place: Place)
    requires Untouched(s, t, id, w) && StreamOk(s, id, w, place)
    ensures StreamOk(t, id, w, place)
    ensures place.InLoop? ==>
              place.task in s.tasks && place.task in t.tasks && t.tasks[place.task] == s.tasks[place.task]
  {
    if place.InLoop? || place.BeingShut? {
      assert place.task in Holders(s, w);
    }
  }

  lemma UntouchedStays(s: State, t: State, id: nat, w: nat)
    requires Untouched(s, t, id, w) && Owned(s, id, w)
    ensures Owned(t, id, w)
  {
    var place :| StreamOk(s, id, w, place);
    UntouchedStaysAt(s, t, id, w, place);
  }

  // ---- Registering a stream ----

  lemma InsertLeavesOthers(s: State, id: nat, w: nat, v: nat)
    requires Invariant(s) && w !in s.pipes && id !in s.table && v in s.idOf
    ensures v != w && Untouched(s, Next(s, Insert(id, w)), s.idOf[v], v)
  {
    assert Holders(Next(s, Insert(id, w)), v) == Holders(s, v);
  }

  lemma NewStreamOk(s: State, id: nat, w: nat)
    requires Invariant(s) && w !in s.pipes
    ensures StreamOk(Next(s, Insert(id, w)), id, w, InRecord)
  {
    assert Holders(Next(s, Insert(id, w)), w) == {};
    AccountedStart();
  }

  lemma InsertKeepsPipe(s: State, id: nat, w: nat, v: nat)
    requires Invariant(s) && w !in s.pipes && id !in s.table && v in Next(s, Insert(id, w)).idOf
    ensures PipeOwned(Next(s, Insert(id, w)), v)
  {
    if v == w {
      NewStreamOk(s, id, w);
    } else {
      assert PipeOwned(s, v);
      InsertLeavesOthers(s, id, w, v);
      UntouchedStays(s, Next(s, Insert(id, w)), s.idOf[v], v);
    }
  }

  lemma InsertKeepsId(s: State, id: nat, w: nat, i: nat)
    requires Invariant(s) && w !in s.pipes && i in Next(s, Insert(id, w)).pipeOf
    ensures IdServed(Next(s, Insert(id, w)), i)
  {
    assert i != id ==> IdServed(s, i);
  }

  lemma InsertKeeps(s: State, id: nat, w: nat)
    requires Invariant(s) && w !in s.pipes && id !in s.table
    ensures Invariant(Next(s, Insert(id, w)))
  {
    var t := Next(s, Insert(id, w));
    forall v | v in t.idOf ensures PipeOwned(t, v) { InsertKeepsPipe(s, id, w, v); }
    forall i | i in t.pipeOf ensures IdServed(t, i) { InsertKeepsId(s, id, w, i); }
    InsertKeepsKeys(s, id, w);
  }

  lemma InsertKeepsKeys(s: State, id: nat, w: nat)
    requires s.accepted.Keys == s.idOf.Keys && s.pipes.Keys == s.idOf.Keys && w !in s.pipes
    requires s.table.Keys <= s.pipeOf.Keys && s.failed <= s.pipes.Keys
    ensures var t := Next(s, Insert(id, w));
      && t.accepted.Keys == t.idOf.Keys && t.pipes.Keys == t.idOf.Keys
      && t.table.Keys <= t.pipeOf.Keys && t.failed <= t.pipes.Keys
  {}

  // ---- Steps of one stream ----

  /** A step that concerns only stream id and its pipe w. */
  ghost predicate Local(s: State, t: State, id: nat, w: nat) {
    && Serves(s, id, w) && t.idOf == s.idOf && t.pipeOf == s.pipeOf
    && (forall i :: i != id ==> SameRecord(s, t, i))
    && (id in s.pipeOf && s.pipeOf[id] != w ==> SameRecord(s, t, id))
    && t.table.Keys <= s.table.Keys
    && t.pipes.Keys == s.pipes.Keys && (forall p :: p in s.pipes && p != w ==> t.pipes[p] == s.pipes[p])
    && t.accepted.Keys == s.accepted.Keys && (forall p :: p in s.accepted && p != w ==> t.accepted[p] == s.accepted[p])
    && (forall p :: p != w ==> (p in s.failed <==> p in t.failed)) && t.failed <= t.pipes.Keys
    && (forall k :: k in s.tasks && s.tasks[k].w != w ==> k in t.tasks && t.tasks[k] == s.tasks[k])
    && (forall k :: k in t.tasks && t.tasks[k].w != w ==> k in s.tasks && t.tasks[k] == s.tasks[k])
    && (forall k :: k in t.tasks ==> k < t.nextTask)
  }

  predicate SameRecord(s: State, t: State, i: nat) {
    (i in s.table <==> i in t.table) && (i in s.table ==> t.table[i] == s.table[i])
  }

  lemma LocalLeavesOthers(s: State, t: State, id: nat, w: nat, v: nat)
    requires Invariant(s) && Local(s, t, id, w) && v in s.idOf && v != w
    ensures Untouched(s, t, s.idOf[v], v)
  {
    assert Holders(t, v) == Holders(s, v);
    assert SameRecord(s, t, s.idOf[v]) || !Current(s, s.idOf[v], v);
  }

  lemma LocalKeeps(s: State, t: State, id: nat, w: nat)
    requires Invariant(s) && Local(s, t, id, w) && Owned(t, id, w)
    ensures Invariant(t)
  {
    forall v | v in t.idOf ensures PipeOwned(t, v) {
      if v != w {
        assert PipeOwned(s, v);
        LocalLeavesOthers(s, t, id, w, v);
        UntouchedStays(s, t, s.idOf[v], v);
      }
    }
    forall i | i in t.pipeOf ensures IdServed(t, i) { assert IdServed(s, i); }
    forall k | k in t.tasks ensures t.tasks[k].w in t.idOf {
      if t.tasks[k].w != w { assert t.tasks[k] == s.tasks[k]; }
    }
  }

  lemma WriteIsLocal(s: State, id: nat, w: nat, buf: Buffer)
    requires Invariant(s) && Serves(s, id, w) && Current(s, id, w)
    requires id in s.table ==> s.table[id].write in {None, Some(w)}
    ensures Local(s, DoWrite(s, id, buf), id, w)
  {}

  lemma FlatSnoc(bs: seq<Buffer>, buf: Buffer)
    ensures Flat(bs + [buf]) == Flat(bs) + buf
  {
    FlatConcat(bs, [buf]);
    assert Flat([buf]) == buf;
  }

  lemma WriteIdle(s: State, id: nat, w: nat, buf: Buffer)
    requires Invariant(s) && Serves(s, id, w) && StreamOk(s, id, w, InRecord)
    ensures StreamOk(DoWrite(s, id, buf), id, w, InLoop(s.nextTask))
    ensures DoWrite(s, id, buf).accepted == s.accepted[w := s.accepted[w] + [buf]]
  {
    var t := DoWrite(s, id, buf);
    assert t.tasks[s.nextTask] == AtLock(id, w);
    assert Holders(t, w) == {s.nextTask};
    assert t.table[id].q == [buf];
    FlatSnoc(s.accepted[w], buf);
    AccountedMore(s.pipes[w].delivered, [], Flat(s.accepted[w]), w in s.failed, buf);
    assert Flat([buf]) == buf;
    assert Undelivered(t, id, w, InLoop(s.nextTask)) == [] + buf;
  }

  lemma WriteBusy(s: State, id: nat, w: nat, buf: Buffer, k: nat)
    requires Invariant(s) && Serves(s, id, w) && StreamOk(s, id, w, InLoop(k))
    ensures StreamOk(DoWrite(s, id, buf), id, w, InLoop(k))
    ensures DoWrite(s, id, buf).accepted == s.accepted[w := s.accepted[w] + [buf]]
  {
    var t := DoWrite(s, id, buf);
    var q := s.table[id].q;
    assert t.tasks == s.tasks && Holders(t, w) == Holders(s, w);
    FlatSnoc(q, buf);
    FlatSnoc(s.accepted[w], buf);
    AccountedMore(s.pipes[w].delivered, InFlight(s.tasks[k]) + Flat(q), Flat(s.accepted[w]), w in s.failed, buf);
    assert (InFlight(s.tasks[k]) + Flat(q)) + buf == InFlight(s.tasks[k]) + (Flat(q) + buf);
    assert Undelivered(t, id, w, InLoop(k)) == (InFlight(s.tasks[k]) + Flat(q)) + buf;
  }

  lemma RemoveIsLocal(s: State, id: nat, w: nat, place: Place)
    requires Invariant(s) && Serves(s, id, w) && StreamOk(s, id, w, place) && Current(s, id, w)
    ensures Local(s, DoRemove(s, id), id, w)
  {
    RemoveShape(s, id);
  }

  lemma RemoveShape(s: State, id: nat)
    ensures var t := DoRemove(s, id);
      && t == s.(table := t.table, tasks := t.tasks, nextTask := t.nextTask)
      && t.table.Keys <= s.table.Keys && (forall i :: i != id ==> SameRecord(s, t, i))
      && (t.nextTask == s.nextTask ==> t.tasks == s.tasks)
      && (t.nextTask != s.nextTask ==>
          && id in s.table && s.table[id].write.Some? && t.nextTask == s.nextTask + 1
          && t.tasks == s.tasks[s.nextTask := Closing(s.table[id].write.value)])
  {}

  lemma RemoveRecord(s: State, id: nat, w: nat, place: Place) returns (place': Place)
    requires Invariant(s) && Serves(s, id, w) && StreamOk(s, id, w, place) && Current(s, id, w)
    ensures StreamOk(DoRemove(s, id), id, w, place')
    ensures place' == if place == InRecord then BeingShut(s.nextTask) else place
    ensures place' == place ==> DoRemove(s, id).table[id].ended
  {
    var t := DoRemove(s, id);
    if place == InRecord {
      place' := BeingShut(s.nextTask);
      assert t.tasks[s.nextTask] == Closing(w);
      assert Holders(t, w) == {s.nextTask};
      assert Undelivered(t, id, w, place') == Undelivered(s, id, w, place);
    } else {
      place' := place;
      assert Holders(t, w) == Holders(s, w);
      assert Undelivered(t, id, w, place') == Undelivered(s, id, w, place);
    }
  }

  ghost predicate Turning(s: State, id: nat, w: nat, k: nat) {
    Invariant(s) && Serves(s, id, w) && StreamOk(s, id, w, InLoop(k)) && s.tasks[k].AtLock?
  }

  /** Changing one record and one task of a stream. */
  lemma OneRecordOneTask(s: State, id: nat, w: nat, k: nat, table: Table, tasks: map<nat, Task>)
    requires Invariant(s) && Serves(s, id, w) && Current(s, id, w) && k in s.tasks && s.tasks[k].w == w
    requires table - {id} == s.table - {id} && table.Keys <= s.table.Keys
    requires tasks - {k} == s.tasks - {k} && (k in tasks ==> tasks[k].w == w)
    ensures Local(s, s.(table := table, tasks := tasks), id, w)
  {
    var t := s.(table := table, tasks := tasks);
    forall i | i != id ensures SameRecord(s, t, i) {
      assert i in table - {id} <==> i in s.table - {id};
      assert i in table ==> (table - {id})[i] == (s.table - {id})[i];
    }
    forall j | j != k ensures (j in tasks <==> j in s.tasks) && (j in tasks ==> tasks[j] == s.tasks[j]) {
      assert j in tasks - {k} <==> j in s.tasks - {k};
      assert j in tasks ==> (tasks - {k})[j] == (s.tasks - {k})[j];
    }
  }

  lemma TurnIsLocal(s: State, id: nat, w: nat, k: nat)
    requires Turning(s, id, w, k)
    ensures Local(s, TakeTurn(s, k, id, w), id, w)
  {
    assert k in Holders(s, w);
    var t := TakeTurn(s, k, id, w);
    TurnShape(s, id, w, k);
    OneRecordOneTask(s, id, w, k, t.table, t.tasks);
  }

  lemma TurnShape(s: State, id: nat, w: nat, k: nat)
    ensures var t := TakeTurn(s, k, id, w);
      && t == s.(table := t.table, tasks := t.tasks)
      && t.table - {id} == s.table - {id} && t.table.Keys <= s.table.Keys
      && t.tasks - {k} == s.tasks - {k} && (k in t.tasks ==> t.tasks[k].w == w)
  {}

  lemma TurnEnds(s: State, id: nat, w: nat, k: nat)
    requires Turning(s, id, w, k) && s.table[id].q == [] && s.table[id].ended
    ensures StreamOk(TakeTurn(s, k, id, w), id, w, BeingShut(k))
  {
    var t := TakeTurn(s, k, id, w);
    assert k in Holders(s, w) && Holders(t, w) == {k};
    assert Undelivered(t, id, w, BeingShut(k)) == Undelivered(s, id, w, InLoop(k));
  }

  lemma TurnReturns(s: State, id: nat, w: nat, k: nat)
    requires Turning(s, id, w, k) && s.table[id].q == [] && !s.table[id].ended
    ensures StreamOk(TakeTurn(s, k, id, w), id, w, InRecord)
  {
    var t := TakeTurn(s, k, id, w);
    assert k in Holders(s, w) && Holders(t, w) == {};
    assert Undelivered(t, id, w, InRecord) == Undelivered(s, id, w, InLoop(k));
  }

  lemma TakenIsQueued(q: seq<Buffer>)
    ensures ([] + Flat(q)) + Flat([]) == [] + Flat(q)
  {}

  lemma TurnTakesBatch(s: State, id: nat, w: nat, k: nat)
    requires Turning(s, id, w, k) && s.table[id].q != []
    ensures StreamOk(TakeTurn(s, k, id, w), id, w, InLoop(k))
  {
    var t := TakeTurn(s, k, id, w);
    assert t.tasks[k] == Writing(id, w, [], s.table[id].q) && t.table[id].q == [];
    assert k in Holders(s, w) && Holders(t, w) == {k};
    TakenIsQueued(s.table[id].q);
    assert Undelivered(t, id, w, InLoop(k)) == Undelivered(s, id, w, InLoop(k));
  }

  lemma TurnStep(s: State, id: nat, w: nat, k: nat)
    requires Turning(s, id, w, k)
    ensures Local(s, TakeTurn(s, k, id, w), id, w) && Owned(TakeTurn(s, k, id, w), id, w)
  {
    TurnIsLocal(s, id, w, k);
    if s.table[id].q != [] {
      TurnTakesBatch(s, id, w, k);
    } else if s.table[id].ended {
      TurnEnds(s, id, w, k);
    } else {
      TurnReturns(s, id, w, k);
    }
  }

  /** A loop's task and pipe after it has moved on. */
  function Moved(s: State, k: nat, task: Task, delivered: Buffer, failed: set<nat>): State
    requires task.w in s.pipes
  {
    s.(tasks := s.tasks[k := task], failed := failed,
       pipes := s.pipes[task.w := s.pipes[task.w].(delivered := s.pipes[task.w].delivered + delivered)])
  }

  lemma LoopMovesLocally(s: State, id: nat, w: nat, k: nat, task: Task, delivered: Buffer, failed: set<nat>)
    requires Invariant(s) && Serves(s, id, w) && StreamOk(s, id, w, InLoop(k))
    requires task.w == w && (failed == s.failed || failed == s.failed + {w})
    ensures Local(s, Moved(s, k, task, delivered, failed), id, w)
  {
    assert k in Holders(s, w);
  }

  /** Moving a loop on without touching anything another stream or the lock sees. */
  lemma LoopMoves(s: State, id: nat, w: nat, k: nat, task: Task, delivered: Buffer, failed: set<nat>)
    requires Invariant(s) && Serves(s, id, w) && StreamOk(s, id, w, InLoop(k))
    requires !task.Closing? && task.id == id && task.w == w
    requires failed == s.failed || failed == s.failed + {w}
    requires || delivered + InFlight(task) == InFlight(s.tasks[k])
             || (w in failed && delivered == [] && InFlight(task) == [])
    ensures StreamOk(Moved(s, k, task, delivered, failed), id, w, InLoop(k))
  {
    var t := Moved(s, k, task, delivered, failed);
    assert k in Holders(s, w);
    assert Holders(t, w) == {k};
    var d, flight, q, accepted := s.pipes[w].delivered, InFlight(s.tasks[k]), Flat(s.table[id].q), Flat(s.accepted[w]);
    if delivered + InFlight(task) == flight {
      AccountedMoved(d, flight, q, accepted, w in s.failed, delivered, InFlight(task));
    } else {
      AccountedFailed(d, flight, q, accepted, w in s.failed);
    }
    assert Undelivered(t, id, w, InLoop(k)) == InFlight(task) + q;
  }

  lemma MovesOn(s: State, id: nat, w: nat, k: nat, task: Task, delivered: Buffer, failed: set<nat>)
    requires Invariant(s) && Serves(s, id, w) && StreamOk(s, id, w, InLoop(k))
    requires !task.Closing? && task.id == id && task.w == w
    requires failed == s.failed || failed == s.failed + {w}
    requires || delivered + InFlight(task) == InFlight(s.tasks[k])
             || (w in failed && delivered == [] && InFlight(task) == [])
    ensures Local(s, Moved(s, k, task, delivered, failed), id, w)
    ensures StreamOk(Moved(s, k, task, delivered, failed), id, w, InLoop(k))
  {
    LoopMovesLocally(s, id, w, k, task, delivered, failed);
    LoopMoves(s, id, w, k, task, delivered, failed);
  }

  lemma WriteStep(s: State, id: nat, w: nat, k: nat, choice: nat)
    requires Invariant(s) && Serves(s, id, w) && StreamOk(s, id, w, InLoop(k)) && s.tasks[k].Writing?
    ensures var task := s.tasks[k];
            var t := WriteSome(s, k, id, w, task.current, task.rest, choice);
            Local(s, t, id, w) && StreamOk(t, id, w, InLoop(k))
  {
    var current, rest := s.tasks[k].current, s.tasks[k].rest;
    if current == [] {
      MovesOn(s, id, w, k, if rest == [] then AtLock(id, w) else Writing(id, w, rest[0], rest[1..]), [], s.failed);
    } else if choice == 0 {
      MovesOn(s, id, w, k, AtLock(id, w), [], s.failed + {w});
    } else {
      var n := Min(choice, |current|);
      assert current[..n] + (current[n..] + Flat(rest)) == current + Flat(rest);
      MovesOn(s, id, w, k, Writing(id, w, current[n..], rest), current[..n], s.failed);
    }
    SamePipe(s, w);
  }

  lemma SamePipe(s: State, w: nat)
    requires w in s.pipes
    ensures s.pipes == s.pipes[w := s.pipes[w].(delivered := s.pipes[w].delivered + [])]
  {
    assert s.pipes[w].delivered + [] == s.pipes[w].delivered;
  }

  lemma ShutStep(s: State, id: nat, w: nat, k: nat)
    requires Invariant(s) && Serves(s, id, w) && StreamOk(s, id, w, BeingShut(k))
    ensures Local(s, ShutDown(s, k, w), id, w) && StreamOk(ShutDown(s, k, w), id, w, Shut)
  {
    var t := ShutDown(s, k, w);
    assert Holders(t, w) == {};
    assert StreamOk(t, id, w, Shut);
  }

  /** The stream a task works for, and where it stands. */
  lemma TaskPlace(s: State, k: nat) returns (id: nat, place: Place)
    requires Invariant(s) && k in s.tasks
    ensures Serves(s, id, s.tasks[k].w) && StreamOk(s, id, s.tasks[k].w, place)
    ensures place == if s.tasks[k].Closing? then BeingShut(k) else InLoop(k)
    ensures !s.tasks[k].Closing? ==> s.tasks[k].id == id
  {
    assert PipeOwned(s, s.tasks[k].w);
    id := s.idOf[s.tasks[k].w];
    assert Owned(s, id, s.tasks[k].w);
    place :| StreamOk(s, id, s.tasks[k].w, place);
    assert k in Holders(s, s.tasks[k].w);
  }

  /** Which pipe an event is about. */
  ghost predicate Concerns(s: State, w: nat, e: Event)
    requires Enabled(s, e)
  {
    match e
    case Insert(_, p) => p == w
    case Write(i, _) => i in s.pipeOf && s.pipeOf[i] == w
    case Remove(i) => i in s.pipeOf && s.pipeOf[i] == w
    case Run(k, _) => s.tasks[k].w == w
  }

  lemma CurrentPlace(s: State, id: nat) returns (w: nat, place: Place)
    requires Invariant(s) && id in s.table
    ensures id in s.pipeOf && w == s.pipeOf[id] && Serves(s, id, w) && Current(s, id, w) && StreamOk(s, id, w, place)
    ensures place.InRecord? || place.InLoop?
  {
    w := s.pipeOf[id];
    assert IdServed(s, id) && PipeOwned(s, w);
    place :| StreamOk(s, id, w, place);
  }

  /** A step other than a registration changes nothing, or only the stream it is about. */
  lemma StepIsLocal(s: State, e: Event) returns (w: nat)
    requires Invariant(s) && Enabled(s, e) && !e.Insert?
    ensures Next(s, e) != s ==>
              w in s.idOf && Concerns(s, w, e) && Local(s, Next(s, e), s.idOf[w], w) && Owned(Next(s, e), s.idOf[w], w)
  {
    w := 0;
    match e
    case Write(id, buf) =>
      if id in s.table {
        var place;
        w, place := CurrentPlace(s, id);
        WriteIsLocal(s, id, w, buf);
        if place == InRecord {
          WriteIdle(s, id, w, buf);
        } else {
          WriteBusy(s, id, w, buf, place.task);
        }
      }
    case Remove(id) =>
      if id in s.table {
        var place;
        w, place := CurrentPlace(s, id);
        RemoveIsLocal(s, id, w, place);
        var place' := RemoveRecord(s, id, w, place);
      }
    case Run(k, choice) =>
      w := s.tasks[k].w;
      var id, place := TaskPlace(s, k);
      match s.tasks[k] {
        case AtLock(_, _) => TurnStep(s, id, w, k);
        case Writing(_, _, current, rest) => WriteStep(s, id, w, k, choice);
        case Closing(_) => ShutStep(s, id, w, k);
      }
  }

  lemma NextKeeps(s: State, e: Event)
    requires Invariant(s) && Enabled(s, e) && Vacant(s, e)
    ensures Invariant(Next(s, e))
  {
    if e.Insert? {
      InsertKeeps(s, e.id, e.w);
    } else {
      var w := StepIsLocal(s, e);
      if Next(s, e) != s {
        LocalKeeps(s, Next(s, e), s.idOf[w], w);
      }
    }
  }

  /** The invariant holds in every state any interleaving reaches. */
  lemma {:induction false} RunKeeps(s: State, events: seq<Event>, t: State)
    requires Invariant(s) && IsRun(s, events, t)
    ensures Invariant(t)
    decreases |events|
  {
    if events != [] {
      NextKeeps(s, events[0]);
      RunKeeps(Next(s, events[0]), events[1..], t);
    }
  }
}
