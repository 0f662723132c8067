/** The incoming half of the RPC dispatcher's duplex streams (cli/src/rpc.rs) as a transition
    system: every lock-protected section and every awaited write is one atomic step, and the
    steps of all tasks interleave freely. */
module StreamSpec {
  import opened Collections
  import opened Options

  type Buffer = seq<Byte>

  /** A record of the shared map; a write half is named by the pipe it writes to. */
  datatype StreamRec = StreamRec(write: Option<nat>, q: seq<Buffer>, ended: bool)

  type Table = map<nat, StreamRec>

  // ---- The lock-protected sections ----

  function InsertRec(table: Table, id: nat, w: nat): Table {
    table[id := StreamRec(Some(w), [], false)]
  }

  /** Streams::write queues the buffer and takes the half, if it is there, for a new loop. */
  function WriteRec(table: Table, id: nat, buf: Buffer): (Table, Option<nat>) {
    if id !in table then (table, None)
    else (table[id := StreamRec(None, table[id].q + [buf], table[id].ended)], table[id].write)
  }

  /** Streams::remove takes the record if the half is there, and leaves a note otherwise. */
  function RemoveRec(table: Table, id: nat): (Table, Option<nat>) {
    if id !in table then (table, None)
    else if table[id].write.Some? then (table - {id}, table[id].write)
    else (table[id := table[id].(ended := true)], None)
  }

  datatype Turn = Missing | Ended | Returned | Batch(items: seq<Buffer>)

  /** What a write loop holding w finds under the lock. */
  function TurnRec(table: Table, id: nat, w: nat): (Table, Turn) {
    if id !in table then (table, Missing)
    else
      var rec := table[id];
      if rec.q == [] then
        if rec.ended then (table - {id}, Ended)
        else (table[id := rec.(write := Some(w))], Returned)
      else (table[id := rec.(q := [])], Batch(rec.q))
  }

  // ---- The system ----

  datatype Task =
    | AtLock(id: nat, w: nat)                                        // a loop about to take the lock
    | Writing(id: nat, w: nat, current: Buffer, rest: seq<Buffer>)   // a loop writing a batch
    | Closing(w: nat)                                                // about to shut the half down

  datatype Pipe = Pipe(delivered: Buffer, shutdowns: nat)

  datatype State = State(
    table: Table,
    tasks: map<nat, Task>,
    nextTask: nat,
    pipes: map<nat, Pipe>,
    pipeOf: map<nat, nat>,              // the pipe last registered for each stream id
    idOf: map<nat, nat>,                // the stream id each pipe was registered for
    accepted: map<nat, seq<Buffer>>,    // buffers `write` queued for each pipe
    failed: set<nat>)                   // pipes a write to which has failed

  const INITIAL := State(map[], map[], 0, map[], map[], map[], map[], {})

  datatype Event =
    | Insert(id: nat, w: nat)
    | Write(id: nat, buf: Buffer)
    | Remove(id: nat)
    | Run(task: nat, choice: nat)   // choice: bytes the pipe takes, 0 for an I/O error

  /** Every stream comes with a pipe of its own; only existing tasks run. */
  predicate Enabled(s: State, e: Event) {
    match e
    case Insert(_, w) => w !in s.pipes
    case Write(_, _) => true
    case Remove(_) => true
    case Run(t, _) => t in s.tasks
  }

  /** A stream id is registered only while it has no record: it is new, or the record it had has
      been removed. */
  predicate Vacant(s: State, e: Event) {
    e.Insert? ==> e.id !in s.table
  }

  function Spawn(s: State, task: Task): State {
    s.(tasks := s.tasks[s.nextTask := task], nextTask := s.nextTask + 1)
  }

  function DoWrite(s: State, id: nat, buf: Buffer): State {
    if id !in s.table || id !in s.pipeOf || s.pipeOf[id] !in s.accepted then s
    else
      var (table, half) := WriteRec(s.table, id, buf);
      var p := s.pipeOf[id];
      var t := s.(table := table, accepted := s.accepted[p := s.accepted[p] + [buf]]);
      match half
      case None => t
      case Some(w) => Spawn(t, AtLock(id, w))
  }

  function DoRemove(s: State, id: nat): State {
    var (table, half) := RemoveRec(s.table, id);
    match half
    case None => s.(table := table)
    case Some(w) => Spawn(s.(table := table), Closing(w))
  }

  function TakeTurn(s: State, t: nat, id: nat, w: nat): State {
    var (table, turn) := TurnRec(s.table, id, w);
    match turn
    case Missing => s.(tasks := s.tasks[t := Closing(w)])
    case Ended => s.(table := table, tasks := s.tasks[t := Closing(w)])
    case Returned => s.(table := table, tasks := s.tasks - {t})
    case Batch(items) => s.(table := table, tasks := s.tasks[t := Writing(id, w, [], items)])
  }

  /** Part of the current item goes out; an error drops the rest of the batch. */
  function WriteSome(s: State, t: nat, id: nat, w: nat, current: Buffer, rest: seq<Buffer>, choice: nat): State {
    if current == [] then
      if rest == [] then s.(tasks := s.tasks[t := AtLock(id, w)])
      else s.(tasks := s.tasks[t := Writing(id, w, rest[0], rest[1..])])
    else if choice == 0 then
      s.(tasks := s.tasks[t := AtLock(id, w)], failed := s.failed + {w})
    else if w !in s.pipes then s
    else
      var n := Min(choice, |current|);
      s.(tasks := s.tasks[t := Writing(id, w, current[n..], rest)],
         pipes := s.pipes[w := s.pipes[w].(delivered := s.pipes[w].delivered + current[..n])])
  }

  function ShutDown(s: State, t: nat, w: nat): State {
    if w !in s.pipes then s
    else s.(tasks := s.tasks - {t}, pipes := s.pipes[w := s.pipes[w].(shutdowns := s.pipes[w].shutdowns + 1)])
  }

  function Next(s: State, e: Event): State
    requires Enabled(s, e)
  {
    match e
    case Insert(id, w) =>
      s.(table := InsertRec(s.table, id, w), pipes := s.pipes[w := Pipe([], 0)],
         pipeOf := s.pipeOf[id := w], idOf := s.idOf[w := id], accepted := s.accepted[w := []])
    case Write(id, buf) => DoWrite(s, id, buf)
    case Remove(id) => DoRemove(s, id)
    case Run(t, choice) =>
      match s.tasks[t]
      case AtLock(id, w) => TakeTurn(s, t, id, w)
      case Writing(id, w, current, rest) => WriteSome(s, t, id, w, current, rest, choice)
      case Closing(w) => ShutDown(s, t, w)
  }

  /** A run: each event is possible when it happens, and no registration finds a record. */
  ghost predicate IsRun(s: State, events: seq<Event>, t: State)
    decreases |events|
  {
    if events == [] then s == t
    else Enabled(s, events[0]) && Vacant(s, events[0]) && IsRun(Next(s, events[0]), events[1..], t)
  }
}
