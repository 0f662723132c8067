/** The outgoing half of the duplex streams: registrations announce their streams on the shared
    channel and start one reader task per stream; all of them run concurrently. Every send and
    every read is one atomic step. */
module Outgoing {
  import opened Collections
  import opened Options
  import opened StreamSpec

  const CHUNK: nat := 4096

  datatype Message =
    | Started(ids: seq<nat>)
    | Data(id: nat, segment: Buffer)
    | Finished(id: nat)
    | Unrelated   // responses and calls that share the channel

  /** A register_stream call: not yet announced, or with streams still to start. */
  datatype Registration = Announcing(ids: seq<nat>) | Starting(ids: seq<nat>)

  datatype Reader = Reading | Sending(segment: Buffer) | Ending | Done

  /** One end of the duplex: what the other side wrote, how much of it was read, and whether the
      other side has hung up or a read has failed. */
  datatype Source = Source(produced: Buffer, taken: nat, hungUp: bool, failed: bool)

  datatype World = World(
    calls: map<nat, Registration>,
    owner: map<nat, nat>,           // the call that registers each stream id
    sources: map<nat, Source>,
    readers: map<nat, Reader>,
    log: seq<Message>,              // everything the channel accepted, in order
    closed: bool)                   // the receiving end is gone

  const EMPTY := World(map[], map[], map[], map[], [], false)

  datatype Action =
    | Call(call: nat, ids: seq<nat>)
    | Produce(id: nat, bytes: Buffer)
    | HangUp(id: nat)
    | Announce(call: nat)
    | Start(call: nat)
    | Read(id: nat, n: nat)
    | ReadFails(id: nat)
    | ReadEnds(id: nat)
    | Send(id: nat)
    | SendUnrelated
    | Close

  predicate IsReading(v: World, id: nat) {
    id in v.readers && v.readers[id].Reading? && id in v.sources
  }

  /** Ids and calls are fresh; a read yields between 1 and CHUNK of the bytes that are there, and
      ends once the other side has hung up and nothing is left. */
  predicate Possible(v: World, a: Action) {
    match a
    case Call(c, ids) =>
      c !in v.calls && c !in v.owner.Values && NoDuplicates(ids) && forall id :: id in ids ==> id !in v.owner
    case Produce(id, _) => id in v.sources && !v.sources[id].hungUp
    case HangUp(id) => id in v.sources
    case Announce(c) => c in v.calls && v.calls[c].Announcing?
    case Start(c) => c in v.calls && v.calls[c].Starting? && v.calls[c].ids != []
    case Read(id, n) =>
      IsReading(v, id) && 0 < n <= CHUNK && v.sources[id].taken + n <= |v.sources[id].produced|
    case ReadFails(id) => IsReading(v, id)
    case ReadEnds(id) => IsReading(v, id) && v.sources[id].hungUp && v.sources[id].taken == |v.sources[id].produced|
    case Send(id) => id in v.readers && (v.readers[id].Sending? || v.readers[id].Ending?)
    case SendUnrelated => true
    case Close => true
  }

  /** A chunk is followed by the next read, the notice of the end by nothing; a send that fails
      ends the task. */
  function DoSend(v: World, id: nat): World
    requires id in v.readers
  {
    if v.closed then v.(readers := v.readers[id := Done])
    else if v.readers[id].Sending? then
      v.(readers := v.readers[id := Reading], log := v.log + [Data(id, v.readers[id].segment)])
    else v.(readers := v.readers[id := Done], log := v.log + [Finished(id)])
  }

  function Do(v: World, a: Action): World
    requires Possible(v, a)
  {
    match a
    case Call(c, ids) =>
      v.(calls := v.calls[c := Announcing(ids)],
         owner := v.owner + (map id | id in ids :: c),
         sources := v.sources + (map id | id in ids :: Source([], 0, false, false)))
    case Produce(id, bytes) =>
      v.(sources := v.sources[id := v.sources[id].(produced := v.sources[id].produced + bytes)])
    case HangUp(id) => v.(sources := v.sources[id := v.sources[id].(hungUp := true)])
    case Announce(c) =>
      if v.closed then v.(calls := v.calls - {c})
      else v.(calls := v.calls[c := Starting(v.calls[c].ids)], log := v.log + [Started(v.calls[c].ids)])
    case Start(c) =>
      var ids := v.calls[c].ids;
      v.(calls := v.calls[c := Starting(ids[1..])], readers := v.readers[ids[0] := Reading])
    case Read(id, n) =>
      var src := v.sources[id];
      v.(readers := v.readers[id := Sending(src.produced[src.taken..src.taken + n])],
         sources := v.sources[id := src.(taken := src.taken + n)])
    case ReadFails(id) =>
      v.(readers := v.readers[id := Ending], sources := v.sources[id := v.sources[id].(failed := true)])
    case ReadEnds(id) => v.(readers := v.readers[id := Ending])
    case Send(id) => DoSend(v, id)
    case SendUnrelated => if v.closed then v else v.(log := v.log + [Unrelated])
    case Close => v.(closed := true)
  }

  ghost predicate Happens(v: World, actions: seq<Action>, u: World)
    decreases |actions|
  {
    if actions == [] then v == u
    else Possible(v, actions[0]) && Happens(Do(v, actions[0]), actions[1..], u)
  }

  // ---- What the other side sees of one stream ----

  datatype Sign = Opens | Carries(segment: Buffer) | Closes

  function SignOf(m: Message, id: nat): Option<Sign> {
    match m
    case Started(ids) => if id in ids then Some(Opens) else None
    case Data(i, segment) => if i == id then Some(Carries(segment)) else None
    case Finished(i) => if i == id then Some(Closes) else None
    case Unrelated => None
  }

  /** The messages about one stream, in the order they were sent. */
  function Seen(log: seq<Message>, id: nat): seq<Sign>
    decreases |log|
  {
    if log == [] then []
    else
      var before := Seen(log[..|log| - 1], id);
      match SignOf(log[|log| - 1], id)
      case None => before
      case Some(sign) => before + [sign]
  }

  /** The bytes those messages carry. */
  function Carried(signs: seq<Sign>): Buffer {
    if signs == [] then []
    else
      var before := Carried(signs[..|signs| - 1]);
      var last := signs[|signs| - 1];
      if last.Carries? then before + last.segment else before
  }

  lemma SeenSnoc(log: seq<Message>, m: Message, id: nat)
    ensures Seen(log + [m], id) == Seen(log, id) + (match SignOf(m, id) case None => [] case Some(sign) => [sign])
  {
    assert (log + [m])[..|log|] == log;
    assert Seen(log, id) + [] == Seen(log, id);
  }

  lemma CarriedSnoc(signs: seq<Sign>, sign: Sign)
    ensures Carried(signs + [sign]) == Carried(signs) + (if sign.Carries? then sign.segment else [])
  {
    assert (signs + [sign])[..|signs|] == signs;
    assert Carried(signs) + [] == Carried(signs);
  }

  /** Opened first and once; then chunks of 1 to 4096 bytes; closed last if at all. */
  predicate InOrder(signs: seq<Sign>) {
    && (forall i :: 0 <= i < |signs| ==> (signs[i].Opens? <==> i == 0))
    && (forall i :: 0 <= i < |signs| - 1 ==> !signs[i].Closes?)
    && (forall i :: 0 <= i < |signs| && signs[i].Carries? ==> 0 < |signs[i].segment| <= 4096)
  }

  predicate IsOpen(signs: seq<Sign>) {
    InOrder(signs) && signs != [] && !signs[|signs| - 1].Closes?
  }

  // ---- The invariant ----

  /** The registration that still has to start the stream, if there is one. */
  predicate Pending(v: World, id: nat) {
    id in v.owner && v.owner[id] in v.calls && id in v.calls[v.owner[id]].ids
  }

  ghost predicate ReaderOk(v: World, id: nat, signs: seq<Sign>)
    requires id in v.readers && id in v.sources && v.sources[id].taken <= |v.sources[id].produced|
  {
    var src := v.sources[id];
    var read := src.produced[..src.taken];
    match v.readers[id]
    case Reading => IsOpen(signs) && Carried(signs) == read && !src.failed
    case Sending(segment) =>
      IsOpen(signs) && Carried(signs) + segment == read && 0 < |segment| <= CHUNK && !src.failed
    case Ending =>
      IsOpen(signs) && Carried(signs) == read && (src.failed || (src.hungUp && read == src.produced))
    case Done =>
      && InOrder(signs) && signs != [] && Carried(signs) <= read
      && (signs[|signs| - 1].Closes? || v.closed)
      && (signs[|signs| - 1].Closes? && !src.failed ==> src.hungUp && Carried(signs) == src.produced)
  }

  ghost predicate IdOk(v: World, id: nat) {
    var signs := Seen(v.log, id);
    if id !in v.owner then signs == [] && id !in v.readers && id !in v.sources
    else
      && id in v.sources && v.sources[id].taken <= |v.sources[id].produced|
      && if id in v.readers then ReaderOk(v, id, signs)
         else
           && v.sources[id].taken == 0 && !v.sources[id].failed
           && if Pending(v, id) && v.calls[v.owner[id]].Starting? then signs == [Opens]
              else signs == [] && (Pending(v, id) || v.closed)
  }

  ghost predicate CallOk(v: World, c: nat)
    requires c in v.calls
  {
    && NoDuplicates(v.calls[c].ids)
    && forall id :: id in v.calls[c].ids ==> id in v.owner && v.owner[id] == c && id !in v.readers
  }

  ghost predicate Sound(v: World) {
    (forall id: nat {:trigger IdOk(v, id)} :: IdOk(v, id))
    && (forall c {:trigger CallOk(v, c)} :: c in v.calls ==> CallOk(v, c))
  }

  // ---- Each step keeps it ----

  /** A step that leaves a stream's parts alone leaves its invariant alone. */
  lemma Elsewhere(v: World, u: World, id: nat)
    requires IdOk(v, id) && Seen(u.log, id) == Seen(v.log, id) && (v.closed ==> u.closed)
    requires id in u.owner <==> id in v.owner
    requires id in v.owner ==> u.owner[id] == v.owner[id]
    requires id in u.readers <==> id in v.readers
    requires id in v.readers ==> u.readers[id] == v.readers[id]
    requires id in u.sources <==> id in v.sources
    requires id in v.sources ==> u.sources[id] == v.sources[id]
    requires Pending(u, id) <==> Pending(v, id)
    requires Pending(v, id) ==> (u.calls[u.owner[id]].Starting? <==> v.calls[v.owner[id]].Starting?)
    ensures IdOk(u, id)
  {}

  lemma CallKeeps(v: World, c: nat, ids: seq<nat>)
    requires Sound(v) && Possible(v, Call(c, ids))
    ensures Sound(Do(v, Call(c, ids)))
  {
    var u := Do(v, Call(c, ids));
    forall id: nat ensures IdOk(u, id) {
      assert IdOk(v, id);
      if id !in ids && id in v.owner { assert v.owner[id] in v.owner.Values; }
    }
    forall d | d in u.calls ensures CallOk(u, d) {
      if d == c {
        forall id | id in ids ensures id !in u.readers { assert IdOk(v, id); }
      } else {
        assert CallOk(v, d);
      }
    }
  }

  lemma AnnounceKeeps(v: World, c: nat)
    requires Sound(v) && Possible(v, Announce(c))
    ensures Sound(Do(v, Announce(c)))
  {
    var u := Do(v, Announce(c));
    forall id: nat ensures IdOk(u, id) {
      if id in v.calls[c].ids {
        assert CallOk(v, c);
        AnnouncedOk(v, c, id);
      } else {
        SeenSnoc(v.log, Started(v.calls[c].ids), id);
        assert IdOk(v, id);
        Elsewhere(v, u, id);
      }
    }
    forall d | d in u.calls ensures CallOk(u, d) { assert CallOk(v, d); }
  }

  lemma AnnouncedOk(v: World, c: nat, id: nat)
    requires c in v.calls && v.calls[c].Announcing? && id in v.calls[c].ids && IdOk(v, id)
    requires id in v.owner && v.owner[id] == c && id !in v.readers
    ensures IdOk(Do(v, Announce(c)), id)
  {
    var u := Do(v, Announce(c));
    assert Seen(v.log, id) == [];
    if !v.closed {
      SeenSnoc(v.log, Started(v.calls[c].ids), id);
      assert Seen(u.log, id) == [Opens] && Pending(u, id);
    }
  }

  lemma StartKeeps(v: World, c: nat)
    requires Sound(v) && Possible(v, Start(c))
    ensures Sound(Do(v, Start(c)))
  {
    var u := Do(v, Start(c));
    forall id: nat ensures IdOk(u, id) { StartKeepsId(v, c, id); }
    forall d | d in u.calls ensures CallOk(u, d) { StartKeepsCall(v, c, d); }
  }

  lemma StartKeepsId(v: World, c: nat, id: nat)
    requires Possible(v, Start(c)) && CallOk(v, c) && IdOk(v, id)
    ensures IdOk(Do(v, Start(c)), id)
  {
    var ids := v.calls[c].ids;
    assert ids == [ids[0]] + ids[1..] && ids[0] in ids;
    if id == ids[0] {
      assert Carried([Opens]) == [];
    } else {
      Elsewhere(v, Do(v, Start(c)), id);
    }
  }

  lemma StartKeepsCall(v: World, c: nat, d: nat)
    requires Possible(v, Start(c)) && d in v.calls && CallOk(v, c) && CallOk(v, d)
    ensures CallOk(Do(v, Start(c)), d)
  {
    assert v.calls[c].ids[0] in v.calls[c].ids;
  }

  /** Steps of one stream that touch only its source, its reader, the log and `closed`. */
  ghost predicate OnlyStream(v: World, u: World, id: nat) {
    && u.calls == v.calls && u.owner == v.owner && (v.closed ==> u.closed)
    && (forall i: nat :: i != id ==> Seen(u.log, i) == Seen(v.log, i))
    && u.readers.Keys == v.readers.Keys && (forall i :: i in v.readers && i != id ==> u.readers[i] == v.readers[i])
    && u.sources.Keys == v.sources.Keys && (forall i :: i in v.sources && i != id ==> u.sources[i] == v.sources[i])
  }

  lemma OnlyStreamKeeps(v: World, u: World, id: nat)
    requires Sound(v) && OnlyStream(v, u, id) && IdOk(u, id)
    ensures Sound(u)
  {
    forall i: nat ensures IdOk(u, i) {
      assert IdOk(v, i);
      if i != id { Elsewhere(v, u, i); }
    }
    forall c | c in u.calls ensures CallOk(u, c) { assert CallOk(v, c); }
  }

  lemma ProduceKeeps(v: World, id: nat, bytes: Buffer)
    requires Sound(v) && Possible(v, Produce(id, bytes))
    ensures Sound(Do(v, Produce(id, bytes)))
  {
    var u := Do(v, Produce(id, bytes));
    assert IdOk(v, id);
    var src := v.sources[id];
    assert (src.produced + bytes)[..src.taken] == src.produced[..src.taken];
    assert IdOk(u, id);
    OnlyStreamKeeps(v, u, id);
  }

  lemma ReadKeeps(v: World, id: nat, n: nat)
    requires Sound(v) && Possible(v, Read(id, n))
    ensures Sound(Do(v, Read(id, n)))
  {
    var u := Do(v, Read(id, n));
    assert IdOk(v, id);
    var src := v.sources[id];
    assert src.produced[..src.taken] + src.produced[src.taken..src.taken + n] == src.produced[..src.taken + n];
    assert IdOk(u, id);
    OnlyStreamKeeps(v, u, id);
  }

  /** One more message after the opening. */
  lemma OpenGrows(signs: seq<Sign>, sign: Sign)
    requires IsOpen(signs) && !sign.Opens? && (sign.Carries? ==> 0 < |sign.segment| <= CHUNK)
    ensures InOrder(signs + [sign]) && (sign.Carries? ==> IsOpen(signs + [sign]))
    ensures Carried(signs + [sign]) == Carried(signs) + (if sign.Carries? then sign.segment else [])
  {
    CarriedSnoc(signs, sign);
  }

  lemma LogGrows(log: seq<Message>, m: Message, id: nat, sign: Sign)
    requires SignOf(m, id) == Some(sign) && !m.Started?
    ensures Seen(log + [m], id) == Seen(log, id) + [sign]
    ensures forall i: nat :: i != id ==> Seen(log + [m], i) == Seen(log, i)
  {
    forall i: nat ensures i != id ==> Seen(log + [m], i) == Seen(log, i) { SeenSnoc(log, m, i); }
    SeenSnoc(log, m, id);
  }

  lemma SendChunkKeeps(v: World, id: nat)
    requires Sound(v) && Possible(v, Send(id)) && !v.closed && v.readers[id].Sending?
    ensures Sound(DoSend(v, id))
  {
    var u, segment := DoSend(v, id), v.readers[id].segment;
    assert IdOk(v, id);
    LogGrows(v.log, Data(id, segment), id, Carries(segment));
    OpenGrows(Seen(v.log, id), Carries(segment));
    assert IdOk(u, id);
    OnlyStreamKeeps(v, u, id);
  }

  lemma SendEndKeeps(v: World, id: nat)
    requires Sound(v) && Possible(v, Send(id)) && !v.closed && v.readers[id].Ending?
    ensures Sound(DoSend(v, id))
  {
    var u := DoSend(v, id);
    assert IdOk(v, id);
    LogGrows(v.log, Finished(id), id, Closes);
    OpenGrows(Seen(v.log, id), Closes);
    assert IdOk(u, id);
    OnlyStreamKeeps(v, u, id);
  }

  lemma SendKeeps(v: World, id: nat)
    requires Sound(v) && Possible(v, Send(id))
    ensures Sound(Do(v, Send(id)))
  {
    if v.closed {
      assert IdOk(v, id);
      assert IdOk(DoSend(v, id), id);
      OnlyStreamKeeps(v, DoSend(v, id), id);
    } else if v.readers[id].Sending? {
      SendChunkKeeps(v, id);
    } else {
      SendEndKeeps(v, id);
    }
  }

  lemma HangUpKeeps(v: World, id: nat)
    requires Sound(v) && Possible(v, HangUp(id))
    ensures Sound(Do(v, HangUp(id)))
  {
    var u := Do(v, HangUp(id));
    assert IdOk(v, id);
    assert IdOk(u, id);
    OnlyStreamKeeps(v, u, id);
  }

  lemma ReadFailsKeeps(v: World, id: nat)
    requires Sound(v) && Possible(v, ReadFails(id))
    ensures Sound(Do(v, ReadFails(id)))
  {
    var u := Do(v, ReadFails(id));
    assert IdOk(v, id);
    assert IdOk(u, id);
    OnlyStreamKeeps(v, u, id);
  }

  lemma ReadEndsKeeps(v: World, id: nat)
    requires Sound(v) && Possible(v, ReadEnds(id))
    ensures Sound(Do(v, ReadEnds(id)))
  {
    var u := Do(v, ReadEnds(id));
    assert IdOk(v, id);
    assert IdOk(u, id);
    OnlyStreamKeeps(v, u, id);
  }

  lemma SendUnrelatedKeeps(v: World)
    requires Sound(v)
    ensures Sound(Do(v, SendUnrelated))
  {
    var u := Do(v, SendUnrelated);
    forall i: nat ensures Seen(u.log, i) == Seen(v.log, i) {
      if !v.closed { SeenSnoc(v.log, Unrelated, i); }
    }
    assert IdOk(v, 0);
    Elsewhere(v, u, 0);
    OnlyStreamKeeps(v, u, 0);
  }

  lemma DoKeeps(v: World, a: Action)
    requires Sound(v) && Possible(v, a)
    ensures Sound(Do(v, a))
  {
    var u := Do(v, a);
    match a
    case Call(c, ids) => CallKeeps(v, c, ids);
    case Produce(id, bytes) => ProduceKeeps(v, id, bytes);
    case HangUp(id) => HangUpKeeps(v, id);
    case Announce(c) => AnnounceKeeps(v, c);
    case Start(c) => StartKeeps(v, c);
    case Read(id, n) => ReadKeeps(v, id, n);
    case ReadFails(id) => ReadFailsKeeps(v, id);
    case ReadEnds(id) => ReadEndsKeeps(v, id);
    case Send(id) => SendKeeps(v, id);
    case SendUnrelated => SendUnrelatedKeeps(v);
    case Close =>
      assert IdOk(v, 0);
      Elsewhere(v, u, 0);
      OnlyStreamKeeps(v, u, 0);
  }

  lemma {:induction false} HappensKeeps(v: World, actions: seq<Action>, u: World)
    requires Sound(v) && Happens(v, actions, u)
    ensures Sound(u)
    decreases |actions|
  {
    if actions != [] {
      DoKeeps(v, actions[0]);
      HappensKeeps(Do(v, actions[0]), actions[1..], u);
    }
  }

  // ---- The theorems ----

  /** Whatever the interleaving, the channel carries for each stream its announcement first, then
      chunks of 1 to 4096 bytes that spell a prefix of what the stream produced, then at most one
      notice of the end, then nothing. */
  lemma OrderedOnTheChannel(actions: seq<Action>, v: World, id: nat)
    requires Happens(EMPTY, actions, v)
    ensures InOrder(Seen(v.log, id))
    ensures Seen(v.log, id) != [] ==> id in v.sources && Carried(Seen(v.log, id)) <= v.sources[id].produced
  {
    HappensKeeps(EMPTY, actions, v);
    assert IdOk(v, id);
    assert Carried([Opens]) == [];
  }

  /** A stream whose end was announced without a failed read was sent in full. */
  lemma EndMeansComplete(actions: seq<Action>, v: World, id: nat)
    requires Happens(EMPTY, actions, v) && Finished(id) in v.log
    ensures id in v.sources && (v.sources[id].failed || v.sources[id].hungUp)
    ensures !v.sources[id].failed ==> Carried(Seen(v.log, id)) == v.sources[id].produced
  {
    HappensKeeps(EMPTY, actions, v);
    assert IdOk(v, id);
    FinishedIsSeen(v.log, id);
  }

  lemma {:induction false} FinishedIsSeen(log: seq<Message>, id: nat)
    requires Finished(id) in log
    ensures Closes in Seen(log, id)
  {
    var n := |log| - 1;
    assert log == log[..n] + [log[n]];
    SeenSnoc(log[..n], log[n], id);
    if log[n] != Finished(id) {
      FinishedIsSeen(log[..n], id);
    } else {
      assert Seen(log, id)[|Seen(log[..n], id)|] == Closes;
    }
  }

  /** While the channel is open no stream is dropped: it is waiting for its announcement or its
      start, its reader is running, or its end has been announced. */
  lemma NothingDropped(actions: seq<Action>, v: World, id: nat)
    requires Happens(EMPTY, actions, v) && id in v.owner && !v.closed
    ensures id !in v.readers ==> Pending(v, id)
    ensures id in v.readers && v.readers[id].Done? ==> Closes in Seen(v.log, id)
  {
    HappensKeeps(EMPTY, actions, v);
    assert IdOk(v, id);
    if id in v.readers && v.readers[id].Done? {
      var signs := Seen(v.log, id);
      assert signs[|signs| - 1] == Closes;
    }
  }

  /** No byte for a stream is read, let alone sent, before its announcement is on the channel. */
  lemma AnnouncedBeforeRead(actions: seq<Action>, v: World, id: nat)
    requires Happens(EMPTY, actions, v) && id in v.readers
    ensures Seen(v.log, id) != [] && Seen(v.log, id)[0] == Opens
  {
    HappensKeeps(EMPTY, actions, v);
    assert IdOk(v, id);
  }
}
