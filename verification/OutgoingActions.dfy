/** The outgoing streams said in terms of what happened: what the other ends wrote, hung up and
    failed to yield, and that every stream gets to its end if it is left alone. */
module OutgoingActions {
  import opened Collections
  import opened StreamSpec
  import opened Outgoing

  // ---- The state is what happened ----

  /** What the other end of a stream wrote. */
  function ProducedBy(actions: seq<Action>, id: nat): Buffer {
    if actions == [] then [] else Adds(actions[0], id) + ProducedBy(actions[1..], id)
  }

  /** Some registration is for the stream. */
  predicate RegisteredBy(actions: seq<Action>, id: nat) {
    actions != [] && ((actions[0].Call? && id in actions[0].ids) || RegisteredBy(actions[1..], id))
  }

  /** What one action adds. */
  function Adds(a: Action, id: nat): Buffer {
    if a.Produce? && a.id == id then a.bytes else []
  }

  predicate HungUpIn(v: World, id: nat) {
    id in v.sources && v.sources[id].hungUp
  }

  predicate FailedIn(v: World, id: nat) {
    id in v.sources && v.sources[id].failed
  }

  function ProducedIn(v: World, id: nat): Buffer {
    if id in v.sources then v.sources[id].produced else []
  }

  /** What one action does to the end of a stream we read from. */
  lemma OneAction(v: World, a: Action, id: nat)
    requires Possible(v, a) && (id in v.owner <==> id in v.sources)
    ensures var u := Do(v, a);
            && (u.closed <==> v.closed || a == Close)
            && (id in u.owner <==> id in v.owner || (a.Call? && id in a.ids))
            && (id in u.sources <==> id in u.owner)
            && ProducedIn(u, id) == ProducedIn(v, id) + Adds(a, id)
            && (HungUpIn(u, id) <==> HungUpIn(v, id) || a == HangUp(id))
            && (FailedIn(u, id) <==> FailedIn(v, id) || a == ReadFails(id))
  {}

  /** What some actions do to it. */
  ghost predicate Follows(v: World, actions: seq<Action>, u: World, id: nat) {
    && (u.closed <==> v.closed || Close in actions)
    && (id in u.owner <==> id in v.owner || RegisteredBy(actions, id))
    && (id in u.sources <==> id in u.owner)
    && ProducedIn(u, id) == ProducedIn(v, id) + ProducedBy(actions, id)
    && (HungUpIn(u, id) <==> HungUpIn(v, id) || HangUp(id) in actions)
    && (FailedIn(u, id) <==> FailedIn(v, id) || ReadFails(id) in actions)
  }

  lemma OneActionMore(v: World, actions: seq<Action>, u: World, id: nat)
    requires actions != [] && Possible(v, actions[0]) && (id in v.owner <==> id in v.sources)
    requires Follows(Do(v, actions[0]), actions[1..], u, id)
    ensures Follows(v, actions, u, id)
  {
    OneAction(v, actions[0], id);
    assert actions == [actions[0]] + actions[1..];
    ConcatAssoc(ProducedIn(v, id), Adds(actions[0], id), ProducedBy(actions[1..], id));
  }

  lemma {:induction false} StateIsActionsFrom(v: World, actions: seq<Action>, u: World, id: nat)
    requires Happens(v, actions, u) && (id in v.owner <==> id in v.sources)
    ensures Follows(v, actions, u, id)
    decreases |actions|
  {
    if actions == [] {
      NothingAdded(ProducedIn(v, id));
    } else {
      OneAction(v, actions[0], id);
      StateIsActionsFrom(Do(v, actions[0]), actions[1..], u, id);
      OneActionMore(v, actions, u, id);
    }
  }

  lemma NothingAdded(b: Buffer)
    ensures b + [] == b && [] + b == b
  {}

  /** The channel is closed if it was closed, a stream known if it was registered; and what is
      there to read of it is what its other end wrote, until it hung up. */
  lemma StateIsActions(actions: seq<Action>, v: World, id: nat)
    requires Happens(EMPTY, actions, v)
    ensures v.closed <==> Close in actions
    ensures id in v.owner <==> RegisteredBy(actions, id)
    ensures id in v.sources <==> RegisteredBy(actions, id)
    ensures RegisteredBy(actions, id) ==>
              && v.sources[id].produced == ProducedBy(actions, id)
              && (v.sources[id].hungUp <==> HangUp(id) in actions)
              && (v.sources[id].failed <==> ReadFails(id) in actions)
  {
    StateIsActionsFrom(EMPTY, actions, v, id);
    NothingAdded(ProducedBy(actions, id));
  }

  /** If the end of a stream is announced and no read of it failed, its other end has hung up, and
      everything it wrote was sent. */
  lemma EverythingWrittenIsSent(actions: seq<Action>, v: World, id: nat)
    requires Happens(EMPTY, actions, v) && Finished(id) in v.log && ReadFails(id) !in actions
    ensures HangUp(id) in actions && Carried(Seen(v.log, id)) == ProducedBy(actions, id)
  {
    StateIsActions(actions, v, id);
    EndMeansComplete(actions, v, id);
  }

  // ---- Streams get to their end ----

  /** No reader is stuck unless it has read everything there is and the other end may still
      write; no stream that waits to be started is stuck at all. */
  lemma NeverStuck(actions: seq<Action>, v: World, id: nat)
    requires Happens(EMPTY, actions, v)
    ensures id in v.readers && (v.readers[id].Sending? || v.readers[id].Ending?) ==> Possible(v, Send(id))
    ensures id in v.readers && v.readers[id].Reading? ==> id in v.sources
    ensures id in v.readers && v.readers[id].Reading? && v.sources[id].taken < |v.sources[id].produced| ==>
              Possible(v, Read(id, Min(CHUNK, |v.sources[id].produced| - v.sources[id].taken)))
    ensures id in v.readers && v.readers[id].Reading? && v.sources[id].taken == |v.sources[id].produced| ==>
              (Possible(v, ReadEnds(id)) <==> v.sources[id].hungUp)
    ensures Pending(v, id) ==> Possible(v, Announce(v.owner[id])) || Possible(v, Start(v.owner[id]))
  {
    HappensKeeps(EMPTY, actions, v);
    ReaderNeverStuck(v, id);
    PendingNeverStuck(v, id);
  }

  lemma ReaderNeverStuck(v: World, id: nat)
    requires Sound(v)
    ensures id in v.readers && (v.readers[id].Sending? || v.readers[id].Ending?) ==> Possible(v, Send(id))
    ensures id in v.readers && v.readers[id].Reading? ==> id in v.sources
    ensures id in v.readers && v.readers[id].Reading? && v.sources[id].taken < |v.sources[id].produced| ==>
              Possible(v, Read(id, Min(CHUNK, |v.sources[id].produced| - v.sources[id].taken)))
    ensures id in v.readers && v.readers[id].Reading? && v.sources[id].taken == |v.sources[id].produced| ==>
              (Possible(v, ReadEnds(id)) <==> v.sources[id].hungUp)
  {
    assert IdOk(v, id);
  }

  lemma PendingNeverStuck(v: World, id: nat)
    requires Sound(v)
    ensures Pending(v, id) ==> Possible(v, Announce(v.owner[id])) || Possible(v, Start(v.owner[id]))
  {
    assert IdOk(v, id);
  }

  /** What a reader has to do until its end is announced. */
  function StepsLeft(v: World, id: nat): nat
    requires id in v.readers && id in v.sources && v.sources[id].taken <= |v.sources[id].produced|
  {
    var unread := |v.sources[id].produced| - v.sources[id].taken;
    match v.readers[id]
    case Reading => 2 * unread + 2
    case Sending(_) => 2 * unread + 3
    case Ending => 1
    case Done => 0
  }

  /** The next action of a reader whose other end has hung up. */
  function NextAction(v: World, id: nat): Action
    requires id in v.readers && id in v.sources && v.sources[id].taken <= |v.sources[id].produced|
  {
    var unread := |v.sources[id].produced| - v.sources[id].taken;
    if !v.readers[id].Reading? then Send(id)
    else if unread > 0 then Read(id, Min(CHUNK, unread)) else ReadEnds(id)
  }

  lemma NextActionWorks(v: World, id: nat)
    requires Sound(v) && id in v.readers && id in v.sources && v.sources[id].taken <= |v.sources[id].produced|
    requires v.sources[id].hungUp && !v.readers[id].Done?
    ensures Possible(v, NextAction(v, id))
    ensures var u := Do(v, NextAction(v, id));
            && u.closed == v.closed && id in u.readers && id in u.sources && u.sources[id].hungUp
            && u.sources[id].produced == v.sources[id].produced && u.sources[id].failed == v.sources[id].failed
            && u.sources[id].taken <= |u.sources[id].produced| && StepsLeft(u, id) < StepsLeft(v, id)
  {}

  /** Left alone, a reader whose other end has hung up sends everything and announces the end. */
  lemma {:induction false} Finishes(v: World, id: nat) returns (more: seq<Action>, u: World)
    requires Sound(v) && !v.closed && id in v.readers && id in v.sources && v.sources[id].hungUp
    ensures Happens(v, more, u) && Sound(u) && id in u.readers && u.readers[id].Done? && !u.closed
    ensures id in u.sources && u.sources[id].produced == v.sources[id].produced
    ensures u.sources[id].failed == v.sources[id].failed
    decreases assert IdOk(v, id); StepsLeft(v, id)
  {
    assert IdOk(v, id);
    if v.readers[id].Done? {
      more, u := [], v;
    } else {
      var a := NextAction(v, id);
      NextActionWorks(v, id);
      DoKeeps(v, a);
      var rest;
      rest, u := Finishes(Do(v, a), id);
      more := [a] + rest;
      assert more[1..] == rest;
    }
  }

  /** So every stream can be finished: from any state with an open channel in which its reader has
      been started and its other end has hung up, its own steps lead to its end on the channel,
      with everything it wrote if no read failed. */
  lemma EndIsReachable(actions: seq<Action>, v: World, id: nat) returns (more: seq<Action>, u: World)
    requires Happens(EMPTY, actions, v) && Close !in actions && id in v.readers && HangUp(id) in actions
    ensures Happens(v, more, u) && Closes in Seen(u.log, id)
    ensures ReadFails(id) !in actions ==> Carried(Seen(u.log, id)) == ProducedBy(actions, id)
  {
    HappensKeeps(EMPTY, actions, v);
    StateIsActions(actions, v, id);
    assert IdOk(v, id);
    more, u := Finishes(v, id);
    assert IdOk(u, id);
    var signs := Seen(u.log, id);
    assert signs[|signs| - 1] == Closes;
  }
}
