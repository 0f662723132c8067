/** The shared stream table and the write loop as the dispatcher updates them in place. */
module Streams {
  import opened Collections
  import opened Options
  import opened StreamSpec
  import opened StreamInvariant

  /** What a pipe that can take `room` more bytes takes of bs. */
  function Taken(bs: Buffer, room: nat): Buffer {
    bs[..Min(|bs|, room)]
  }

  /** A write half. Its pipe takes `room` more bytes; then the other end is gone, and writes fail. */
  class WriteHalf {
    const pipe: nat
    var room: nat
    var delivered: Buffer
    var shutdowns: nat

    constructor (pipe: nat, room: nat)
      ensures this.pipe == pipe && this.room == room && delivered == [] && shutdowns == 0
    {
      this.pipe, this.room := pipe, room;
      delivered, shutdowns := [], 0;
    }

    /** Writes all of the item, or fails after as much of it as the pipe takes. */
    method WriteAll(item: Buffer) returns (ok: bool)
      modifies this
      ensures ok == (|item| <= old(room)) && shutdowns == old(shutdowns)
      ensures delivered == old(delivered) + Taken(item, old(room)) && room == old(room) - |Taken(item, old(room))|
    {
      ok := |item| <= room;
      var taken := Taken(item, room);
      delivered, room := delivered + taken, room - |taken|;
    }

    method Shutdown()
      modifies this
      ensures shutdowns == old(shutdowns) + 1 && delivered == old(delivered) && room == old(room)
    {
      shutdowns := shutdowns + 1;
    }
  }

  class Streams {
    var table: Table

    constructor ()
      ensures table == INITIAL.table
    {
      table := map[];
    }

    method Insert(id: nat, w: nat)
      modifies this
      ensures table == InsertRec(old(table), id, w)
      ensures table == old(table)[id := StreamRec(Some(w), [], false)]
    {
      table := table[id := StreamRec(Some(w), [], false)];
    }

    /** Returns the half a new write loop is to be started with, if one is. */
    method Write(id: nat, buf: Buffer) returns (started: Option<nat>)
      modifies this
      ensures (table, started) == WriteRec(old(table), id, buf)
      ensures id !in old(table) ==> table == old(table) && started == None
      ensures id in old(table) ==>
                && started == old(table)[id].write
                && table == old(table)[id := StreamRec(None, old(table)[id].q + [buf], old(table)[id].ended)]
    {
      started := None;
      if id in table {
        table := table[id := table[id].(q := table[id].q + [buf])];
        if table[id].write.Some? {
          started := table[id].write;
          table := table[id := table[id].(write := None)];
        }
        assert table == WriteRec(old(table), id, buf).0;
      }
    }

    /** Returns the half to shut down once the lock is released, if there is one. */
    method Remove(id: nat) returns (shut: Option<nat>)
      modifies this
      ensures (table, shut) == RemoveRec(old(table), id)
      ensures id !in old(table) ==> table == old(table) && shut == None
      ensures id in old(table) && old(table)[id].write.Some? ==>
                table == old(table) - {id} && shut == old(table)[id].write
      ensures id in old(table) && old(table)[id].write.None? ==>
                table == old(table)[id := StreamRec(None, old(table)[id].q, true)] && shut == None
    {
      shut := None;
      if id in table {
        if table[id].write.Some? {
          shut := table[id].write;
          table := table - {id};
        } else {
          table := table[id := table[id].(ended := true)];
        }
      }
    }

    /** The section of the write loop under the lock. */
    method TakeTurn(id: nat, w: nat) returns (turn: Turn)
      modifies this
      ensures (table, turn) == TurnRec(old(table), id, w)
      ensures id !in old(table) ==> table == old(table) && turn == Missing
      ensures id in old(table) && old(table)[id].q != [] ==>
                && turn == Batch(old(table)[id].q)
                && table == old(table)[id := StreamRec(old(table)[id].write, [], old(table)[id].ended)]
      ensures id in old(table) && old(table)[id].q == [] && old(table)[id].ended ==>
                table == old(table) - {id} && turn == Ended
      ensures id in old(table) && old(table)[id].q == [] && !old(table)[id].ended ==>
                table == old(table)[id := StreamRec(Some(w), [], false)] && turn == Returned
    {
      if id !in table { return Missing; }
      if table[id].q == [] {
        if table[id].ended {
          table := table - {id};
          return Ended;
        }
        table := table[id := table[id].(write := Some(w))];
        return Returned;
      }
      turn := Batch(table[id].q);
      table := table[id := table[id].(q := [])];
    }

    /** A write loop that nobody else interrupts drains the queue, in order, and leaves the
        half in the record if the stream is still open; otherwise the record goes and the half
        is shut down. What the pipe does not take is discarded. */
    method WriteLoop(id: nat, w: WriteHalf)
      modifies this, w
      ensures id in old(table) ==>
                w.delivered == old(w.delivered) + Taken(Flat(old(table)[id].q), old(w.room))
      ensures id in old(table) && !old(table)[id].ended ==>
                table == old(table)[id := StreamRec(Some(w.pipe), [], false)] && w.shutdowns == old(w.shutdowns)
      ensures id in old(table) && old(table)[id].ended ==>
                table == old(table) - {id} && w.shutdowns == old(w.shutdowns) + 1
      ensures id !in old(table) ==>
                table == old(table) && w.delivered == old(w.delivered) && w.shutdowns == old(w.shutdowns) + 1
    {
      while true
        invariant w.shutdowns == old(w.shutdowns)
        invariant id !in old(table) ==> table == old(table) && w.delivered == old(w.delivered) && w.room == old(w.room)
        invariant id in old(table) ==> id in table && table[id].ended == old(table)[id].ended
        invariant id in old(table) ==> table == old(table)[id := table[id]]
        invariant id in old(table) ==>
                    w.delivered + Taken(Flat(table[id].q), w.room)
                    == old(w.delivered) + Taken(Flat(old(table)[id].q), old(w.room))
        decreases if id in table then |table[id].q| else 0
      {
        var turn := TakeTurn(id, w.pipe);
        if turn.Returned? { return; }
        if !turn.Batch? { break; }
        WriteBatch(turn.items, w);
      }
      w.Shutdown();
    }

    /** The items of a batch go out in order, up to the first write that fails. */
    static method WriteBatch(items: seq<Buffer>, w: WriteHalf)
      modifies w
      ensures w.shutdowns == old(w.shutdowns)
      ensures w.delivered == old(w.delivered) + Taken(Flat(items), old(w.room))
      ensures w.room == old(w.room) - |Taken(Flat(items), old(w.room))|
    {
      assert items[..|items|] == items;
      for i := 0 to |items|
        invariant w.shutdowns == old(w.shutdowns)
        invariant w.delivered == old(w.delivered) + Flat(items[..i]) && w.room == old(w.room) - |Flat(items[..i])|
      {
        TakenItem(items, i, old(w.room));
        var ok := w.WriteAll(items[i]);
        if !ok { break; }
      }
    }

    /** One more item, after items that were taken whole. */
    static lemma TakenItem(items: seq<Buffer>, i: nat, room: nat)
      requires i < |items| && |Flat(items[..i])| <= room
      ensures Flat(items[..i + 1]) == Flat(items[..i]) + items[i]
      ensures |items[i]| > room - |Flat(items[..i])| ==>
                Taken(Flat(items), room) == Flat(items[..i]) + Taken(items[i], room - |Flat(items[..i])|)
    {
      assert items[..i + 1] == items[..i] + [items[i]] && items == items[..i + 1] + items[i + 1..];
      FlatSnoc(items[..i], items[i]);
      FlatConcat(items[..i + 1], items[i + 1..]);
    }
  }
}
