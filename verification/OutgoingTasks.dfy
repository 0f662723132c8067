/** Registration and the reader tasks as straight-line code over a channel. */
module OutgoingTasks {
  import opened Collections
  import opened Options
  import opened StreamSpec
  import opened Outgoing
  import opened Streams

  /** A channel that takes `room` more messages; after that the receiving end is gone. */
  class Channel {
    var log: seq<Message>
    var room: nat
    var attempts: nat

    constructor (room: nat)
      ensures log == [] && this.room == room && attempts == 0
    {
      log, this.room, attempts := [], room, 0;
    }

    method Send(m: Message) returns (ok: bool)
      modifies this
      ensures attempts == old(attempts) + 1 && ok == (old(room) > 0)
      ensures ok ==> log == old(log) + [m] && room == old(room) - 1
      ensures !ok ==> log == old(log) && room == old(room)
    {
      attempts, ok := attempts + 1, room > 0;
      if ok { log, room := log + [m], room - 1; }
    }
  }

  /** What a reader that never meets a closed channel sends for the chunks it reads. */
  function Script(id: nat, chunks: seq<Buffer>): (r: seq<Message>)
    ensures |r| == |chunks| + 1
  {
    if chunks == [] then [Finished(id)] else [Data(id, chunks[0])] + Script(id, chunks[1..])
  }

  lemma {:induction false} ScriptAt(id: nat, chunks: seq<Buffer>, i: nat)
    requires i <= |chunks|
    ensures Script(id, chunks)[i] == if i < |chunks| then Data(id, chunks[i]) else Finished(id)
    decreases |chunks|
  {
    if chunks != [] && i > 0 { ScriptAt(id, chunks[1..], i - 1); }
  }

  lemma ChunkMeaning(log: seq<Message>, id: nat, chunk: Buffer)
    requires IsOpen(Seen(log, id)) && 0 < |chunk| <= CHUNK
    ensures var signs := Seen(log + [Data(id, chunk)], id);
            && |signs| == |Seen(log, id)| + 1 && IsOpen(signs)
            && Carried(signs) == Carried(Seen(log, id)) + chunk
  {
    SeenSnoc(log, Data(id, chunk), id);
    CarriedSnoc(Seen(log, id), Carries(chunk));
  }

  /** The channel's log after the announcement and the first n chunks. */
  function LogOf(id: nat, ids: seq<nat>, chunks: seq<Buffer>, n: nat): seq<Message>
    requires n <= |chunks|
  {
    if n == 0 then [Started(ids)] else LogOf(id, ids, chunks, n - 1) + [Data(id, chunks[n - 1])]
  }

  lemma {:induction false} LogIsScript(id: nat, ids: seq<nat>, chunks: seq<Buffer>, n: nat)
    requires n <= |chunks|
    ensures LogOf(id, ids, chunks, n) == [Started(ids)] + Script(id, chunks)[..n]
  {
    if n > 0 {
      LogIsScript(id, ids, chunks, n - 1);
      ScriptAt(id, chunks, n - 1);
    }
  }

  lemma Announced(id: nat, ids: seq<nat>)
    requires id in ids
    ensures Seen([Started(ids)], id) == [Opens] && Carried([Opens]) == [] && IsOpen([Opens])
  {
    assert [Started(ids)] == [] + [Started(ids)];
    SeenSnoc([], Started(ids), id);
  }

  lemma FlatTake(chunks: seq<Buffer>, n: nat)
    requires 0 < n <= |chunks|
    ensures StreamInvariant.Flat(chunks[..n]) == StreamInvariant.Flat(chunks[..n - 1]) + chunks[n - 1]
  {
    assert chunks[..n] == chunks[..n - 1] + [chunks[n - 1]];
    StreamInvariant.FlatConcat(chunks[..n - 1], [chunks[n - 1]]);
    assert StreamInvariant.Flat([chunks[n - 1]]) == chunks[n - 1];
  }

  predicate ReadChunks(chunks: seq<Buffer>) {
    forall i :: 0 <= i < |chunks| ==> 0 < |chunks[i]| <= CHUNK
  }

  lemma {:induction false} LogMeaning(id: nat, ids: seq<nat>, chunks: seq<Buffer>, n: nat)
    requires id in ids && n <= |chunks| && ReadChunks(chunks)
    ensures |Seen(LogOf(id, ids, chunks, n), id)| == n + 1
    ensures IsOpen(Seen(LogOf(id, ids, chunks, n), id))
    ensures Carried(Seen(LogOf(id, ids, chunks, n), id)) == StreamInvariant.Flat(chunks[..n])
  {
    if n == 0 {
      Announced(id, ids);
    } else {
      LogMeaning(id, ids, chunks, n - 1);
      ChunkMeaning(LogOf(id, ids, chunks, n - 1), id, chunks[n - 1]);
      FlatTake(chunks, n);
    }
  }

  /** Cut off anywhere before its last message, the script of an announced stream is in order and
      carries exactly the chunks it got to. */
  lemma ScriptMeaning(id: nat, ids: seq<nat>, chunks: seq<Buffer>, n: nat)
    requires id in ids && n <= |chunks| && ReadChunks(chunks)
    ensures |Seen([Started(ids)] + Script(id, chunks)[..n], id)| == n + 1
    ensures IsOpen(Seen([Started(ids)] + Script(id, chunks)[..n], id))
    ensures Carried(Seen([Started(ids)] + Script(id, chunks)[..n], id)) == StreamInvariant.Flat(chunks[..n])
  {
    LogIsScript(id, ids, chunks, n);
    LogMeaning(id, ids, chunks, n);
  }

  /** Sent in full, it ends with the notice of the end and carries every chunk. */
  lemma WholeScriptMeaning(id: nat, ids: seq<nat>, chunks: seq<Buffer>)
    requires id in ids && ReadChunks(chunks)
    ensures var signs := Seen([Started(ids)] + Script(id, chunks), id);
            && InOrder(signs) && signs != [] && signs[|signs| - 1].Closes?
            && Carried(signs) == StreamInvariant.Flat(chunks)
  {
    var n := |chunks|;
    var log := [Started(ids)] + Script(id, chunks)[..n];
    ScriptMeaning(id, ids, chunks, n);
    ScriptAt(id, chunks, n);
    assert [Started(ids)] + Script(id, chunks) == log + [Finished(id)];
    LogGrows(log, Finished(id), id, Closes);
    OpenGrows(Seen(log, id), Closes);
    assert chunks[..n] == chunks && Carried(Seen(log, id)) + [] == Carried(Seen(log, id));
  }

  /** A reader task, given the chunks its reads return before they end or fail: it sends as much
      of its script as the channel takes, and nothing more is attempted after a failed send. */
  method PumpStream(id: nat, chunks: seq<Buffer>, tx: Channel)
    modifies tx
    ensures var script := Script(id, chunks);
            && tx.log == old(tx.log) + script[..Min(old(tx.room), |script|)]
            && tx.room == old(tx.room) - Min(old(tx.room), |script|)
            && tx.attempts == old(tx.attempts) + Min(old(tx.room) + 1, |script|)
  {
    ghost var script := Script(id, chunks);
    var i := 0;
    while i < |chunks|
      invariant 0 <= i <= |chunks| && i <= old(tx.room) && tx.room == old(tx.room) - i
      invariant tx.log == old(tx.log) + script[..i] && tx.attempts == old(tx.attempts) + i
    {
      ScriptAt(id, chunks, i);
      var ok := tx.Send(Data(id, chunks[i]));
      if !ok { return; }
      assert script[..i + 1] == script[..i] + [script[i]];
      i := i + 1;
    }
    ScriptAt(id, chunks, i);
    var _ := tx.Send(Finished(id));
    assert script[..i + 1] == script[..i] + [script[i]];
  }

  /** The table after registering streams one after the other. */
  function Inserted(table: Table, ids: seq<nat>, pipes: seq<nat>): Table
    requires |ids| == |pipes|
    decreases |ids|
  {
    if ids == [] then table
    else InsertRec(Inserted(table, ids[..|ids| - 1], pipes[..|ids| - 1]), ids[|ids| - 1], pipes[|ids| - 1])
  }

  /** The streams are announced in one message before any of them can be written to or read; if
      the announcement fails none of them is. Returns the streams to start readers for. */
  method RegisterStream(ids: seq<nat>, pipes: seq<nat>, tx: Channel, streams: Streams) returns (started: seq<nat>)
    requires |ids| == |pipes|
    modifies tx, streams
    ensures tx.attempts == old(tx.attempts) + 1
    ensures old(tx.room) > 0 ==>
              && tx.log == old(tx.log) + [Started(ids)] && started == ids
              && streams.table == Inserted(old(streams.table), ids, pipes)
    ensures old(tx.room) == 0 ==> tx.log == old(tx.log) && started == [] && streams.table == old(streams.table)
  {
    started := [];
    var ok := tx.Send(Started(ids));
    if !ok { return; }
    var i := 0;
    while i < |ids|
      invariant 0 <= i <= |ids| && started == ids[..i]
      invariant tx.attempts == old(tx.attempts) + 1 && tx.log == old(tx.log) + [Started(ids)]
      invariant streams.table == Inserted(old(streams.table), ids[..i], pipes[..i])
    {
      streams.Insert(ids[i], pipes[i]);
      started := started + [ids[i]];
      assert ids[..i + 1][..i] == ids[..i] && pipes[..i + 1][..i] == pipes[..i];
      i := i + 1;
    }
    assert ids[..i] == ids && pipes[..i] == pipes;
  }

  /** With distinct ids every stream ends up idle, with its own half, and no other is touched. */
  lemma {:induction false} InsertedAll(table: Table, ids: seq<nat>, pipes: seq<nat>, k: nat)
    requires |ids| == |pipes| && NoDuplicates(ids)
    ensures k !in ids ==> (k in Inserted(table, ids, pipes) <==> k in table)
    ensures k !in ids && k in table ==> Inserted(table, ids, pipes)[k] == table[k]
    ensures forall i :: 0 <= i < |ids| && ids[i] == k ==>
              k in Inserted(table, ids, pipes) && Inserted(table, ids, pipes)[k] == StreamRec(Some(pipes[i]), [], false)
    decreases |ids|
  {
    if ids != [] {
      InsertedAll(table, ids[..|ids| - 1], pipes[..|ids| - 1], k);
    }
  }
}
