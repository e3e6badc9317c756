/** The message queue and the writer procedure that drains it into the ring, in
    place. Interleavings are the business of module Drainer. */
module AsyncWriting {
  import opened Bytes
  import opened Records
  import opened Slots
  import opened Ring

  type Message = seq<Byte>

  class MpscMessageQueue {
    var queue: seq<Message>
    var startDrainer: bool

    constructor ()
      ensures queue == [] && startDrainer
    {
      queue, startDrainer := [], true;
    }

    /** True if the caller must start a drainer. */
    method Enqueue(msg: Message) returns (start: bool)
      modifies this
      ensures queue == old(queue) + [msg] && start == old(startDrainer) && !startDrainer
    {
      start := startDrainer;
      startDrainer := false;
      queue := queue + [msg];
    }

    /** Everything queued; if nothing, the next message needs a new drainer. */
    method Drain() returns (batch: seq<Message>)
      modifies this
      ensures batch == old(queue) && queue == [] && (startDrainer <==> batch == [])
    {
      batch := queue;
      queue := [];
      startDrainer := batch == [];
    }
  }

  /** Every message is small enough for the ring. */
  predicate AllFit(batch: seq<Message>, cap: nat) {
    forall m :: m in batch ==> HEADER_SIZE + |m| <= cap
  }

  /** Messages come in between drains: `arrivals[k]` before the k-th. */
  function NextBatch(queue: seq<Message>, arrivals: seq<seq<Message>>): seq<Message> {
    if arrivals == [] then queue else queue + arrivals[0]
  }

  function LaterArrivals(arrivals: seq<seq<Message>>): seq<seq<Message>> {
    if arrivals == [] then [] else arrivals[1..]
  }

  /** What a drainer writes: all messages up to the first drain that finds none. */
  function Drained(queue: seq<Message>, arrivals: seq<seq<Message>>): seq<Message>
    decreases |arrivals|, |queue|
  {
    var batch := NextBatch(queue, arrivals);
    if batch == [] then [] else batch + Drained([], LaterArrivals(arrivals))
  }

  /** What the k-th drain of a drainer finds. */
  function Found(queue: seq<Message>, arrivals: seq<seq<Message>>, k: nat): seq<Message> {
    (if k == 0 then queue else []) + (if k < |arrivals| then arrivals[k] else [])
  }

  /** The n-th drain is the first to find nothing. */
  predicate EndsAt(queue: seq<Message>, arrivals: seq<seq<Message>>, n: nat) {
    Found(queue, arrivals, n) == [] && forall k :: 0 <= k < n ==> Found(queue, arrivals, k) != []
  }

  function Flatten(batches: seq<seq<Message>>): seq<Message> {
    if batches == [] then [] else batches[0] + Flatten(batches[1..])
  }

  /** The arrivals before drain `n`. */
  function Until(arrivals: seq<seq<Message>>, n: nat): seq<seq<Message>> {
    if n < |arrivals| then arrivals[..n] else arrivals
  }

  lemma FlattenUntil(arrivals: seq<seq<Message>>, n: nat)
    requires n > 0
    ensures Flatten(Until(arrivals, n))
         == (if arrivals == [] then [] else arrivals[0]) + Flatten(Until(LaterArrivals(arrivals), n - 1))
  {
    if n < |arrivals| { assert arrivals[..n][1..] == arrivals[1..][..n - 1]; }
  }

  /** Some drain finds nothing. */
  lemma {:induction false} EndsSomewhere(queue: seq<Message>, arrivals: seq<seq<Message>>)
    ensures exists n: nat :: EndsAt(queue, arrivals, n)
    decreases |arrivals|, |queue|
  {
    if Found(queue, arrivals, 0) == [] {
      assert EndsAt(queue, arrivals, 0);
    } else {
      var later := LaterArrivals(arrivals);
      EndsSomewhere([], later);
      var m: nat :| EndsAt([], later, m);
      EndsLater(queue, arrivals, m + 1);
    }
  }

  /** A drainer writes what was queued and all that arrived before the first drain that
      finds nothing. */
  lemma {:induction false} DrainedExactly(queue: seq<Message>, arrivals: seq<seq<Message>>, n: nat)
    requires EndsAt(queue, arrivals, n)
    ensures Drained(queue, arrivals) == queue + Flatten(Until(arrivals, n))
    decreases n
  {
    if n > 0 {
      assert Found(queue, arrivals, 0) != [];
      EndsLater(queue, arrivals, n);
      var later := LaterArrivals(arrivals);
      DrainedExactly([], later, n - 1);
      FlattenUntil(arrivals, n);
      assert Drained(queue, arrivals) == NextBatch(queue, arrivals) + Drained([], later);
      hide Drained, Flatten, Until, EndsAt;
      Associate(queue, if arrivals == [] then [] else arrivals[0], Flatten(Until(later, n - 1)));
    }
  }

  lemma EndsLater(queue: seq<Message>, arrivals: seq<seq<Message>>, n: nat)
    requires Found(queue, arrivals, 0) != [] && n > 0
    ensures EndsAt(queue, arrivals, n) <==> EndsAt([], LaterArrivals(arrivals), n - 1)
  {
    var later := LaterArrivals(arrivals);
    assert forall k :: 0 <= k < n ==> Found(queue, arrivals, k + 1) == Found([], later, k);
    if EndsAt([], later, n - 1) {
      forall k | 0 <= k < n ensures Found(queue, arrivals, k) != [] {
        if k > 0 { assert Found(queue, arrivals, (k - 1) + 1) == Found([], later, k - 1); }
      }
    }
  }

  /** So if something arrives before every drain, nothing is left out. */
  lemma NothingLeftBehind(queue: seq<Message>, arrivals: seq<seq<Message>>)
    requires forall b :: b in arrivals ==> b != []
    ensures Drained(queue, arrivals) == queue + Flatten(arrivals)
  {
    var n := if arrivals == [] && queue != [] then 1 else |arrivals|;
    assert forall k :: 0 <= k < |arrivals| ==> arrivals[k] in arrivals;
    assert EndsAt(queue, arrivals, n);
    DrainedExactly(queue, arrivals, n);
  }

  predicate AllBatchesFit(arrivals: seq<seq<Message>>, cap: nat) {
    forall b :: b in arrivals ==> AllFit(b, cap)
  }

  lemma NextBatchFits(queue: seq<Message>, arrivals: seq<seq<Message>>, cap: nat)
    requires AllFit(queue, cap) && AllBatchesFit(arrivals, cap)
    ensures AllFit(NextBatch(queue, arrivals), cap) && AllBatchesFit(LaterArrivals(arrivals), cap)
  {
    assert arrivals != [] ==> arrivals[0] in arrivals;
  }

  lemma Associate(a: seq<Message>, b: seq<Message>, c: seq<Message>)
    ensures (a + b) + c == a + (b + c)
  {
  }

  lemma MessagesAfterWrite(log: Log, payload: Message, pos: nat, cap: nat)
    requires cap > 0 && HEADER_SIZE + |payload| <= cap
    ensures Messages(log + WriteEntries(payload, pos, cap)) == Messages(log) + [payload]
  {
    MessagesConcat(log, WriteEntries(payload, pos, cap));
    WriteEntriesMessages(payload, pos, cap);
  }

  lemma ForcedWriteKills(slots: seq<Slot>, freePos: nat, n: nat, cap: nat)
    ensures Waits(slots, [], freePos, n, cap) + LiveCount(slots, freePos + n, cap) <= LiveCount(slots, freePos, cap)
  {
    BlockedWriteKills(slots, freePos, n, cap);
  }

  class AsyncWriter {
    const queue: MpscMessageQueue
    const writer: Writer
    var notificationCount: nat

    constructor (queue: MpscMessageQueue, writer: Writer)
      ensures this.queue == queue && this.writer == writer && notificationCount == 0
    {
      this.queue := queue;
      this.writer := writer;
      notificationCount := 0;
    }

    /** Queues a message; true if the writer procedure must be scheduled. */
    method Post(msg: Message) returns (schedule: bool)
      modifies queue
      ensures queue.queue == old(queue.queue) + [msg] && schedule == old(queue.startDrainer) && !queue.startDrainer
    {
      schedule := queue.Enqueue(msg);
    }

    /** Writes a batch to the ring, message by message. If the handler never waits
        and readers never move, each of them is met at most once. Readers are notified
        before every call of the handler. */
    method WriteBatch(batch: seq<Message>, handler: BackPressureHandler)
      requires writer.Valid() && AllFit(batch, writer.ring.configBufSizeBytes)
      requires WellSized(handler.script, writer.readerInfo.configMaxReaders)
      modifies this`notificationCount
      modifies writer.ring`freePos, writer.ring`log, writer.ring`dirty, writer.ring`backPressureCount, writer.ring.bytes
      modifies handler, writer.readerInfo`readersMinMax, writer.readerInfo.infos
      ensures writer.Valid()
      ensures WellSized(handler.script, writer.readerInfo.configMaxReaders)
      ensures old(writer.ring.log) <= writer.ring.log
      ensures Messages(writer.ring.log) == old(Messages(writer.ring.log)) + batch
      ensures notificationCount - old(notificationCount)
           == writer.ring.backPressureCount - old(writer.ring.backPressureCount) >= 0
      ensures old(handler.script) == [] ==>
                writer.ring.backPressureCount <= old(writer.ring.backPressureCount)
                  + LiveCount(old(writer.readerInfo.infos[..]), old(writer.ring.freePos),
                              writer.ring.configBufSizeBytes)
    {
      hide Holds, RangeCurrent, Messages, WriteEntries, Waits, BytesToWrite, LiveCount;
      for i := 0 to |batch|
        invariant writer.Valid()
        invariant WellSized(handler.script, writer.readerInfo.configMaxReaders)
        invariant old(writer.ring.log) <= writer.ring.log
        invariant Messages(writer.ring.log) == old(Messages(writer.ring.log)) + batch[..i]
        invariant notificationCount - old(notificationCount)
               == writer.ring.backPressureCount - old(writer.ring.backPressureCount) >= 0
        invariant old(handler.script) == [] ==>
                    && handler.script == [] && writer.readerInfo.infos[..] == old(writer.readerInfo.infos[..])
                    && writer.ring.backPressureCount
                       + LiveCount(writer.readerInfo.infos[..], writer.ring.freePos, writer.ring.configBufSizeBytes)
                       <= old(writer.ring.backPressureCount)
                          + LiveCount(old(writer.readerInfo.infos[..]), old(writer.ring.freePos),
                                      writer.ring.configBufSizeBytes)
      {
        assert batch[i] in batch && batch[..i + 1] == batch[..i] + [batch[i]];
        MessagesAfterWrite(writer.ring.log, batch[i], writer.ring.freePos, writer.ring.configBufSizeBytes);
        ForcedWriteKills(writer.readerInfo.infos[..], writer.ring.freePos,
                         BytesToWrite(batch[i], writer.ring.freePos, writer.ring.configBufSizeBytes),
                         writer.ring.configBufSizeBytes);
        var before := handler.calls;
        writer.WriteEx(batch[i], handler);
        notificationCount := notificationCount + (handler.calls - before);
      }
      assert batch[..|batch|] == batch;
    }

    /** Drains and writes until a drain finds nothing, then notifies once more than it
        met backpressure. */
    method ProcWriter(arrivals: seq<seq<Message>>, handler: BackPressureHandler)
      requires writer.Valid()
      requires AllFit(queue.queue, writer.ring.configBufSizeBytes)
      requires AllBatchesFit(arrivals, writer.ring.configBufSizeBytes)
      requires WellSized(handler.script, writer.readerInfo.configMaxReaders)
      modifies this`notificationCount, queue, handler, writer.readerInfo`readersMinMax, writer.readerInfo.infos
      modifies writer.ring`freePos, writer.ring`log, writer.ring`dirty, writer.ring`backPressureCount, writer.ring.bytes
      ensures writer.Valid() && queue.queue == [] && queue.startDrainer
      ensures Messages(writer.ring.log) == old(Messages(writer.ring.log)) + Drained(old(queue.queue), arrivals)
      ensures notificationCount - old(notificationCount)
           == writer.ring.backPressureCount - old(writer.ring.backPressureCount) + 1
    {
      hide Holds, RangeCurrent, Messages, WellSized;
      var left := arrivals;
      ghost var before := Messages(writer.ring.log);
      ghost var written: seq<Message> := [];
      assert before + written == before;
      assert written + Drained(queue.queue, left) == Drained(queue.queue, left);
      while true
        invariant writer.Valid()
        invariant notificationCount - old(notificationCount)
               == writer.ring.backPressureCount - old(writer.ring.backPressureCount)
        invariant AllFit(queue.queue, writer.ring.configBufSizeBytes)
        invariant AllBatchesFit(left, writer.ring.configBufSizeBytes)
        invariant WellSized(handler.script, writer.readerInfo.configMaxReaders)
        invariant Messages(writer.ring.log) == before + written
        invariant written + Drained(queue.queue, left) == Drained(old(queue.queue), arrivals)
        decreases |left|, |NextBatch(queue.queue, left)|
      {
        NextBatchFits(queue.queue, left, writer.ring.configBufSizeBytes);
        queue.queue := NextBatch(queue.queue, left);
        left := LaterArrivals(left);
        var queueCopy := queue.Drain();
        if queueCopy == [] {
          notificationCount := notificationCount + 1;
          break;
        }
        assert AllFit([], writer.ring.configBufSizeBytes);
        WriteBatch(queueCopy, handler);
        Associate(before, written, queueCopy);
        Associate(written, queueCopy, Drained([], left));
        written := written + queueCopy;
      }
    }
  }
}
