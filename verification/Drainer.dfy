/** How producers hand messages to a single drainer: the queue's start flag as a
    token, with producers and drainers interleaved step by step. */
module Drainer {
  import opened Bytes

  type Message = seq<Byte>

  /** A running writer procedure: about to drain, writing what is left of a batch,
      or about to send its last notification after draining nothing. */
  datatype Worker = Fetching | Writing(batch: seq<Message>) | Exiting

  datatype Event = Wrote(message: Message) | Notified

  /** `holders` were told to start a drainer and have not scheduled it yet;
      `scheduled` drainers have not begun. `posted` and `events` are history. */
  datatype Hub = Hub(
    queue: seq<Message>, startDrainer: bool, holders: nat, scheduled: nat, workers: seq<Worker>,
    posted: seq<Message>, events: seq<Event>)

  datatype Action =
    | Enqueue(message: Message)
    | Schedule
    | Start
    | Drain(w: nat)
    | Write(w: nat)
    | NotifyBlocked(w: nat)   // backpressure: readers are notified before waiting
    | NotifyLast(w: nat)

  predicate Init(h: Hub) {
    h == Hub([], true, 0, 0, [], [], [])
  }

  predicate Enabled(h: Hub, a: Action) {
    match a
    case Enqueue(_) => true
    case Schedule => h.holders > 0
    case Start => h.scheduled > 0
    case Drain(w) => w < |h.workers| && h.workers[w].Fetching?
    case Write(w) => w < |h.workers| && h.workers[w].Writing? && h.workers[w].batch != []
    case NotifyBlocked(w) => w < |h.workers| && h.workers[w].Writing? && h.workers[w].batch != []
    case NotifyLast(w) => w < |h.workers| && h.workers[w].Exiting?
  }

  function Apply(h: Hub, a: Action): Hub
    requires Enabled(h, a)
  {
    match a
    case Enqueue(m) =>
      h.(queue := h.queue + [m], posted := h.posted + [m],
         holders := if h.startDrainer then h.holders + 1 else h.holders, startDrainer := false)
    case Schedule => h.(holders := h.holders - 1, scheduled := h.scheduled + 1)
    case Start => h.(scheduled := h.scheduled - 1, workers := h.workers + [Fetching])
    case Drain(w) =>
      h.(queue := [], startDrainer := h.queue == [],
         workers := h.workers[w := if h.queue == [] then Exiting else Writing(h.queue)])
    case Write(w) =>
      var batch := h.workers[w].batch;
      h.(events := h.events + [Wrote(batch[0])],
         workers := h.workers[w := if |batch| == 1 then Fetching else Writing(batch[1..])])
    case NotifyBlocked(w) => h.(events := h.events + [Notified])
    case NotifyLast(w) => h.(events := h.events + [Notified], workers := h.workers[..w] + h.workers[w + 1..])
  }

  /** Workers that may still drain or write. */
  function Busy(workers: seq<Worker>): nat {
    if workers == [] then 0
    else Busy(workers[..|workers| - 1]) + (if workers[|workers| - 1].Exiting? then 0 else 1)
  }

  function Unwritten(workers: seq<Worker>): seq<Message> {
    if workers == [] then []
    else
      var last := workers[|workers| - 1];
      Unwritten(workers[..|workers| - 1]) + (if last.Writing? then last.batch else [])
  }

  function Written(events: seq<Event>): seq<Message> {
    if events == [] then []
    else
      var last := events[|events| - 1];
      Written(events[..|events| - 1]) + (if last.Wrote? then [last.message] else [])
  }

  /** Exactly one holder of the right to drain: the raised flag, a producer told to
      start a drainer, a scheduled drainer, or a worker not yet exiting. */
  predicate OneToken(h: Hub) {
    (if h.startDrainer then 1 else 0) + h.holders + h.scheduled + Busy(h.workers) == 1
  }

  predicate Inv(h: Hub) {
    && OneToken(h)
    && (h.queue != [] ==> !h.startDrainer)
    && h.posted == Written(h.events) + Unwritten(h.workers) + h.queue
    && (h.events != [] && h.events[|h.events| - 1].Wrote? ==> h.workers != [])
    && (forall w :: 0 <= w < |h.workers| && h.workers[w].Writing? ==> h.workers[w].batch != [])
  }

  // ----- Counting over the workers -----

  lemma {:induction false} BusyConcat(a: seq<Worker>, b: seq<Worker>)
    ensures Busy(a + b) == Busy(a) + Busy(b)
    ensures Unwritten(a + b) == Unwritten(a) + Unwritten(b)
  {
    if b == [] {
      assert a + b == a;
    } else {
      BusyConcat(a, b[..|b| - 1]);
      assert (a + b)[..|a + b| - 1] == a + b[..|b| - 1];
    }
  }

  lemma BusyOne(w: Worker)
    ensures Busy([w]) == if w.Exiting? then 0 else 1
    ensures Unwritten([w]) == if w.Writing? then w.batch else []
  {
    assert [w][..0] == [];
  }

  lemma {:induction false} NoneBusy(workers: seq<Worker>)
    requires Busy(workers) == 0
    ensures Unwritten(workers) == []
    ensures forall w :: 0 <= w < |workers| ==> workers[w].Exiting?
  {
    if workers != [] { NoneBusy(workers[..|workers| - 1]); }
  }

  lemma BusyAround(a: seq<Worker>, w: Worker, b: seq<Worker>)
    ensures Busy(a + [w] + b) == Busy(a) + (if w.Exiting? then 0 else 1) + Busy(b)
    ensures Unwritten(a + [w] + b) == Unwritten(a) + (if w.Writing? then w.batch else []) + Unwritten(b)
  {
    BusyConcat(a + [w], b);
    BusyConcat(a, [w]);
    BusyOne(w);
  }

  /** With the token on worker `w`, all others are exiting and hold nothing. */
  lemma OnlyWorker(workers: seq<Worker>, w: nat, next: Worker)
    requires w < |workers| && !workers[w].Exiting? && Busy(workers) <= 1
    ensures Busy(workers) == 1
    ensures Unwritten(workers) == if workers[w].Writing? then workers[w].batch else []
    ensures Busy(workers[w := next]) == if next.Exiting? then 0 else 1
    ensures Unwritten(workers[w := next]) == if next.Writing? then next.batch else []
  {
    hide Busy, Unwritten;
    var a, b := workers[..w], workers[w + 1..];
    assert workers == a + [workers[w]] + b && workers[w := next] == a + [next] + b;
    BusyAround(a, workers[w], b);
    BusyAround(a, next, b);
    NoneBusy(a);
    NoneBusy(b);
  }

  lemma WorkerLeaves(workers: seq<Worker>, w: nat)
    requires w < |workers| && workers[w].Exiting?
    ensures Busy(workers[..w] + workers[w + 1..]) == Busy(workers)
    ensures Unwritten(workers[..w] + workers[w + 1..]) == Unwritten(workers)
  {
    var a, b := workers[..w], workers[w + 1..];
    assert workers == a + [workers[w]] + b;
    BusyAround(a, workers[w], b);
    BusyConcat(a, b);
    hide Busy, Unwritten;
    assert Unwritten(a) + [] == Unwritten(a);
  }

  lemma WrittenNext(events: seq<Event>, e: Event)
    ensures Written(events + [e]) == if e.Wrote? then Written(events) + [e.message] else Written(events)
  {
    assert (events + [e])[..|events|] == events;
  }

  // ----- Every step keeps the invariant -----

  /** The first message of the batch moves over to what was written. */
  lemma MoveFirst(written: seq<Message>, batch: seq<Message>, queue: seq<Message>)
    requires batch != []
    ensures written + batch + queue == written + [batch[0]] + batch[1..] + queue
  {
    assert batch == [batch[0]] + batch[1..];
  }

  lemma WriteKeepsInv(h: Hub, w: nat)
    requires Inv(h) && Enabled(h, Write(w))
    ensures Inv(Apply(h, Write(w)))
  {
    var batch := h.workers[w].batch;
    var next := if |batch| == 1 then Fetching else Writing(batch[1..]);
    OnlyWorker(h.workers, w, next);
    WrittenNext(h.events, Wrote(batch[0]));
    MoveFirst(Written(h.events), batch, h.queue);
    assert Unwritten(h.workers[w := next]) == batch[1..];
    hide Busy, Unwritten, Written;
    assert h.posted == Written(h.events) + batch + h.queue;
    var h' := h.(events := h.events + [Wrote(batch[0])], workers := h.workers[w := next]);
    assert Apply(h, Write(w)) == h';
    assert OneToken(h');
    assert h'.posted == Written(h'.events) + Unwritten(h'.workers) + h'.queue;
  }

  lemma BatchTaken(written: seq<Message>, queue: seq<Message>)
    ensures written + [] + queue == written + queue + []
  {
  }

  lemma DrainKeepsInv(h: Hub, w: nat)
    requires Inv(h) && Enabled(h, Drain(w))
    ensures Inv(Apply(h, Drain(w)))
  {
    var next := if h.queue == [] then Exiting else Writing(h.queue);
    OnlyWorker(h.workers, w, next);
    BatchTaken(Written(h.events), h.queue);
    hide Busy, Unwritten, Written;
    assert h.posted == Written(h.events) + [] + h.queue;
    assert Unwritten(h.workers[w := next]) == h.queue;
    var h' := h.(queue := [], startDrainer := h.queue == [], workers := h.workers[w := next]);
    assert Apply(h, Drain(w)) == h';
    assert OneToken(h');
    assert h'.posted == Written(h'.events) + Unwritten(h'.workers) + h'.queue;
  }

  lemma StartKeepsInv(h: Hub)
    requires Inv(h) && Enabled(h, Start)
    ensures Inv(Apply(h, Start))
  {
    BusyConcat(h.workers, [Fetching]);
    BusyOne(Fetching);
    hide Busy, Unwritten, Written;
    assert Unwritten(h.workers) + [] == Unwritten(h.workers);
  }

  lemma NotifyKeepsInv(h: Hub, a: Action)
    requires Inv(h) && Enabled(h, a) && (a.NotifyBlocked? || a.NotifyLast?)
    ensures Inv(Apply(h, a))
  {
    if a.NotifyLast? { WorkerLeaves(h.workers, a.w); }
    WrittenNext(h.events, Notified);
    hide Busy, Unwritten, Written;
  }

  lemma StepKeepsInv(h: Hub, a: Action)
    requires Inv(h) && Enabled(h, a)
    ensures Inv(Apply(h, a))
  {
    hide Busy, Unwritten, Written;
    match a
    case Enqueue(m) =>
      assert h.posted + [m] == Written(h.events) + Unwritten(h.workers) + (h.queue + [m]);
    case Schedule =>
    case Start => StartKeepsInv(h);
    case Drain(w) => DrainKeepsInv(h, w);
    case Write(w) => WriteKeepsInv(h, w);
    case _ => NotifyKeepsInv(h, a);
  }

  predicate IsRun(hubs: seq<Hub>, acts: seq<Action>) {
    && |hubs| == |acts| + 1 && Init(hubs[0])
    && (forall i :: 0 <= i < |acts| ==> Enabled(hubs[i], acts[i]) && hubs[i + 1] == Apply(hubs[i], acts[i]))
  }

  lemma {:induction false} InvOverRun(hubs: seq<Hub>, acts: seq<Action>, i: nat)
    requires IsRun(hubs, acts) && i < |hubs|
    ensures Inv(hubs[i])
  {
    if i > 0 {
      InvOverRun(hubs, acts, i - 1);
      StepKeepsInv(hubs[i - 1], acts[i - 1]);
    }
  }

  /** In every reachable state: what was written is a prefix of what was posted, in
      order and once each; at most one worker is draining or writing; and messages
      in the queue always have a drainer on its way. */
  lemma HandOff(hubs: seq<Hub>, acts: seq<Action>, i: nat)
    requires IsRun(hubs, acts) && i < |hubs|
    ensures var h := hubs[i];
            && Written(h.events) <= h.posted
            && Busy(h.workers) <= 1
            && (h.queue != [] ==> h.holders + h.scheduled + Busy(h.workers) == 1)
  {
    InvOverRun(hubs, acts, i);
  }

  // ----- What happened -----

  /** The messages posted by the first `i` steps. */
  function Enqueued(acts: seq<Action>, i: nat): seq<Message>
    requires i <= |acts|
  {
    if i == 0 then []
    else Enqueued(acts, i - 1) + (if acts[i - 1].Enqueue? then [acts[i - 1].message] else [])
  }

  /** A write and a notification are one event each. */
  function EventOf(h: Hub, a: Action): seq<Event>
    requires Enabled(h, a)
  {
    match a
    case Write(w) => [Wrote(h.workers[w].batch[0])]
    case NotifyBlocked(_) => [Notified]
    case NotifyLast(_) => [Notified]
    case _ => []
  }

  function Happened(hubs: seq<Hub>, acts: seq<Action>, i: nat): seq<Event>
    requires IsRun(hubs, acts) && i <= |acts|
  {
    if i == 0 then [] else Happened(hubs, acts, i - 1) + EventOf(hubs[i - 1], acts[i - 1])
  }

  lemma Recorded(h: Hub, a: Action)
    requires Enabled(h, a)
    ensures Apply(h, a).posted == h.posted + (if a.Enqueue? then [a.message] else [])
    ensures Apply(h, a).events == h.events + EventOf(h, a)
  {
  }

  /** What counts as posted is every message any step ever enqueued, in that order; and
      every write and every notification, blocked or last, is an event of its own. */
  lemma {:induction false} PostedExactly(hubs: seq<Hub>, acts: seq<Action>, i: nat)
    requires IsRun(hubs, acts) && i < |hubs|
    ensures hubs[i].posted == Enqueued(acts, i) && hubs[i].events == Happened(hubs, acts, i)
  {
    if i > 0 {
      PostedExactly(hubs, acts, i - 1);
      hide Apply;
      Recorded(hubs[i - 1], acts[i - 1]);
    }
  }

  // ----- Draining out -----

  function Load(workers: seq<Worker>): nat {
    if workers == [] then 0
    else
      var last := workers[|workers| - 1];
      Load(workers[..|workers| - 1]) + (if last.Exiting? then 1 else if last.Fetching? then 2 else 2 + |last.batch|)
  }

  /** What is left to do if nothing more is posted. */
  function Remaining(h: Hub): nat {
    2 * |h.queue| + 4 * h.holders + 3 * h.scheduled + Load(h.workers)
  }

  lemma {:induction false} LoadConcat(a: seq<Worker>, b: seq<Worker>)
    ensures Load(a + b) == Load(a) + Load(b)
  {
    if b == [] {
      assert a + b == a;
    } else {
      LoadConcat(a, b[..|b| - 1]);
      assert (a + b)[..|a + b| - 1] == a + b[..|b| - 1];
    }
  }

  lemma LoadReplace(workers: seq<Worker>, w: nat, next: seq<Worker>)
    requires w < |workers|
    ensures Load(workers) == Load(workers[..w]) + Load([workers[w]]) + Load(workers[w + 1..])
    ensures Load(workers[..w] + next + workers[w + 1..]) == Load(workers[..w]) + Load(next) + Load(workers[w + 1..])
  {
    var a, b := workers[..w], workers[w + 1..];
    assert workers == a + [workers[w]] + b;
    LoadConcat(a + [workers[w]], b);
    LoadConcat(a, [workers[w]]);
    LoadConcat(a + next, b);
    LoadConcat(a, next);
  }

  lemma LoadOne(w: Worker)
    ensures Load([w]) == if w.Exiting? then 1 else if w.Fetching? then 2 else 2 + |w.batch|
  {
    assert [w][..0] == [];
  }

  lemma LoadSwap(workers: seq<Worker>, w: nat, next: Worker)
    requires w < |workers|
    ensures Load(workers[w := next]) + Load([workers[w]]) == Load(workers) + Load([next])
  {
    LoadReplace(workers, w, [next]);
    assert workers[w := next] == workers[..w] + [next] + workers[w + 1..];
  }

  /** Every step other than a new post, or a notification while blocked, leaves
      less to do. */
  lemma StepsRunOut(h: Hub, a: Action)
    requires Inv(h) && Enabled(h, a) && !a.Enqueue? && !a.NotifyBlocked?
    ensures Remaining(Apply(h, a)) < Remaining(h)
  {
    match a
    case Schedule =>
    case Start =>
      LoadConcat(h.workers, [Fetching]);
      LoadOne(Fetching);
      hide Load, Inv;
    case NotifyLast(w) =>
      LoadReplace(h.workers, w, []);
      LoadOne(h.workers[w]);
      assert Load([]) == 0;
      hide Load, Inv;
      assert h.workers[..w] + [] + h.workers[w + 1..] == h.workers[..w] + h.workers[w + 1..];
    case Drain(w) =>
      var next := if h.queue == [] then Exiting else Writing(h.queue);
      LoadSwap(h.workers, w, next);
      LoadOne(h.workers[w]);
      LoadOne(next);
      hide Load, Inv;
    case Write(w) =>
      var batch := h.workers[w].batch;
      var next := if |batch| == 1 then Fetching else Writing(batch[1..]);
      LoadSwap(h.workers, w, next);
      LoadOne(h.workers[w]);
      LoadOne(next);
      hide Load, Inv;
  }

  /** When no drainer is pending or running, everything posted has been written in
      order, and a notification was sent after the last write. */
  lemma Settled(h: Hub)
    requires Inv(h) && h.holders == 0 && h.scheduled == 0 && h.workers == []
    ensures h.queue == [] && h.startDrainer && Written(h.events) == h.posted
    ensures h.events != [] ==> h.events[|h.events| - 1] == Notified
  {
  }

  /** If no step but a new post is possible, the hub has settled. */
  lemma StuckIsSettled(h: Hub)
    requires Inv(h)
    requires forall a: Action :: Enabled(h, a) ==> a.Enqueue?
    ensures h.holders == 0 && h.scheduled == 0 && h.workers == []
  {
    assert Enabled(h, Schedule) <==> h.holders > 0;
    assert Enabled(h, Start) <==> h.scheduled > 0;
    assert h.workers != [] ==> Enabled(h, Drain(0)) || Enabled(h, Write(0)) || Enabled(h, NotifyLast(0));
  }
}
