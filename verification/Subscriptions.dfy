/** A topic reader over time: messages are created, queued and logged, channel readers
    come and go, and scheduled passes read the ring with the list of readers they were
    scheduled with. Which messages can reach a channel reader at all. */
module Subscriptions {
  import opened Bytes
  import opened Positions
  import opened Records
  import opened QuiescentRead
  import opened Ring
  import opened Topics
  import opened TopicReading

  /** A message its sender has created but no writer has logged, and when. */
  datatype Queued = Queued(message: seq<Byte>, born: nat)

  /** A handler call, with the log index of the message that led to it. */
  datatype Served = Served(id: nat, payload: seq<Byte>, index: nat)

  /** `births` gives for every log record when its message was created; `gaps` are the
      records logged while there was no channel reader; `start` and `earlier` are the
      lengths of log and calls at the last activation. These are history. */
  datatype Station = Station(
    cap: nat, log: Log, freePos: nat, queue: seq<Queued>,
    readers: seq<ChannelReader>, passes: seq<seq<ChannelReader>>, at: nat, served: seq<Served>,
    nextId: nat, clock: nat, births: seq<nat>, gaps: set<nat>, start: nat, earlier: nat)

  datatype Action =
    | Create(message: seq<Byte>)
    | Write(k: nat)                  // some writer logs the k-th queued message
    | Add(reader: ChannelReader)
    | Remove(id: nat)
    | Notify                         // a pass is scheduled with a copy of the list
    | Pass                           // the first scheduled pass reads

  // ----- Calls and where they come from -----

  function Recorded(readers: seq<ChannelReader>, e: Entry): seq<Call> {
    if e.rec.Msg? && IsTopicMessage(e.rec.payload) then Deliveries(readers, e.rec.payload) else []
  }

  function Tagged(calls: seq<Call>, index: nat): (s: seq<Served>)
    ensures |s| == |calls|
    ensures forall k :: 0 <= k < |s| ==> s[k] == Served(calls[k].id, calls[k].payload, index)
  {
    seq(|calls|, k requires 0 <= k < |calls| => Served(calls[k].id, calls[k].payload, index))
  }

  /** The calls the log records from `a` on, before `b`, lead to. */
  function ServedBy(readers: seq<ChannelReader>, log: Log, a: nat, b: nat): seq<Served>
    requires b <= |log|
  {
    if b <= a then []
    else ServedBy(readers, log, a, b - 1) + Tagged(Recorded(readers, log[b - 1]), b - 1)
  }

  lemma ServedNext(readers: seq<ChannelReader>, log: Log, a: nat, b: nat)
    requires a < b <= |log|
    ensures ServedBy(readers, log, a, b)
         == ServedBy(readers, log, a, b - 1) + Tagged(Recorded(readers, log[b - 1]), b - 1)
  {
  }

  function Untagged(served: seq<Served>): (calls: seq<Call>)
    ensures |calls| == |served|
  {
    seq(|served|, k requires 0 <= k < |served| => Call(served[k].id, served[k].payload))
  }

  lemma {:induction false} UntaggedNext(served: seq<Served>, calls: seq<Call>, index: nat)
    ensures Untagged(served + Tagged(calls, index)) == Untagged(served) + calls
  {
  }

  lemma {:induction false} FanOutNext(readers: seq<ChannelReader>, ms: seq<seq<Byte>>, m: seq<Byte>)
    requires IsTopicMessage(m) && forall x :: x in ms ==> IsTopicMessage(x)
    ensures FanOut(readers, ms + [m]) == FanOut(readers, ms) + Deliveries(readers, m)
  {
    assert (ms + [m])[..|ms|] == ms;
  }

  lemma {:induction false} FanOutStep(readers: seq<ChannelReader>, ms: seq<seq<Byte>>, ms': seq<seq<Byte>>, e: Entry)
    requires forall m :: m in ms' ==> IsTopicMessage(m)
    requires ms' == if e.rec.Msg? then ms + [e.rec.payload] else ms
    ensures forall m :: m in ms ==> IsTopicMessage(m)
    ensures FanOut(readers, ms') == FanOut(readers, ms) + Recorded(readers, e)
  {
    hide Deliveries, FanOut, IsTopicMessage;
    assert forall m :: m in ms ==> m in ms';
    if e.rec.Msg? {
      assert ms'[|ms|] == e.rec.payload;
      FanOutNext(readers, ms, e.rec.payload);
    }
  }

  predicate AllTopics(ms: seq<seq<Byte>>) {
    forall m :: m in ms ==> IsTopicMessage(m)
  }

  lemma ServedIsFanOutNext(readers: seq<ChannelReader>, log: Log, a: nat, b: nat, ms: seq<seq<Byte>>,
                           ms': seq<seq<Byte>>)
    requires a < b <= |log| && AllTopics(ms) && AllTopics(ms')
    requires ms' == if log[b - 1].rec.Msg? then ms + [log[b - 1].rec.payload] else ms
    requires Untagged(ServedBy(readers, log, a, b - 1)) == FanOut(readers, ms)
    ensures Untagged(ServedBy(readers, log, a, b)) == FanOut(readers, ms')
  {
    ServedNext(readers, log, a, b);
    UntaggedNext(ServedBy(readers, log, a, b - 1), Recorded(readers, log[b - 1]), b - 1);
    FanOutStep(readers, ms, ms', log[b - 1]);
    hide ServedBy, FanOut, Recorded, Untagged, Tagged;
  }

  lemma NoFanOut(readers: seq<ChannelReader>, log: Log, a: nat)
    requires a <= |log|
    ensures Messages(log[a..a]) == [] && FanOut(readers, []) == []
    ensures Untagged(ServedBy(readers, log, a, a)) == []
  {
    assert log[a..a] == [];
  }

  /** These are the calls of the fan-out. */
  lemma {:induction false} ServedIsFanOut(readers: seq<ChannelReader>, log: Log, a: nat, b: nat)
    requires a <= b <= |log| && AllTopics(Messages(log[a..b]))
    ensures Untagged(ServedBy(readers, log, a, b)) == FanOut(readers, Messages(log[a..b]))
  {
    hide Messages, FanOut, Untagged, ServedBy;
    if a == b {
      NoFanOut(readers, log, a);
    } else {
      var ms, ms' := Messages(log[a..b - 1]), Messages(log[a..b]);
      MessagesNext(log, a, b - 1);
      FanOutStep(readers, ms, ms', log[b - 1]);
      ServedIsFanOut(readers, log, a, b - 1);
      ServedIsFanOutNext(readers, log, a, b, ms, ms');
    }
  }

  predicate Accepts(c: ChannelReader, data: seq<Byte>) {
    IsTopicMessage(data) && Filter(data, |data|, c.generation, c.name, c.handleDescendants).Accepted?
  }

  predicate AcceptsRecord(c: ChannelReader, e: Entry) {
    e.rec.Msg? && Accepts(c, e.rec.payload)
  }

  lemma {:induction false} DeliveriesExactly(readers: seq<ChannelReader>, data: seq<Byte>, id: nat)
    requires IsTopicMessage(data)
    ensures (exists call :: call in Deliveries(readers, data) && call.id == id)
       <==> (exists c :: c in readers && c.id == id && Accepts(c, data))
  {
    if readers != [] {
      var n := |readers| - 1;
      DeliveriesExactly(readers[..n], data, id);
      hide Filter;
      assert readers == readers[..n] + [readers[n]];
    }
  }

  /** Somebody of this identity is called for record `k`. */
  predicate Calls(served: seq<Served>, id: nat, k: nat) {
    exists sv :: sv in served && sv.id == id && sv.index == k
  }

  /** Some reader of this identity accepts the record. */
  predicate Takes(readers: seq<ChannelReader>, id: nat, e: Entry) {
    exists c :: c in readers && c.id == id && AcceptsRecord(c, e)
  }

  lemma {:induction false} CallsConcat(a: seq<Served>, b: seq<Served>, id: nat, k: nat)
    ensures Calls(a + b, id, k) <==> Calls(a, id, k) || Calls(b, id, k)
  {
    if sv :| sv in a && sv.id == id && sv.index == k { assert sv in a + b; }
    if sv :| sv in b && sv.id == id && sv.index == k { assert sv in a + b; }
  }

  lemma TaggedExactly(calls: seq<Call>, index: nat, id: nat, k: nat)
    ensures Calls(Tagged(calls, index), id, k) <==> k == index && (exists call :: call in calls && call.id == id)
  {
    if call :| call in calls && call.id == id {
      var i :| 0 <= i < |calls| && calls[i] == call;
      assert Tagged(calls, index)[i].id == id;
    }
  }

  lemma RecordedExactly(readers: seq<ChannelReader>, e: Entry, index: nat, id: nat, k: nat)
    ensures Calls(Tagged(Recorded(readers, e), index), id, k) <==> k == index && Takes(readers, id, e)
  {
    TaggedExactly(Recorded(readers, e), index, id, k);
    hide Tagged, Calls;
    if e.rec.Msg? && IsTopicMessage(e.rec.payload) { DeliveriesExactly(readers, e.rec.payload, id); }
    hide Deliveries, Filter;
  }

  lemma NothingServed(readers: seq<ChannelReader>, log: Log, a: nat, b: nat, id: nat, k: nat)
    requires b <= a && b <= |log|
    ensures !Calls(ServedBy(readers, log, a, b), id, k)
  {
  }

  lemma ServedNextExactly(readers: seq<ChannelReader>, log: Log, a: nat, b: nat, id: nat, k: nat)
    requires a < b <= |log|
    ensures Calls(ServedBy(readers, log, a, b), id, k)
       <==> Calls(ServedBy(readers, log, a, b - 1), id, k) || (k == b - 1 && Takes(readers, id, log[b - 1]))
  {
    ServedNext(readers, log, a, b);
    hide ServedBy, Calls, Takes, Recorded, Tagged;
    RecordedExactly(readers, log[b - 1], b - 1, id, k);
    CallsConcat(ServedBy(readers, log, a, b - 1), Tagged(Recorded(readers, log[b - 1]), b - 1), id, k);
  }

  /** A reader of this identity is called for record `k` iff it accepts its message. */
  lemma {:induction false} ServedExactly(readers: seq<ChannelReader>, log: Log, a: nat, b: nat, id: nat, k: nat)
    requires b <= |log|
    ensures Calls(ServedBy(readers, log, a, b), id, k) <==> a <= k < b && Takes(readers, id, log[k])
  {
    hide Calls, Takes, ServedBy;
    if b <= a {
      NothingServed(readers, log, a, b, id, k);
    } else {
      ServedExactly(readers, log, a, b - 1, id, k);
      ServedNextExactly(readers, log, a, b, id, k);
    }
  }

  // ----- Steps -----

  /** A message the asynchronous writer takes. */
  predicate Postable(message: seq<Byte>, cap: nat) {
    IsTopicMessage(message) && HEADER_SIZE + |message| < cap
  }

  predicate Shape(st: Station) {
    && st.cap > 0 && |st.births| == |st.log| && st.at <= |st.log|
    && (forall q :: q in st.queue ==> Postable(q.message, st.cap))
  }

  predicate Enabled(st: Station, a: Action) {
    match a
    case Create(message) => Postable(message, st.cap)
    case Write(k) => k < |st.queue|
    case Add(reader) => reader.id == st.nextId
    case Pass => st.passes != []
    case _ => true
  }

  function Span(a: nat, b: nat): (ks: set<nat>)
    ensures forall k :: k in ks <==> a <= k < b
  {
    if b <= a then {} else Span(a, b - 1) + {b - 1}
  }

  function Repeat(born: nat, n: nat): (bs: seq<nat>)
    ensures |bs| == n && forall k :: 0 <= k < n ==> bs[k] == born
  {
    seq(n, _ => born)
  }

  function Apply(st: Station, a: Action): (st': Station)
    requires Shape(st) && Enabled(st, a)
    ensures Shape(st')
  {
    match a
    case Create(message) => st.(queue := st.queue + [Queued(message, st.clock)], clock := st.clock + 1)
    case Write(k) =>
      var q := st.queue[k];
      var es := WriteEntries(q.message, st.freePos, st.cap);
      st.(log := st.log + es, freePos := st.freePos + BytesToWrite(q.message, st.freePos, st.cap),
          queue := st.queue[..k] + st.queue[k + 1..], births := st.births + Repeat(q.born, |es|),
          gaps := if st.readers == [] then st.gaps + Span(|st.log|, |st.log| + |es|) else st.gaps)
    case Add(reader) =>
      var st' := st.(readers := st.readers + [reader], nextId := st.nextId + 1);
      if st.readers == [] then st'.(at := |st.log|, start := |st.log|, earlier := |st.served|) else st'
    case Remove(id) => st.(readers := Erase(st.readers, id))
    case Notify => if st.readers == [] then st else st.(passes := st.passes + [st.readers])
    case Pass =>
      var st' := st.(passes := st.passes[1..]);
      if st.readers == [] then st'
      else
        var j := StopAt(st.log, st.freePos, st.cap, st.at);
        st'.(served := st.served + ServedBy(st.passes[0], st.log, st.at, j), at := j)
  }

  predicate Init(st: Station) {
    && Shape(st) && st.log == [] && st.freePos == 0 && st.queue == [] && st.readers == [] && st.passes == []
    && st.served == [] && st.nextId == 0 && st.clock == 0 && st.gaps == {} && st.start == 0 && st.earlier == 0
  }

  /** A path of steps. */
  predicate Follows(sts: seq<Station>, acts: seq<Action>) {
    && |sts| == |acts| + 1
    && (forall i :: 0 <= i < |sts| ==> Shape(sts[i]))
    && (forall i :: 0 <= i < |acts| ==> Enabled(sts[i], acts[i]) && sts[i + 1] == Apply(sts[i], acts[i]))
  }

  ghost predicate Can(st: Station, t: Station) {
    exists sts: seq<Station>, acts: seq<Action> :: Follows(sts, acts) && sts[0] == st && sts[|acts|] == t
  }

  lemma CanStay(st: Station)
    requires Shape(st)
    ensures Can(st, st)
  {
    assert Follows([st], []);
  }

  lemma CanGoOn(st: Station, t: Station, a: Action)
    requires Can(st, t) && Shape(t) && Enabled(t, a)
    ensures Can(st, Apply(t, a))
  {
    var sts, acts :| Follows(sts, acts) && sts[0] == st && sts[|acts|] == t;
    var sts', acts' := sts + [Apply(t, a)], acts + [a];
    forall i | 0 <= i < |acts'|
      ensures Enabled(sts'[i], acts'[i]) && sts'[i + 1] == Apply(sts'[i], acts'[i])
    {
      if i < |acts| { assert sts'[i + 1] == sts[i + 1] && acts'[i] == acts[i]; }
    }
    assert Follows(sts', acts');
  }

  // ----- Nothing from closed times -----

  /** Calls come from records logged while there was a channel reader, those since the
      last activation from records logged since. */
  predicate FromSessions(st: Station) {
    && st.earlier <= |st.served|
    && (forall g :: g in st.gaps ==> g < |st.log| && (st.readers != [] ==> g < st.start))
    && (st.readers != [] ==> st.start <= st.at)
    && (forall k :: 0 <= k < |st.served| ==> st.served[k].index < |st.log| && st.served[k].index !in st.gaps)
    && (forall k :: st.earlier <= k < |st.served| ==> st.start <= st.served[k].index)
  }

  lemma {:induction false} ServedWithin(readers: seq<ChannelReader>, log: Log, a: nat, b: nat)
    requires b <= |log|
    ensures forall k :: 0 <= k < |ServedBy(readers, log, a, b)| ==> a <= ServedBy(readers, log, a, b)[k].index < b
  {
    if a < b {
      ServedWithin(readers, log, a, b - 1);
      ServedNext(readers, log, a, b);
      hide ServedBy, Recorded;
    }
  }

  lemma StepKeepsSessions(st: Station, a: Action)
    requires Shape(st) && Enabled(st, a) && FromSessions(st)
    ensures FromSessions(Apply(st, a))
  {
    if a.Pass? && st.readers != [] {
      ServedWithin(st.passes[0], st.log, st.at, StopAt(st.log, st.freePos, st.cap, st.at));
    }
    hide ServedBy, StopAt, WriteEntries, Erase, IsTopicMessage;
  }

  /** Over every sequence of additions, removals, writes and passes, scheduled before or
      after them: no call ever comes from a message logged while there was no channel
      reader, and all calls since the last activation come from messages logged since. */
  lemma {:induction false} NothingFromGaps(sts: seq<Station>, acts: seq<Action>, i: nat)
    requires Follows(sts, acts) && Init(sts[0]) && i < |sts|
    ensures FromSessions(sts[i])
  {
    if i > 0 {
      NothingFromGaps(sts, acts, i - 1);
      StepKeepsSessions(sts[i - 1], acts[i - 1]);
    }
  }

  // ----- Messages from before a reader was added -----

  /** All known channel readers of an identity are the same one, and identities are
      given out in order. */
  predicate Known(st: Station, c: ChannelReader) {
    && c.id < st.nextId
    && (forall d :: d in st.readers && d.id == c.id ==> d == c)
    && (forall p, d :: p in st.passes && d in p && d.id == c.id ==> d == c)
  }

  /** No channel reader, pass or call has an identity still to be given out, and
      messages queued or logged were created in the past. */
  predicate Numbered(st: Station) {
    && (forall d :: d in st.readers ==> d.id < st.nextId)
    && (forall p, d :: p in st.passes && d in p ==> d.id < st.nextId)
    && (forall sv :: sv in st.served ==> sv.id < st.nextId)
    && (forall q :: q in st.queue ==> q.born < st.clock)
    && (forall k :: 0 <= k < |st.births| ==> st.births[k] < st.clock)
  }

  /** The reader gets no further: it stands at an expired or unreadable record. */
  predicate Stuck(st: Station)
    requires st.at <= |st.log|
  {
    StopAt(st.log, st.freePos, st.cap, st.at) == st.at
  }

  /** A record a reader stops at, it stops at for good. */
  lemma {:induction false} StopStays(log: Log, f: nat, log': Log, f': nat, cap: nat, i: nat, a: nat)
    requires log <= log' && f <= f' && i <= |log| && i <= a <= StopAt(log, f, cap, i) < |log|
    ensures a <= StopAt(log', f', cap, a) <= StopAt(log, f, cap, i)
    decreases |log| - a
  {
    var j := StopAt(log, f, cap, i);
    StopsThere(log, f, cap, i);
    if a < j { StopStays(log, f, log', f', cap, i, a + 1); }
  }

  lemma {:induction false} StopsThere(log: Log, f: nat, cap: nat, i: nat)
    requires i <= |log|
    ensures var j := StopAt(log, f, cap, i);
            StopAt(log, f, cap, j) == j
            && (j < |log| ==> !log[j].rec.Blank? && (Expired(log[j].pos, f, cap) || Unreadable(log[j].rec)))
    decreases |log| - i
  {
    if i < |log| && StopAt(log, f, cap, i) != i { StopsThere(log, f, cap, i + 1); }
  }

  // What can still be served from before `c` was added to station `s`:

  /** The list has been non-empty, no pass from before is scheduled, and the ring reader
      will still reach record `k`, whose message `c` accepts. */
  predicate Pending(s: Station, c: ChannelReader, k: nat)
    requires Shape(s)
  {
    && s.readers != [] && s.passes == []
    && s.at <= k < StopAt(s.log, s.freePos, s.cap, s.at) && AcceptsRecord(c, s.log[k])
  }

  /** A message that `c` accepts is created but not logged. */
  predicate Awaited(s: Station, c: ChannelReader, k: nat) {
    k < |s.queue| && Accepts(c, s.queue[k].message)
  }

  /** Messages created before `s` are in its log or were in its queue. */
  predicate OldOnes(s: Station, t: Station) {
    && |t.births| == |t.log|
    && s.log <= t.log && s.births <= t.births && s.freePos <= t.freePos && s.cap == t.cap && s.clock <= t.clock
    && (forall q :: q in t.queue && q.born < s.clock ==> q in s.queue)
    && (forall k :: |s.log| <= k < |t.log| && t.births[k] < s.clock && t.log[k].rec.Msg? ==>
          Queued(t.log[k].rec.payload, t.births[k]) in s.queue)
  }

  lemma OldOnesStep(s: Station, t: Station, a: Action)
    requires Shape(s) && Shape(t) && Enabled(t, a) && OldOnes(s, t)
    ensures OldOnes(s, Apply(t, a))
  {
    if a.Write? {
      var q := t.queue[a.k];
      assert q in t.queue;
      var es := WriteEntries(q.message, t.freePos, t.cap);
      assert forall e :: e in es && e.rec.Msg? ==> e.rec.payload == q.message;
      hide WriteEntries, BytesToWrite;
      var t' := Apply(t, a);
      forall k | |s.log| <= k < |t'.log| && t'.births[k] < s.clock && t'.log[k].rec.Msg?
        ensures Queued(t'.log[k].rec.payload, t'.births[k]) in s.queue
      {
        if k >= |t.log| { assert t'.log[k] == es[k - |t.log|] && t'.births[k] == q.born; }
      }
    }
    hide StopAt, ServedBy, Erase, IsTopicMessage;
  }

  lemma KnownStep(t: Station, a: Action, c: ChannelReader)
    requires Shape(t) && Enabled(t, a) && Known(t, c)
    ensures Known(Apply(t, a), c)
  {
    if a.Remove? { ErasedWere(t.readers, a.id); }
    hide StopAt, ServedBy, Erase, IsTopicMessage, WriteEntries, BytesToWrite;
  }

  lemma {:induction false} ErasedWere(readers: seq<ChannelReader>, id: nat)
    ensures forall d :: d in Erase(readers, id) ==> d in readers
  {
    if readers != [] && readers[0].id != id { ErasedWere(readers[1..], id); }
  }

  /** Nothing logged before `s` is read any more. */
  predicate Done(s: Station, t: Station)
    requires Shape(t)
  {
    t.readers == [] || t.at >= |s.log| || Stuck(t)
  }

  /** Where the ring reader of `t` can be: past the log of `s`, or on its way from where
      it was in `s` to where it would have stopped. If a pass was scheduled before `c`
      was added, that one comes first. */
  predicate OnItsWay(s: Station, t: Station, c: ChannelReader)
    requires Shape(s) && Shape(t)
  {
    && (t.readers != [] && t.at < |s.log| ==>
          s.readers != [] && s.at <= t.at <= StopAt(s.log, s.freePos, s.cap, s.at))
    && (s.passes != [] ==> Done(s, t) || (t.passes != [] && forall d :: d in t.passes[0] ==> d.id != c.id))
  }

  /** What `c` was called for so far. */
  predicate ServedFairly(s: Station, t: Station, c: ChannelReader)
    requires Shape(s) && Shape(t)
  {
    forall sv :: sv in t.served && sv.id == c.id ==>
      && sv.index < |t.log| && AcceptsRecord(c, t.log[sv.index])
      && (sv.index < |s.log| ==> Pending(s, c, sv.index))
  }

  predicate Since(s: Station, t: Station, c: ChannelReader) {
    Shape(s) && Shape(t) && Known(t, c) && OldOnes(s, t) && OnItsWay(s, t, c) && ServedFairly(s, t, c)
  }

  /** A pass stops short of where the ring reader would have stopped before, and does
      not move if that is where it was. */
  lemma PassStops(s: Station, t: Station, c: ChannelReader)
    requires Since(s, t, c) && t.readers != []
    ensures var j := StopAt(t.log, t.freePos, t.cap, t.at);
            && StopAt(t.log, t.freePos, t.cap, j) == j
            && (t.at < |s.log| && StopAt(s.log, s.freePos, s.cap, s.at) < |s.log| ==>
                  j <= StopAt(s.log, s.freePos, s.cap, s.at))
  {
    StopsThere(t.log, t.freePos, t.cap, t.at);
    if t.at < |s.log| && StopAt(s.log, s.freePos, s.cap, s.at) < |s.log| {
      StopStays(s.log, s.freePos, t.log, t.freePos, s.cap, s.at, t.at);
    }
  }

  lemma PassOnItsWay(s: Station, t: Station, c: ChannelReader)
    requires Since(s, t, c) && Enabled(t, Pass)
    ensures OnItsWay(s, Apply(t, Pass), c)
  {
    if t.readers != [] { PassStops(s, t, c); }
    hide ServedBy, ServedFairly, Known;
  }

  lemma WriteOnItsWay(s: Station, t: Station, k: nat, c: ChannelReader)
    requires Since(s, t, c) && Enabled(t, Write(k))
    ensures OnItsWay(s, Apply(t, Write(k)), c)
  {
    var t' := Apply(t, Write(k));
    assert t.log <= t'.log && t.freePos <= t'.freePos;
    assert t'.readers == t.readers && t'.at == t.at && t'.passes == t.passes;
    if Stuck(t) && t.at < |s.log| {
      StopStays(t.log, t.freePos, t'.log, t'.freePos, t.cap, t.at, t.at);
    }
    hide ServedFairly, Known, WriteEntries, BytesToWrite, IsTopicMessage;
  }

  lemma StepOnItsWay(s: Station, t: Station, a: Action, c: ChannelReader)
    requires Since(s, t, c) && Enabled(t, a)
    ensures OnItsWay(s, Apply(t, a), c)
  {
    match a
    case Pass => PassOnItsWay(s, t, c);
    case Write(k) => WriteOnItsWay(s, t, k, c);
    case _ =>
      hide ServedFairly, Known, Erase, IsTopicMessage, OldOnes;
  }

  lemma PassServesFairly(s: Station, t: Station, c: ChannelReader)
    requires Since(s, t, c) && Enabled(t, Pass)
    ensures ServedFairly(s, Apply(t, Pass), c)
  {
    var t' := Apply(t, Pass);
    if t.readers != [] {
      PassStops(s, t, c);
      var copy, j := t.passes[0], StopAt(t.log, t.freePos, t.cap, t.at);
      var more := ServedBy(copy, t.log, t.at, j);
      forall sv | sv in more && sv.id == c.id
        ensures sv.index < |t.log| && AcceptsRecord(c, t.log[sv.index])
        ensures sv.index < |s.log| ==> Pending(s, c, sv.index)
      {
        ServedExactly(copy, t.log, t.at, j, c.id, sv.index);
        var d :| d in copy && d.id == c.id && AcceptsRecord(d, t.log[sv.index]);
        assert d == c;
      }
      hide AcceptsRecord, ServedBy, StopAt, OnItsWay, OldOnes, Known;
      assert t'.served == t.served + more;
    }
  }

  lemma StepKeepsSince(s: Station, t: Station, a: Action, c: ChannelReader)
    requires Since(s, t, c) && Enabled(t, a)
    ensures Since(s, Apply(t, a), c)
  {
    KnownStep(t, a, c);
    OldOnesStep(s, t, a);
    StepOnItsWay(s, t, a, c);
    if a.Pass? {
      PassServesFairly(s, t, c);
    } else {
      var t' := Apply(t, a);
      assert t'.served == t.served && t.log <= t'.log;
      hide AcceptsRecord, Pending, StopAt, OnItsWay, Known;
      assert ServedFairly(s, t', c);
    }
    hide Apply, Enabled, ServedFairly, OnItsWay, OldOnes, Known;
  }

  lemma AddedSince(s: Station, c: ChannelReader)
    requires Shape(s) && Numbered(s) && Enabled(s, Add(c))
    ensures Since(s, Apply(s, Add(c)), c)
  {
    StopBounds(s);
    hide StopAt, IsTopicMessage;
  }

  lemma StopBounds(s: Station)
    requires Shape(s)
    ensures s.at <= StopAt(s.log, s.freePos, s.cap, s.at)
  {
  }

  lemma {:induction false} SinceAlong(s: Station, sts: seq<Station>, acts: seq<Action>, i: nat, c: ChannelReader)
    requires Follows(sts, acts) && i < |sts| && Since(s, sts[0], c)
    ensures Since(s, sts[i], c)
  {
    if i > 0 {
      SinceAlong(s, sts, acts, i - 1, c);
      StepKeepsSince(s, sts[i - 1], acts[i - 1], c);
    }
  }

  /** Whatever happens later, a call of `c` for an older message was pending or awaited. */
  lemma OnlyPendingOrAwaited(s: Station, c: ChannelReader, t: Station, sv: Served)
    requires Shape(s) && Numbered(s) && Enabled(s, Add(c)) && Can(Apply(s, Add(c)), t)
    requires sv in t.served && sv.id == c.id
    ensures sv.index < |t.log| == |t.births|
    ensures sv.index < |s.log| ==> Pending(s, c, sv.index)
    ensures sv.index >= |s.log| && t.births[sv.index] < s.clock ==> exists k :: Awaited(s, c, k)
  {
    AddedSince(s, c);
    var sts, acts :| Follows(sts, acts) && sts[0] == Apply(s, Add(c)) && sts[|acts|] == t;
    SinceAlong(s, sts, acts, |acts|, c);
    assert OldOnes(s, t) && ServedFairly(s, t, c);
    hide Follows, Apply, OnItsWay, Known, Accepts, Since, Numbered, Enabled, Can;
    if sv.index >= |s.log| && t.births[sv.index] < s.clock {
      var q := Queued(t.log[sv.index].rec.payload, t.births[sv.index]);
      assert q in s.queue;
      var k :| 0 <= k < |s.queue| && s.queue[k] == q;
      assert Awaited(s, c, k);
    }
  }

  // ----- How they get there -----

  /** After `c` was added to `s`, things went on to `t`, where `sv` is a call of `c`. */
  ghost predicate CalledIn(s: Station, c: ChannelReader, t: Station, sv: Served)
    requires Shape(s) && Enabled(s, Add(c))
  {
    Can(Apply(s, Add(c)), t) && sv in t.served && sv.id == c.id && sv.index < |t.births|
  }

  /** A pending message is delivered by the next pass. */
  lemma PendingServed(s: Station, c: ChannelReader, k: nat)
    requires Shape(s) && Enabled(s, Add(c)) && Pending(s, c, k)
    ensures exists t, sv :: CalledIn(s, c, t, sv) && sv.index == k && s.births <= t.births
  {
    var t0 := Apply(s, Add(c));
    CanStay(t0);
    var t1 := Apply(t0, Notify);
    CanGoOn(t0, t0, Notify);
    CanGoOn(t0, t1, Pass);
    var j := StopAt(s.log, s.freePos, s.cap, s.at);
    var t2 := Apply(t1, Pass);
    assert c in t0.readers && t2.served == s.served + ServedBy(t0.readers, s.log, s.at, j);
    assert Takes(t0.readers, c.id, s.log[k]);
    ServedExactly(t0.readers, s.log, s.at, j, c.id, k);
    hide Can, Apply, ServedBy, StopAt, AcceptsRecord, IsTopicMessage, Takes;
    var sv :| sv in ServedBy(t0.readers, s.log, s.at, j) && sv.id == c.id && sv.index == k;
    assert CalledIn(s, c, t2, sv);
  }

  /** All channel readers are removed. */
  lemma {:induction false} CloseAll(from: Station, t: Station)
    requires Can(from, t) && Shape(t)
    ensures Can(from, t.(readers := []))
    decreases |t.readers|
  {
    hide Can;
    if t.readers == [] {
      assert t.(readers := []) == t;
    } else {
      var id := t.readers[0].id;
      CanGoOn(from, t, Remove(id));
      assert Apply(t, Remove(id)) == t.(readers := t.readers[1..]);
      CloseAll(from, t.(readers := t.readers[1..]));
    }
  }

  /** Passes that come while there is no channel reader do nothing. */
  lemma {:induction false} DropPasses(from: Station, t: Station, n: nat)
    requires Can(from, t) && Shape(t) && t.readers == [] && n <= |t.passes|
    ensures Can(from, t.(passes := t.passes[n..]))
    decreases n
  {
    hide Can;
    if n == 0 {
      assert t.passes[0..] == t.passes;
      assert t.(passes := t.passes[0..]) == t;
    } else {
      CanGoOn(from, t, Pass);
      var t' := t.(passes := t.passes[1..]);
      assert Apply(t, Pass) == t';
      DropPasses(from, t', n - 1);
      assert t'.passes[n - 1..] == t.passes[n..];
    }
  }

  /** A message six bytes shorter than the buffer ends at its end or just before it. */
  lemma AfterLong(data: seq<Byte>, pos: nat, cap: nat)
    requires |data| + 6 == cap
    ensures (pos + BytesToWrite(data, pos, cap)) % cap in {0, cap - 1}
  {
    var ix := pos % cap;
    WrapToZero(pos, cap);
    if ix == 0 {
      IndexOffset(pos, cap - 1, cap);
    } else if ix > 1 {
      IndexOffset(pos + (cap - ix), cap - 1, cap);
    }
  }

  /** From there every message is read back as soon as it is written. */
  lemma {:induction false} ReadBack(log: Log, freePos: nat, cap: nat, message: seq<Byte>)
    requires cap > 0 && Postable(message, cap) && freePos % cap in {0, cap - 1}
    ensures var log', f := log + WriteEntries(message, freePos, cap), freePos + BytesToWrite(message, freePos, cap);
            StopAt(log', f, cap, |log|) == |log'| > |log| && log'[|log'| - 1].rec == Msg(message)
  {
    var log', f := log + WriteEntries(message, freePos, cap), freePos + BytesToWrite(message, freePos, cap);
    var last := |log'| - 1;
    assert StopAt(log', f, cap, |log'|) == |log'|;
    assert log'[last].rec == Msg(message) && !Expired(log'[last].pos, f, cap);
    assert StopAt(log', f, cap, last) == |log'|;
    if freePos % cap != 0 {
      assert NextRecord(message, freePos, cap) == Blank(1) && log'[|log|].rec == Blank(1);
    }
  }

  /** A pass with the readers of `s` and `c` is scheduled, the ring reader is at the
      stream end, and the next message will be read back. */
  predicate Poised(s: Station, c: ChannelReader, t: Station) {
    && Shape(s) && Shape(t) && t.cap == s.cap && t.queue == s.queue
    && t.passes == [s.readers + [c]] && t.readers != []
    && t.at == |t.log| && t.freePos % t.cap in {0, t.cap - 1}
  }

  /** Everybody leaves, the passes scheduled before come to nothing, and a new reader
      arrives after one more message. */
  lemma GetsPoised(s: Station, c: ChannelReader)
    requires Shape(s) && Enabled(s, Add(c)) && s.cap >= 16
    ensures exists t :: Can(Apply(s, Add(c)), t) && Poised(s, c, t)
  {
    var t0 := Apply(s, Add(c));
    CanStay(t0);
    hide Can;
    CanGoOn(t0, t0, Notify);
    var t1 := Apply(t0, Notify);
    CloseAll(t0, t1);
    var t2 := t1.(readers := []);
    DropPasses(t0, t2, |s.passes|);
    var t3 := t2.(passes := t2.passes[|s.passes|..]);
    assert t3.passes == [s.readers + [c]];
    Arrives(t0, t3);
    var t :| && Can(t0, t) && Shape(t) && t.readers != []
             && t.cap == t3.cap && t.queue == t3.queue && t.passes == t3.passes
             && t.at == |t.log| && t.freePos % t.cap in {0, t.cap - 1};
  }

  lemma {:induction false} Arrives(from: Station, t: Station)
    requires Can(from, t) && Shape(t) && t.readers == [] && t.cap >= 16
    ensures exists u :: && Can(from, u) && Shape(u) && u.readers != []
                        && u.cap == t.cap && u.queue == t.queue && u.passes == t.passes
                        && u.at == |u.log| >= |t.log| && u.freePos % u.cap in {0, u.cap - 1}
  {
    hide Can, WriteEntries, Filter;
    var filler: seq<Byte> := seq(t.cap - 6, _ => 0);
    assert Enabled(t, Create(filler));
    CanGoOn(from, t, Create(filler));
    var t1 := Apply(t, Create(filler));
    assert t1.queue[|t.queue|] == Queued(filler, t.clock);
    CanGoOn(from, t1, Write(|t.queue|));
    AfterLong(filler, t.freePos, t.cap);
    var t2 := Apply(t1, Write(|t.queue|));
    assert t2.queue == t.queue;
    assert t2.freePos == t.freePos + BytesToWrite(filler, t.freePos, t.cap);
    var d := ChannelReader(t2.nextId, [], false, 0);
    hide BytesToWrite;
    CanGoOn(from, t2, Add(d));
    var u := Apply(t2, Add(d));
    assert u.at == |u.log|;
  }

  /** The state after the k-th queued message was written to a poised station: read
      back in full by the pass to come. */
  lemma PoisedWrites(s: Station, c: ChannelReader, t: Station, k: nat)
    requires Poised(s, c, t) && k < |s.queue|
    ensures var u := Apply(t, Write(k)); var last := |u.log| - 1;
            && u.passes == [s.readers + [c]] && u.readers != [] && u.at == |t.log| <= last < |u.births|
            && StopAt(u.log, u.freePos, u.cap, u.at) == |u.log|
            && u.log[last].rec == Msg(s.queue[k].message) && u.births[last] == s.queue[k].born
  {
    assert s.queue[k] in s.queue;
    ReadBack(t.log, t.freePos, t.cap, s.queue[k].message);
    hide Filter, WriteEntries, BytesToWrite, StopAt;
  }

  lemma PassReadsAll(u: Station)
    requires Shape(u) && u.readers != [] && u.passes != [] && StopAt(u.log, u.freePos, u.cap, u.at) == |u.log|
    ensures Apply(u, Pass).served == u.served + ServedBy(u.passes[0], u.log, u.at, |u.log|)
    ensures Apply(u, Pass).births == u.births
  {
    hide ServedBy, StopAt, IsTopicMessage;
  }

  lemma PassServes(u: Station, c: ChannelReader, k: nat)
    requires Shape(u) && u.readers != [] && u.passes != [] && c in u.passes[0]
    requires u.at <= k < |u.log| && AcceptsRecord(c, u.log[k]) && StopAt(u.log, u.freePos, u.cap, u.at) == |u.log|
    ensures Calls(Apply(u, Pass).served, c.id, k) && Apply(u, Pass).births == u.births
  {
    assert Takes(u.passes[0], c.id, u.log[k]);
    PassReadsAll(u);
    hide AcceptsRecord, ServedBy, StopAt, Takes, IsTopicMessage, Calls, Apply;
    ServedExactly(u.passes[0], u.log, u.at, |u.log|, c.id, k);
    CallsConcat(u.served, ServedBy(u.passes[0], u.log, u.at, |u.log|), c.id, k);
  }

  lemma {:induction false} AwaitedWritten(s: Station, c: ChannelReader, k: nat, from: Station, t: Station)
    requires Shape(s) && Awaited(s, c, k) && Can(from, t) && Poised(s, c, t) && s.queue[k].born < s.clock
    ensures exists u, sv :: && Can(from, u) && sv in u.served && sv.id == c.id
                            && sv.index < |u.births| && u.births[sv.index] < s.clock
  {
    PoisedWrites(s, c, t, k);
    var u := Apply(t, Write(k));
    var last := |u.log| - 1;
    CanGoOn(from, t, Write(k));
    assert u.passes[0][|s.readers|] == c;
    hide Can, Filter, WriteEntries, BytesToWrite, StopAt, IsTopicMessage;
    PassServes(u, c, last);
    CanGoOn(from, u, Pass);
    hide Apply;
    var sv :| sv in Apply(u, Pass).served && sv.id == c.id && sv.index == last;
    assert Can(from, Apply(u, Pass)) && Apply(u, Pass).births[sv.index] < s.clock;
  }

  /** A message still to be written is delivered by a pass scheduled in between. */
  lemma {:induction false} AwaitedServed(s: Station, c: ChannelReader, k: nat)
    requires Shape(s) && Numbered(s) && Enabled(s, Add(c)) && Awaited(s, c, k)
    ensures exists t, sv :: CalledIn(s, c, t, sv) && t.births[sv.index] < s.clock
  {
    assert s.queue[k] in s.queue && Postable(s.queue[k].message, s.cap);
    assert s.cap >= 16 && s.queue[k].born < s.clock;
    hide Can, Filter, Apply, Enabled, Awaited, Numbered, Poised;
    GetsPoised(s, c);
    var t :| Can(Apply(s, Add(c)), t) && Poised(s, c, t);
    AwaitedWritten(s, c, k, Apply(s, Add(c)), t);
    var u, sv :| && Can(Apply(s, Add(c)), u) && sv in u.served && sv.id == c.id
                 && sv.index < |u.births| && u.births[sv.index] < s.clock;
    assert CalledIn(s, c, u, sv);
  }

  // ----- Exactly when -----

  /** A channel reader can be called for a message logged before it was added iff the
      ring reader, kept active by other channel readers and with no pass scheduled
      before, still has a message in front of it that the new one accepts. */
  lemma EarlierLoggedExactly(s: Station, c: ChannelReader)
    requires Shape(s) && Numbered(s) && Enabled(s, Add(c))
    ensures (exists t, sv :: CalledIn(s, c, t, sv) && sv.index < |s.log|) <==> exists k :: Pending(s, c, k)
  {
    if t, sv :| CalledIn(s, c, t, sv) && sv.index < |s.log| { OnlyPendingOrAwaited(s, c, t, sv); }
    hide Can, CalledIn;
    if k :| Pending(s, c, k) { PendingServed(s, c, k); }
  }

  /** It can be called for a message created before it was added iff that is so or a
      message it accepts has been created and not yet logged. */
  lemma EarlierCreatedExactly(s: Station, c: ChannelReader)
    requires Shape(s) && Numbered(s) && Enabled(s, Add(c))
    ensures (exists t, sv :: CalledIn(s, c, t, sv) && t.births[sv.index] < s.clock)
       <==> exists k :: Pending(s, c, k) || Awaited(s, c, k)
  {
    if t, sv :| CalledIn(s, c, t, sv) && t.births[sv.index] < s.clock { OnlyPendingOrAwaited(s, c, t, sv); }
    hide Can, Pending, Awaited;
    if k :| Pending(s, c, k) {
      PendingServed(s, c, k);
      hide CalledIn;
    } else if k :| Awaited(s, c, k) {
      AwaitedServed(s, c, k);
    }
  }

  // ----- And that it happens -----

  lemma StepKeepsNumbered(st: Station, a: Action)
    requires Shape(st) && Enabled(st, a) && Numbered(st)
    ensures Numbered(Apply(st, a))
  {
    if a.Remove? { ErasedWere(st.readers, a.id); }
    if a.Pass? && st.readers != [] {
      var j := StopAt(st.log, st.freePos, st.cap, st.at);
      var more := ServedBy(st.passes[0], st.log, st.at, j);
      forall sv | sv in more
        ensures sv.id < st.nextId
      {
        ServedExactly(st.passes[0], st.log, st.at, j, sv.id, sv.index);
      }
      assert st.passes[0] in st.passes;
    }
    if a.Write? { assert st.queue[a.k] in st.queue; }
    hide ServedBy, StopAt, WriteEntries, BytesToWrite, Erase, IsTopicMessage, AcceptsRecord;
  }

  lemma {:induction false} NumberedOverRun(sts: seq<Station>, acts: seq<Action>, i: nat)
    requires Follows(sts, acts) && Init(sts[0]) && i < |sts|
    ensures Numbered(sts[i])
  {
    if i > 0 {
      NumberedOverRun(sts, acts, i - 1);
      StepKeepsNumbered(sts[i - 1], acts[i - 1]);
    }
  }

  /** A station in which nothing has happened yet. */
  function Opening(cap: nat): Station {
    Station(cap, [], 0, [], [], [], 0, [], 0, 0, [], {}, 0, 0)
  }

  /** For every post a channel reader is for, the reader can be about to be added while
      the post is queued, or to a list with another reader after it was logged. */
  lemma EarlierMessagesWait(cap: nat, post: Post, c: ChannelReader)
    requires post.Valid() && post.For(c) && Postable(post.Image(), cap)
    ensures c.id == 0 ==> exists s :: Can(Opening(cap), s) && Shape(s) && Enabled(s, Add(c)) && Awaited(s, c, 0)
    ensures c.id == 1 ==> exists s :: Can(Opening(cap), s) && Shape(s) && Enabled(s, Add(c)) && Pending(s, c, 0)
  {
    AcceptsPost(post, c);
    CanStay(Opening(cap));
    var m, s0 := post.Image(), Opening(cap);
    hide Can, Filter, Post.Image, Post.For, IsTopicMessage, Accepts;
    CanGoOn(s0, s0, Create(m));
    var s1 := Apply(s0, Create(m));
    assert s1.queue == [Queued(m, 0)];
    assert c.id == 0 ==> Awaited(s1, c, 0);
    var d := ChannelReader(0, [], false, 0);
    CanGoOn(s0, s1, Add(d));
    var s2 := Apply(s1, Add(d));
    CanGoOn(s0, s2, Write(0));
    var s3 := Apply(s2, Write(0));
    LoggedFirst(s2, m);
    hide Apply, StopAt;
    assert c.id == 1 ==> Pending(s3, c, 0);
  }

  lemma CanBeNumbered(cap: nat, s: Station)
    requires Can(Opening(cap), s)
    ensures Shape(s) && Numbered(s)
  {
    var sts, acts :| Follows(sts, acts) && sts[0] == Opening(cap) && sts[|acts|] == s;
    NumberedOverRun(sts, acts, |acts|);
  }

  /** In every buffer, for every post that fits and every channel reader it is for: a
      run in which the first channel reader is called for the post although it was
      created before, and one in which the second is although it was logged before. */
  lemma EarlierMessagesArrive(cap: nat, post: Post, c: ChannelReader)
    requires post.Valid() && post.For(c) && Postable(post.Image(), cap)
    ensures c.id == 0 ==> exists s, t, sv :: Can(Opening(cap), s) && Shape(s) && Enabled(s, Add(c))
                                             && CalledIn(s, c, t, sv) && t.births[sv.index] < s.clock
    ensures c.id == 1 ==> exists s, t, sv :: Can(Opening(cap), s) && Shape(s) && Enabled(s, Add(c))
                                             && CalledIn(s, c, t, sv) && sv.index < |s.log|
  {
    EarlierMessagesWait(cap, post, c);
    hide Can, Awaited, Pending, Postable, Post.Valid, Post.For;
    if c.id == 0 {
      var s :| Can(Opening(cap), s) && Shape(s) && Enabled(s, Add(c)) && Awaited(s, c, 0);
      CanBeNumbered(cap, s);
      AwaitedServed(s, c, 0);
    }
    if c.id == 1 {
      var s :| Can(Opening(cap), s) && Shape(s) && Enabled(s, Add(c)) && Pending(s, c, 0);
      CanBeNumbered(cap, s);
      PendingServed(s, c, 0);
    }
  }

  lemma LoggedFirst(s: Station, m: seq<Byte>)
    requires Shape(s) && s.queue == [Queued(m, 0)] && s.log == [] && s.freePos == 0 && s.at == 0 && Postable(m, s.cap)
    ensures var t := Apply(s, Write(0));
            t.log == [Entry(0, Msg(m))] && t.at == 0 && StopAt(t.log, t.freePos, t.cap, 0) == 1
            && t.readers == s.readers && t.passes == s.passes && t.nextId == s.nextId
  {
    assert s.queue[0] in s.queue;
    ReadBack([], 0, s.cap, m);
    assert [] + WriteEntries(m, 0, s.cap) == [Entry(0, Msg(m))];
  }

  lemma AcceptsPost(post: Post, c: ChannelReader)
    requires post.Valid() && post.For(c)
    ensures Accepts(c, post.Image())
  {
    RoundTrip(post.generation, post.postToDescendants, post.name, post.payload, [],
              c.generation, c.name, c.handleDescendants);
    assert post.Image() + [] == post.Image();
  }
}
