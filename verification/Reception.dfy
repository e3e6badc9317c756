/** The other half of publish/subscribe over time: which messages a channel reader that
    stays in the list misses, in what order and how often it is called, and when it is
    still called after it was removed. */
module Reception {
  import opened Bytes
  import opened Records
  import opened QuiescentRead
  import opened Ring
  import opened Topics
  import opened TopicReading
  import opened Subscriptions

  // ----- In order, at most once -----

  /** Call `a` comes before call `b`: an earlier message, or the same one for a channel
      reader that was added earlier. */
  predicate Before(a: Served, b: Served) {
    a.index < b.index || (a.index == b.index && a.id < b.id)
  }

  predicate Ascending(served: seq<Served>) {
    forall i, j :: 0 <= i < j < |served| ==> Before(served[i], served[j])
  }

  /** Channel readers stand in the list in the order they were added. */
  predicate InOrderOfAddition(readers: seq<ChannelReader>) {
    forall i, j :: 0 <= i < j < |readers| ==> readers[i].id < readers[j].id
  }

  /** Calls so far are in order and lie behind the ring reader. */
  predicate Orderly(st: Station) {
    && Shape(st) && Ascending(st.served)
    && (forall sv :: sv in st.served ==> sv.index < |st.log| && (st.readers != [] ==> sv.index < st.at))
    && InOrderOfAddition(st.readers) && (forall d :: d in st.readers ==> d.id < st.nextId)
    && (forall p :: p in st.passes ==> InOrderOfAddition(p))
  }

  predicate IdsAscend(calls: seq<Call>) {
    forall i, j :: 0 <= i < j < |calls| ==> calls[i].id < calls[j].id
  }

  lemma {:induction false} CallsAscend(readers: seq<ChannelReader>, data: seq<Byte>, bound: nat)
    requires IsTopicMessage(data) && InOrderOfAddition(readers) && forall d :: d in readers ==> d.id < bound
    ensures IdsAscend(Deliveries(readers, data)) && forall call :: call in Deliveries(readers, data) ==> call.id < bound
  {
    if readers != [] {
      var n := |readers| - 1;
      var last := readers[n];
      assert last in readers;
      forall d | d in readers[..n] ensures d.id < last.id {
        var k :| 0 <= k < n && readers[k] == d;
      }
      CallsAscend(readers[..n], data, last.id);
      hide Filter;
    }
  }

  lemma TaggedAscends(calls: seq<Call>, index: nat)
    requires IdsAscend(calls)
    ensures Ascending(Tagged(calls, index)) && forall sv :: sv in Tagged(calls, index) ==> sv.index == index
  {
    var tagged := Tagged(calls, index);
    forall i, j | 0 <= i < j < |tagged| ensures Before(tagged[i], tagged[j]) {
      assert calls[i].id < calls[j].id;
    }
  }

  lemma RecordedAscends(readers: seq<ChannelReader>, e: Entry, index: nat)
    requires InOrderOfAddition(readers)
    ensures Ascending(Tagged(Recorded(readers, e), index))
    ensures forall sv :: sv in Tagged(Recorded(readers, e), index) ==> sv.index == index
  {
    if e.rec.Msg? && IsTopicMessage(e.rec.payload) && readers != [] {
      var bound := readers[|readers| - 1].id + 1;
      forall d | d in readers ensures d.id < bound {
        var k :| 0 <= k < |readers| && readers[k] == d;
      }
      CallsAscend(readers, e.rec.payload, bound);
    }
    assert IdsAscend(Recorded(readers, e));
    hide Deliveries, IsTopicMessage, Tagged, Ascending, IdsAscend;
    TaggedAscends(Recorded(readers, e), index);
  }

  lemma AscendingConcat(a: seq<Served>, b: seq<Served>, n: nat)
    requires Ascending(a) && Ascending(b)
    requires (forall sv :: sv in a ==> sv.index < n) && (forall sv :: sv in b ==> sv.index >= n)
    ensures Ascending(a + b)
  {
  }

  lemma ServedAscendsNext(readers: seq<ChannelReader>, log: Log, a: nat, b: nat)
    requires a < b <= |log| && InOrderOfAddition(readers) && Ascending(ServedBy(readers, log, a, b - 1))
    ensures Ascending(ServedBy(readers, log, a, b))
  {
    hide ServedBy, Recorded, Tagged, Ascending, InOrderOfAddition;
    ServedWithin(readers, log, a, b - 1);
    ServedNext(readers, log, a, b);
    RecordedAscends(readers, log[b - 1], b - 1);
    AscendingConcat(ServedBy(readers, log, a, b - 1), Tagged(Recorded(readers, log[b - 1]), b - 1), b - 1);
  }

  lemma NoneAscends(readers: seq<ChannelReader>, log: Log, a: nat, b: nat)
    requires b <= a && b <= |log|
    ensures Ascending(ServedBy(readers, log, a, b))
  {
  }

  lemma {:induction false} ServedAscends(readers: seq<ChannelReader>, log: Log, a: nat, b: nat)
    requires b <= |log| && InOrderOfAddition(readers)
    ensures Ascending(ServedBy(readers, log, a, b))
  {
    hide ServedBy, Ascending, InOrderOfAddition;
    if b <= a {
      NoneAscends(readers, log, a, b);
    } else {
      ServedAscends(readers, log, a, b - 1);
      ServedAscendsNext(readers, log, a, b);
    }
  }

  lemma {:induction false} ErasedOrder(readers: seq<ChannelReader>, id: nat)
    requires InOrderOfAddition(readers)
    ensures InOrderOfAddition(Erase(readers, id))
  {
    if readers != [] && readers[0].id != id {
      var rest := Erase(readers[1..], id);
      ErasedOrder(readers[1..], id);
      ErasedWere(readers[1..], id);
      forall j | 0 <= j < |rest| ensures readers[0].id < rest[j].id {
        assert rest[j] in readers[1..];
      }
    }
  }

  lemma PassAscends(st: Station)
    requires Orderly(st) && Enabled(st, Pass) && st.readers != []
    ensures var j := StopAt(st.log, st.freePos, st.cap, st.at);
            var all := st.served + ServedBy(st.passes[0], st.log, st.at, j);
            Ascending(all) && forall sv :: sv in all ==> sv.index < j
  {
    var j := StopAt(st.log, st.freePos, st.cap, st.at);
    assert st.passes[0] in st.passes;
    hide ServedBy, StopAt, Ascending, InOrderOfAddition, IsTopicMessage;
    var more := ServedBy(st.passes[0], st.log, st.at, j);
    ServedAscends(st.passes[0], st.log, st.at, j);
    ServedWithin(st.passes[0], st.log, st.at, j);
    assert forall sv :: sv in more ==> st.at <= sv.index < j;
    AscendingConcat(st.served, more, st.at);
  }

  lemma PassKeepsOrderly(st: Station)
    requires Orderly(st) && Enabled(st, Pass)
    ensures Orderly(Apply(st, Pass))
  {
    if st.readers != [] { PassAscends(st); }
    hide ServedBy, StopAt, Ascending, InOrderOfAddition, IsTopicMessage;
  }

  lemma StepKeepsOrderly(st: Station, a: Action)
    requires Orderly(st) && Enabled(st, a)
    ensures Orderly(Apply(st, a))
  {
    match a
    case Pass => PassKeepsOrderly(st);
    case Remove(id) =>
      ErasedOrder(st.readers, id);
      ErasedWere(st.readers, id);
      hide Erase, Ascending, InOrderOfAddition, IsTopicMessage;
    case _ =>
      hide Ascending, WriteEntries, BytesToWrite, IsTopicMessage;
  }

  /** Over every sequence of steps: calls are made in log order, for one message in the
      order in which the channel readers were added, and at most once per channel
      reader and message. */
  lemma {:induction false} InOrderOnce(sts: seq<Station>, acts: seq<Action>, i: nat)
    requires Follows(sts, acts) && Init(sts[0]) && i < |sts|
    ensures Orderly(sts[i])
    ensures forall j, k :: 0 <= j < k < |sts[i].served| ==> Before(sts[i].served[j], sts[i].served[k])
  {
    if i > 0 {
      InOrderOnce(sts, acts, i - 1);
      StepKeepsOrderly(sts[i - 1], acts[i - 1]);
    }
  }

  // ----- What is missed -----

  /** Where the ring reader was when the last pass that lacked `c` had read, or at the
      beginning if there was none. */
  function LastWithout(sts: seq<Station>, acts: seq<Action>, c: ChannelReader, i: nat): nat
    requires Follows(sts, acts) && i < |sts|
  {
    if i == 0 then sts[0].at
    else if acts[i - 1].Pass? && c !in sts[i - 1].passes[0] then sts[i].at
    else LastWithout(sts, acts, c, i - 1)
  }

  /** `c` was added at the beginning of the path and is in the list since; it is called
      for what was read from `b` on, and not for anything before. Passes that lack it
      come before those that hold it. */
  predicate CalledSince(t: Station, c: ChannelReader, begin: nat, b: nat) {
    && Shape(t) && Known(t, c) && c in t.readers
    && begin <= b <= t.at
    && (forall sv :: sv in t.served && sv.id == c.id ==> sv.index < t.at)
    && (forall i, j :: 0 <= i < j < |t.passes| && c in t.passes[i] ==> c in t.passes[j])
    && (t.passes != [] && c !in t.passes[0] ==> b == t.at)
    && (forall k: nat :: k < t.at ==> (Calls(t.served, c.id, k) <==> b <= k && AcceptsRecord(c, t.log[k])))
  }

  lemma StillAdded(t: Station, a: Action, c: ChannelReader)
    requires Shape(t) && Enabled(t, a) && Known(t, c) && c in Apply(t, a).readers && a != Add(c)
    ensures c in t.readers
  {
    if a.Remove? { ErasedWere(t.readers, a.id); }
    hide Erase, StopAt, ServedBy, WriteEntries, BytesToWrite;
  }

  lemma TakesOnly(readers: seq<ChannelReader>, c: ChannelReader, e: Entry)
    requires forall d :: d in readers && d.id == c.id ==> d == c
    ensures Takes(readers, c.id, e) <==> c in readers && AcceptsRecord(c, e)
  {
    hide AcceptsRecord;
  }

  lemma PassCallsFor(t: Station, c: ChannelReader, copy: seq<ChannelReader>, j: nat, k: nat)
    requires Shape(t) && Known(t, c) && copy in t.passes && t.at <= j <= |t.log| && k < j
    requires forall sv :: sv in t.served && sv.id == c.id ==> sv.index < t.at
    ensures Calls(t.served + ServedBy(copy, t.log, t.at, j), c.id, k)
       <==> if k < t.at then Calls(t.served, c.id, k) else c in copy && AcceptsRecord(c, t.log[k])
  {
    hide ServedBy, AcceptsRecord, Takes, IsTopicMessage;
    CallsConcat(t.served, ServedBy(copy, t.log, t.at, j), c.id, k);
    ServedExactly(copy, t.log, t.at, j, c.id, k);
    TakesOnly(copy, c, t.log[k]);
    if k >= t.at { NotYetCalled(t, c, k); }
    hide Calls;
  }

  lemma PassState(t: Station)
    requires Shape(t) && t.readers != [] && t.passes != []
    ensures var t', j := Apply(t, Pass), StopAt(t.log, t.freePos, t.cap, t.at);
            && t'.at == j && t.at <= j && t'.log == t.log && t'.readers == t.readers && t'.passes == t.passes[1..]
            && t'.served == t.served + ServedBy(t.passes[0], t.log, t.at, j)
  {
    hide ServedBy, StopAt, IsTopicMessage;
  }

  lemma PassCalls(t: Station, c: ChannelReader, begin: nat, b: nat)
    requires CalledSince(t, c, begin, b) && Enabled(t, Pass)
    ensures var t' := Apply(t, Pass);
            CalledSince(t', c, begin, if c in t.passes[0] then b else t'.at)
  {
    var t', j := Apply(t, Pass), StopAt(t.log, t.freePos, t.cap, t.at);
    var copy, b' := t.passes[0], if c in t.passes[0] then b else t'.at;
    var more := ServedBy(copy, t.log, t.at, j);
    KnownStep(t, Pass, c);
    ServedWithin(copy, t.log, t.at, j);
    PassState(t);
    assert copy in t.passes;
    hide ServedBy, StopAt, IsTopicMessage, AcceptsRecord, Calls, Known, Apply;
    forall k: nat | k < j
      ensures Calls(t'.served, c.id, k) <==> b' <= k && AcceptsRecord(c, t.log[k])
    {
      PassCallsFor(t, c, copy, j, k);
    }
  }

  lemma NotYetCalled(t: Station, c: ChannelReader, k: nat)
    requires forall sv :: sv in t.served && sv.id == c.id ==> sv.index < t.at
    requires k >= t.at
    ensures !Calls(t.served, c.id, k)
  {
  }

  lemma StepKeepsCalled(t: Station, a: Action, c: ChannelReader, begin: nat, b: nat)
    requires CalledSince(t, c, begin, b) && Enabled(t, a) && c in Apply(t, a).readers
    ensures CalledSince(Apply(t, a), c, begin, if a.Pass? && c !in t.passes[0] then Apply(t, a).at else b)
  {
    if a.Pass? {
      PassCalls(t, c, begin, b);
    } else {
      KnownStep(t, a, c);
      hide ServedBy, StopAt, IsTopicMessage, AcceptsRecord, Calls, Known, Erase, WriteEntries, BytesToWrite;
      assert Apply(t, a).at == t.at && Apply(t, a).served == t.served && t.log <= Apply(t, a).log;
    }
  }

  lemma AddedCalled(s: Station, c: ChannelReader)
    requires Shape(s) && Numbered(s) && Enabled(s, Add(c))
    ensures var t := Apply(s, Add(c)); CalledSince(t, c, t.at, t.at)
  {
    hide IsTopicMessage, AcceptsRecord;
  }

  /** For as long as a channel reader stays in the list: for every record the ring reader
      has got past, it was called iff it accepts the message and the record was not read
      before the last pass that lacked it. */
  lemma {:induction false} CalledExactly(s: Station, c: ChannelReader, sts: seq<Station>, acts: seq<Action>, i: nat)
    requires Shape(s) && Numbered(s) && Enabled(s, Add(c))
    requires Follows(sts, acts) && sts[0] == Apply(s, Add(c)) && i < |sts| && c in sts[i].readers
    ensures CalledSince(sts[i], c, sts[0].at, LastWithout(sts, acts, c, i))
    decreases i
  {
    if i == 0 {
      AddedCalled(s, c);
    } else {
      var t, a := sts[i - 1], acts[i - 1];
      KnownAlong(s, c, sts, acts, i - 1);
      StillAdded(t, a, c);
      CalledExactly(s, c, sts, acts, i - 1);
      StepKeepsCalled(t, a, c, sts[0].at, LastWithout(sts, acts, c, i - 1));
    }
  }

  lemma {:induction false} KnownAlong(s: Station, c: ChannelReader, sts: seq<Station>, acts: seq<Action>, i: nat)
    requires Shape(s) && Numbered(s) && Enabled(s, Add(c))
    requires Follows(sts, acts) && sts[0] == Apply(s, Add(c)) && i < |sts|
    ensures Known(sts[i], c)
  {
    if i == 0 {
      AddedSince(s, c);
    } else {
      KnownAlong(s, c, sts, acts, i - 1);
      KnownStep(sts[i - 1], acts[i - 1], c);
    }
  }

  /** The record at `k`, created and logged after `c` was added, is behind the ring
      reader, `c` is in the list and accepts it, and was not called for it. */
  predicate Missed(s: Station, c: ChannelReader, t: Station, k: nat) {
    && Shape(t) && c in t.readers && |s.log| <= k < t.at
    && AcceptsRecord(c, t.log[k]) && t.births[k] >= s.clock && !Calls(t.served, c.id, k)
  }

  /** With no pass scheduled when it was added, a channel reader in the list is called
      for every message it accepts among those logged since and read past. */
  lemma NothingMissed(s: Station, c: ChannelReader, t: Station, k: nat)
    requires Shape(s) && Numbered(s) && Enabled(s, Add(c)) && s.passes == []
    requires Can(Apply(s, Add(c)), t) && c in t.readers && |s.log| <= k < t.at <= |t.log| && AcceptsRecord(c, t.log[k])
    ensures Calls(t.served, c.id, k)
  {
    var sts, acts :| Follows(sts, acts) && sts[0] == Apply(s, Add(c)) && sts[|acts|] == t;
    CalledExactly(s, c, sts, acts, |acts|);
    NoneWithout(s, c, sts, acts, |acts|);
    hide Calls, AcceptsRecord, Follows, Known;
  }

  /** Passes scheduled while `c` is in the list hold it. */
  lemma {:induction false} NoneWithout(s: Station, c: ChannelReader, sts: seq<Station>, acts: seq<Action>, i: nat)
    requires Shape(s) && Numbered(s) && Enabled(s, Add(c)) && s.passes == []
    requires Follows(sts, acts) && sts[0] == Apply(s, Add(c)) && i < |sts| && c in sts[i].readers
    ensures LastWithout(sts, acts, c, i) == sts[0].at && forall p :: p in sts[i].passes ==> c in p
    decreases i
  {
    if i > 0 {
      var t, a := sts[i - 1], acts[i - 1];
      KnownAlong(s, c, sts, acts, i - 1);
      StillAdded(t, a, c);
      NoneWithout(s, c, sts, acts, i - 1);
      hide ServedBy, StopAt, IsTopicMessage, WriteEntries, BytesToWrite, Erase;
      if a.Pass? { assert t.passes[0] in t.passes; }
    }
  }

  /** If the message is logged next, a pass would read all there is, up to and with it. */
  predicate ReadsOn(s: Station, m: seq<Byte>)
    requires Shape(s) && Postable(m, s.cap)
  {
    var log, f := s.log + WriteEntries(m, s.freePos, s.cap), s.freePos + BytesToWrite(m, s.freePos, s.cap);
    StopAt(log, f, s.cap, if s.readers == [] then |s.log| else s.at) == |log|
  }

  /** The station after one more message was created and logged. */
  function Logged(t: Station, m: seq<Byte>): (u: Station)
    requires Shape(t) && Postable(m, t.cap)
    ensures Shape(u)
  {
    var t1 := Apply(t, Create(m));
    assert t1.queue[|t.queue|] == Queued(m, t.clock);
    Apply(t1, Write(|t.queue|))
  }

  lemma LoggedNext(from: Station, t: Station, m: seq<Byte>)
    requires Can(from, t) && Shape(t) && Postable(m, t.cap)
    ensures var u, es := Logged(t, m), WriteEntries(m, t.freePos, t.cap);
            && Can(from, u) && u.log == t.log + es && u.freePos == t.freePos + BytesToWrite(m, t.freePos, t.cap)
            && u.cap == t.cap && u.readers == t.readers && u.passes == t.passes && u.at == t.at && u.served == t.served
            && |es| > 0 && u.log[|u.log| - 1].rec == Msg(m) && u.births[|u.log| - 1] == t.clock
  {
    LastIsMessage(m, t.freePos, t.cap);
    hide Can, WriteEntries, BytesToWrite, IsTopicMessage;
    CanGoOn(from, t, Create(m));
    CanGoOn(from, Apply(t, Create(m)), Write(|t.queue|));
  }

  /** A pass scheduled before `c` was added is about to read to the stream end, where a
      message for `c` stands. */
  predicate OldPassDue(s: Station, c: ChannelReader, u: Station) {
    && Shape(u) && u.readers == s.readers + [c] && u.passes == s.passes != [] && u.served == s.served
    && u.at <= |u.log| - 1 && |s.log| < |u.log| && StopAt(u.log, u.freePos, u.cap, u.at) == |u.log|
    && AcceptsRecord(c, u.log[|u.log| - 1]) && u.births[|u.log| - 1] >= s.clock
  }

  lemma PassMisses(s: Station, c: ChannelReader, u: Station)
    requires Shape(s) && Numbered(s) && c.id == s.nextId && OldPassDue(s, c, u)
    ensures Missed(s, c, Apply(u, Pass), |u.log| - 1)
  {
    PassReadsAll(u);
    PassState(u);
    assert c in u.readers by { assert u.readers[|s.readers|] == c; }
    assert s.passes[0] in s.passes;
    hide ServedBy, Calls, AcceptsRecord, StopAt, IsTopicMessage, Apply;
    NotServed(s.passes[0], c, u.log, u.at, |u.log|, s.served, |u.log| - 1);
  }

  lemma AddedState(s: Station, c: ChannelReader)
    requires Shape(s) && Enabled(s, Add(c))
    ensures var t := Apply(s, Add(c));
            && t.at == (if s.readers == [] then |s.log| else s.at)
            && t.log == s.log && t.freePos == s.freePos && t.cap == s.cap && t.clock == s.clock
            && t.passes == s.passes && t.served == s.served && t.readers == s.readers + [c]
  {
    hide IsTopicMessage;
  }

  lemma OldPassComesDue(s: Station, c: ChannelReader, m: seq<Byte>)
    requires Shape(s) && Enabled(s, Add(c)) && s.passes != [] && Postable(m, s.cap) && Accepts(c, m) && ReadsOn(s, m)
    ensures var t0 := Apply(s, Add(c)); Postable(m, t0.cap) && Can(t0, Logged(t0, m)) && OldPassDue(s, c, Logged(t0, m))
  {
    var t0 := Apply(s, Add(c));
    AddedState(s, c);
    CanStay(t0);
    hide Can, Accepts, WriteEntries, BytesToWrite, StopAt, Logged, Apply, Postable;
    LoggedNext(t0, t0, m);
  }

  /** The first scheduled pass reads the message just logged. */
  lemma OldPassReads(s: Station, c: ChannelReader, m: seq<Byte>)
    requires Shape(s) && Numbered(s) && Enabled(s, Add(c)) && s.passes != [] && Postable(m, s.cap) && Accepts(c, m)
    requires ReadsOn(s, m)
    ensures exists t, k :: Can(Apply(s, Add(c)), t) && Missed(s, c, t, k)
  {
    OldPassComesDue(s, c, m);
    var t0 := Apply(s, Add(c));
    var u := Logged(t0, m);
    assert Shape(u) && u.passes != [];
    hide Can, Accepts, StopAt, Logged, Missed, Numbered, Apply, ReadsOn, OldPassDue, Postable, Shape;
    CanGoOn(t0, u, Pass);
    PassMisses(s, c, u);
  }

  lemma LastIsMessage(m: seq<Byte>, freePos: nat, cap: nat)
    requires cap > 0 && HEADER_SIZE + |m| <= cap
    ensures var es := WriteEntries(m, freePos, cap); es != [] && es[|es| - 1].rec == Msg(m)
  {
  }

  lemma NotServed(copy: seq<ChannelReader>, c: ChannelReader, log: Log, a: nat, b: nat, served: seq<Served>, k: nat)
    requires b <= |log| && (forall d :: d in copy ==> d.id < c.id) && (forall sv :: sv in served ==> sv.id < c.id)
    ensures !Calls(served + ServedBy(copy, log, a, b), c.id, k)
  {
    ServedExactly(copy, log, a, b, c.id, k);
    CallsConcat(served, ServedBy(copy, log, a, b), c.id, k);
    hide ServedBy, AcceptsRecord;
  }

  /** A channel reader can miss a message created and logged right after its addition,
      if a pass would read up to it, iff a pass was scheduled before. */
  lemma MissableExactly(s: Station, c: ChannelReader, m: seq<Byte>)
    requires Shape(s) && Numbered(s) && Enabled(s, Add(c)) && Postable(m, s.cap) && Accepts(c, m) && ReadsOn(s, m)
    ensures (exists t, k :: Can(Apply(s, Add(c)), t) && Missed(s, c, t, k)) <==> s.passes != []
  {
    if s.passes != [] {
      OldPassReads(s, c, m);
    } else if t, k :| Can(Apply(s, Add(c)), t) && Missed(s, c, t, k) {
      NothingMissed(s, c, t, k);
    }
  }

  /** One channel reader, and a pass scheduled with it. */
  function OldPass(cap: nat): Station {
    var d := ChannelReader(0, [], false, 0);
    Opening(cap).(readers := [d], passes := [[d]], nextId := 1)
  }

  lemma OldPassWaits(cap: nat, m: seq<Byte>)
    requires cap > 0 && Postable(m, cap)
    ensures Can(Opening(cap), OldPass(cap)) && Shape(OldPass(cap)) && ReadsOn(OldPass(cap), m)
  {
    var s0, d := Opening(cap), ChannelReader(0, [], false, 0);
    CanStay(s0);
    ReadBack([], 0, cap, m);
    hide Can, IsTopicMessage, StopAt, WriteEntries, BytesToWrite;
    CanGoOn(s0, s0, Add(d));
    CanGoOn(s0, Apply(s0, Add(d)), Notify);
    assert Apply(Apply(s0, Add(d)), Notify) == OldPass(cap);
  }

  /** In every buffer, for every message that fits and every channel reader that accepts
      it: a run in which the reader, second in the list and still there, is not called
      for the message although that was created and logged after its addition and the
      ring reader has got past it. */
  lemma MessageMissed(cap: nat, c: ChannelReader, m: seq<Byte>)
    requires cap > 0 && c.id == 1 && Postable(m, cap) && Accepts(c, m)
    ensures exists s, t, k :: && Can(Opening(cap), s) && Shape(s) && Enabled(s, Add(c))
                              && Can(Apply(s, Add(c)), t) && Missed(s, c, t, k)
  {
    OldPassWaits(cap, m);
    CanBeNumbered(cap, OldPass(cap));
    hide Can, Accepts, Postable, ReadsOn, Missed, Numbered;
    OldPassReads(OldPass(cap), c, m);
  }

  // ----- After removal -----

  /** `c` is neither in the list nor in a scheduled pass, and its calls are those at the
      beginning. */
  predicate Gone(t: Station, c: ChannelReader, calls: seq<Served>) {
    && Shape(t) && c.id < t.nextId
    && (forall d :: d in t.readers ==> d.id != c.id)
    && (forall p, d :: p in t.passes && d in p ==> d.id != c.id)
    && (forall sv :: sv in t.served && sv.id == c.id ==> sv in calls)
  }

  lemma StepKeepsGone(t: Station, a: Action, c: ChannelReader, calls: seq<Served>)
    requires Gone(t, c, calls) && Enabled(t, a)
    ensures Gone(Apply(t, a), c, calls)
  {
    if a.Remove? { ErasedWere(t.readers, a.id); }
    if a.Pass? && t.readers != [] {
      var j := StopAt(t.log, t.freePos, t.cap, t.at);
      assert t.passes[0] in t.passes;
      forall sv | sv in ServedBy(t.passes[0], t.log, t.at, j) ensures sv.id != c.id {
        ServedExactly(t.passes[0], t.log, t.at, j, sv.id, sv.index);
      }
    }
    hide ServedBy, StopAt, IsTopicMessage, WriteEntries, BytesToWrite, Erase, AcceptsRecord;
  }

  lemma {:induction false} GoneAlong(sts: seq<Station>, acts: seq<Action>, i: nat, c: ChannelReader, calls: seq<Served>)
    requires Follows(sts, acts) && i < |sts| && Gone(sts[0], c, calls)
    ensures Gone(sts[i], c, calls)
  {
    if i > 0 {
      GoneAlong(sts, acts, i - 1, c, calls);
      StepKeepsGone(sts[i - 1], acts[i - 1], c, calls);
    }
  }

  /** `c` has been called for something it was not called for in `s`. */
  predicate CalledAgain(s: Station, c: ChannelReader, t: Station, sv: Served) {
    sv in t.served && sv !in s.served && sv.id == c.id
  }

  /** Everybody leaves, passes before the one with `c` come to nothing, somebody arrives,
      a message is logged, and the pass reads it. */
  lemma {:induction false} StillCalled(s: Station, c: ChannelReader, m: seq<Byte>, n: nat)
    requires Shape(s) && n < |s.passes| && c in s.passes[n] && Postable(m, s.cap) && Accepts(c, m)
    requires forall sv :: sv in s.served ==> sv.index < |s.log|
    ensures exists t, sv :: Can(s, t) && CalledAgain(s, c, t, sv)
  {
    CanStay(s);
    assert s.cap >= 16;
    hide Can, Accepts, IsTopicMessage;
    CloseAll(s, s);
    var t1 := s.(readers := []);
    DropPasses(s, t1, n);
    var t2 := t1.(passes := t1.passes[n..]);
    assert t2.passes[0] == s.passes[n];
    Arrives(s, t2);
    var u :| && Can(s, u) && Shape(u) && u.readers != []
             && u.cap == t2.cap && u.queue == t2.queue && u.passes == t2.passes
             && u.at == |u.log| >= |t2.log| && u.freePos % u.cap in {0, u.cap - 1};
    ReadAfterArrival(s, u, c, m);
  }

  lemma {:induction false} ReadAfterArrival(s: Station, u: Station, c: ChannelReader, m: seq<Byte>)
    requires Can(s, u) && Shape(u) && Postable(m, u.cap) && Accepts(c, m)
    requires u.readers != [] && u.passes != [] && c in u.passes[0]
    requires u.at == |u.log| >= |s.log| && u.freePos % u.cap in {0, u.cap - 1}
    requires forall sv :: sv in s.served ==> sv.index < |s.log|
    ensures exists t, sv :: Can(s, t) && CalledAgain(s, c, t, sv)
  {
    hide Can, Accepts, IsTopicMessage, WriteEntries, BytesToWrite, StopAt, Logged;
    LoggedNext(s, u, m);
    ReadBack(u.log, u.freePos, u.cap, m);
    var v := Logged(u, m);
    var last := |v.log| - 1;
    assert AcceptsRecord(c, v.log[last]);
    PassServes(v, c, last);
    CanGoOn(s, v, Pass);
    var t := Apply(v, Pass);
    hide Apply, AcceptsRecord;
    var sv :| sv in t.served && sv.id == c.id && sv.index == last;
    assert CalledAgain(s, c, t, sv);
  }

  /** A channel reader that was removed can still be called iff a pass scheduled while it
      was in the list has not read yet. */
  lemma RemovedCalledExactly(s: Station, c: ChannelReader, m: seq<Byte>)
    requires Shape(s) && Known(s, c) && c !in s.readers && Postable(m, s.cap) && Accepts(c, m)
    requires forall sv :: sv in s.served ==> sv.index < |s.log|
    ensures (exists t, sv :: Can(s, t) && CalledAgain(s, c, t, sv)) <==> exists p :: p in s.passes && c in p
  {
    if p :| p in s.passes && c in p {
      var n :| 0 <= n < |s.passes| && s.passes[n] == p;
      StillCalled(s, c, m, n);
    } else if t, sv :| Can(s, t) && CalledAgain(s, c, t, sv) {
      var sts, acts :| Follows(sts, acts) && sts[0] == s && sts[|acts|] == t;
      assert Gone(s, c, s.served);
      GoneAlong(sts, acts, |acts|, c, s.served);
      assert false;
    }
  }
}
