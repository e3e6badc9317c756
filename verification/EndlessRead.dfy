/** A read need not end: a reader that writers keep feeding stays in one read for ever,
    although each record costs it a bounded number of steps. */
module EndlessRead {
  import opened Arithmetic
  import opened Bytes
  import opened Records
  import opened Protocol
  import opened ProtocolInvariants
  import opened ProtocolRuns
  import opened ProtocolBackpressure
  import opened Ring
  import opened Reachability
  import opened ReaderProgress

  // ----- Reading up to the stream end, without looking once more -----

  /** The reader is about to compare its position with the stream end, and is there. */
  predicate AtEnd(s: State, q: nat) {
    && MidRead(s, q) && s.readers[q].pc.Head?
    && s.readers[q].pos == s.freePos && s.readers[q].at == |s.log| && LagInv(s.readers[q], s.cap)
  }

  lemma SuccessFromHead(rd: Reader, buf: seq<Byte>, freePos: nat, cap: nat)
    requires cap >= HEADER_SIZE && |buf| == cap && PcShape(rd.pc, cap) && CanStep(rd)
    ensures ReaderStep(rd, buf, freePos, cap).pc == Returned(Success) ==> rd.pc.Head? && rd.pos == freePos
  {
    hide DecodeHeader;
  }

  lemma TurnGoesOn(s: State, q: nat)
    requires MidRead(s, q) && AllReadable(s.log) && !(s.readers[q].pc.Head? && s.readers[q].pos == s.freePos)
    requires LagInv(s.readers[q], s.cap)
    ensures Enabled(s, NextAction(s.readers[q], q))
    ensures !Quiescent(AfterTurn(s, q)) && LagInv(AfterTurn(s, q), s.cap)
  {
    TurnEnabled(s, q);
    TurnKeeps(s, q);
    LagStep(s, NextAction(s.readers[q], q), q);
    if Quiescent(AfterTurn(s, q)) {
      TurnEnds(s, q);
      EndsByStep(s, q);
      SuccessFromHead(s.readers[q], s.buf, s.freePos, s.cap);
    }
    hide Apply, RingInv, ReaderInv, Protected, LagInv, Unreadable, ReaderStep;
  }

  lemma AtEndAlready(s: State, q: nat)
    requires MidRead(s, q) && s.readers[q].pc.Head? && s.readers[q].pos == s.freePos && LagInv(s.readers[q], s.cap)
    ensures AtEnd(s, q)
  {
    BeforeEnd(s.log, s.freePos, s.cap, s.readers[q].at);
    hide Protected, Tally, Messages, LagInv;
  }

  /** A turn short of the stream end. */
  lemma TurnTaken(from: State, s: State, kind: Kind, q: nat)
    requires Leads(from, s, kind) && Lets(kind, q) && MidRead(s, q) && AllReadable(s.log) && LagInv(s.readers[q], s.cap)
    requires !(s.readers[q].pc.Head? && s.readers[q].pos == s.freePos)
    ensures Enabled(s, NextAction(s.readers[q], q))
    ensures var t := WithReader(s, q, AfterTurn(s, q)); var rd, rd' := s.readers[q], AfterTurn(s, q);
            && Leads(from, t, kind) && MidRead(t, q) && LagInv(rd', t.cap) && rd'.first == rd.first
            && rd.pos <= rd'.pos <= s.freePos
            && (rd'.pos > rd.pos || Phase(rd'.pc, s.cap) < Phase(rd.pc, s.cap))
  {
    TurnGoesOn(s, q);
    TurnEnabled(s, q);
    TurnKeeps(s, q);
    TurnProgress(s, q);
    var a, t := NextAction(s.readers[q], q), WithReader(s, q, AfterTurn(s, q));
    assert Permitted(kind, s, a);
    hide Leads, Apply, Enabled, AfterTurn, Protected, Permitted, CleanCheck, Phase, LagInv;
    LeadsOn(from, s, kind, a);
    assert MidRead(t, q);
    TurnEnabled(t, q);
  }

  /** A path on which reader `q`, still in the read it began at `first`, gets to the end. */
  ghost predicate EndReached(from: State, s: State, kind: Kind, q: nat, first: nat)
    requires q < |s.readers|
  {
    exists rd :: && Leads(from, WithReader(s, q, rd), kind) && AtEnd(WithReader(s, q, rd), q)
                 && rd.first == first
  }

  lemma EndFromNext(from: State, s: State, kind: Kind, q: nat, next: Reader, first: nat)
    requires q < |s.readers| && EndReached(from, WithReader(s, q, next), kind, q, first)
    ensures EndReached(from, s, kind, q, first)
  {
    var t := WithReader(s, q, next);
    hide Leads, AtEnd;
    var end :| Leads(from, WithReader(t, q, end), kind) && AtEnd(WithReader(t, q, end), q) && end.first == first;
    assert WithReader(t, q, end) == WithReader(s, q, end);
  }

  /** The reader reads all there is. */
  lemma {:induction false} CatchesUp(from: State, s: State, kind: Kind, q: nat)
    requires Leads(from, s, kind) && Lets(kind, q) && MidRead(s, q) && AllReadable(s.log)
    requires LagInv(s.readers[q], s.cap)
    ensures EndReached(from, s, kind, q, s.readers[q].first)
    decreases s.freePos - s.readers[q].pos, Phase(s.readers[q].pc, s.cap)
  {
    var rd := s.readers[q];
    if rd.pc.Head? && rd.pos == s.freePos {
      AtEndAlready(s, q);
      hide Leads, AtEnd;
      assert WithReader(s, q, rd) == s;
    } else {
      TurnTaken(from, s, kind, q);
      var next := AfterTurn(s, q);
      hide Leads, AfterTurn, Phase, LagInv, EndReached;
      CatchesUp(from, WithReader(s, q, next), kind, q);
      EndFromNext(from, s, kind, q, next, rd.first);
    }
  }

  // ----- Feeding the reader -----

  /** One reader, at the stream end inside a read; nobody writes, and a message of one
      byte is readable wherever it comes to stand. */
  predicate Ready(s: State) {
    AtEnd(s, 0) && |s.readers| == 1 && s.writer.Idle? && EvenlyPlaced(s) && s.cap >= 32
  }

  /** The writer past its scan with a message of one byte. */
  function Feeding(s: State): State {
    s.(writer := Storing([1], {}))
  }

  /** The scan lets it through, however far the published position lags. */
  lemma FeedStarts(from: State, s: State)
    requires Leads(from, s, Within(0)) && Ready(s)
    ensures PastScan(Feeding(s)) && Leads(from, AfterWrite(Feeding(s)), Within(0))
  {
    assert BytesToWrite([1], s.freePos, s.cap) <= 11;
    assert s.readers[0].active && s.freePos <= s.readers[0].bpos + s.cap / 2 + 3;
    hide Leads, BytesToWrite, MidRead, LagInv;
    StartWrite(from, s, Within(0), [1]);
    hide StoredSoFar;
    assert PastScan(Feeding(s)) by { RingFacts(s); }
    WriteLeads(from, Feeding(s), Within(0));
  }

  lemma RingFacts(s: State)
    requires Ready(s)
    ensures Shape(s) && s.freePos <= s.dirty
  {
  }

  lemma FedReadable(log: Log, freePos: nat, cap: nat)
    requires AllReadable(log) && Even(freePos) && Even(cap) && cap >= 32
    ensures AllReadable(log + WriteEntries([1], freePos, cap)) && Even(freePos + BytesToWrite([1], freePos, cap))
  {
    FedEven(freePos, cap);
    WriteUnreadableExactly([1], freePos, cap);
    hide WriteEntries, BytesToWrite, NextRecord, Unreadable, Even;
    BothReadable(log, WriteEntries([1], freePos, cap));
  }

  lemma FedBytes(freePos: nat, cap: nat)
    requires cap >= 32
    ensures var left := cap - freePos % cap; BytesToWrite([1], freePos, cap) == if left < 6 then left + 6 else 6
  {
  }

  lemma EvenRoom(left: nat)
    requires Even(left)
    ensures left != HEADER_SIZE && Even(if left < 6 then left + 6 else 6)
  {
  }

  lemma FedEven(freePos: nat, cap: nat)
    requires Even(freePos) && Even(cap) && cap >= 32
    ensures cap - freePos % cap != HEADER_SIZE && Even(freePos + BytesToWrite([1], freePos, cap))
  {
    hide Even, BytesToWrite;
    EvenIndex(freePos, cap);
    FedBytes(freePos, cap);
    EvenRoom(cap - freePos % cap);
    EvenSum(freePos, BytesToWrite([1], freePos, cap));
  }

  lemma BothReadable(log: Log, es: Log)
    requires AllReadable(log) && forall e :: e in es ==> !Unreadable(e.rec)
    ensures AllReadable(log + es)
  {
    hide Unreadable;
  }

  /** `u` is `s` after one more message of one byte. */
  predicate FedTo(s: State, u: State) {
    && s.cap >= HEADER_SIZE + 1 && u.cap == s.cap && u.writer.Idle? && u.readers == s.readers
    && u.log == s.log + WriteEntries([1], s.freePos, s.cap)
    && u.freePos == s.freePos + BytesToWrite([1], s.freePos, s.cap)
    && u.dirty == Max(s.dirty, u.freePos)
  }

  lemma FedState(s: State)
    requires Ready(s) && PastScan(Feeding(s))
    ensures FedTo(s, AfterWrite(Feeding(s)))
  {
    WriteCompletes(Feeding(s));
    hide AfterWrite, WriteEntries, BytesToWrite, AtEnd, PastScan, Leads;
  }

  /** Behind the message the reader is in a read as before. */
  lemma FedIsMidRead(s: State, u: State)
    requires Ready(s) && FedTo(s, u) && RingInv(u)
    ensures MidRead(u, 0)
  {
    var rd := s.readers[0];
    assert BytesToWrite([1], s.freePos, s.cap) <= 11;
    assert WriteEntries([1], s.freePos, s.cap)[0].pos == s.freePos;
    hide WriteEntries, BytesToWrite;
    assert rd.active && u.freePos < rd.bpos + u.cap && u.dirty <= rd.bpos + u.cap && rd.bpos <= rd.pos;
    ReaderInvFramed(rd, s.log, s.freePos, s.dirty, s.cap, u.log, u.freePos, u.dirty);
    hide ReaderInv, RingInv, LagInv;
  }

  /** How many messages the reader has got past in this read. */
  function Passed(s: State): nat
    requires |s.readers| == 1
  {
    |s.readers[0].outcomes|
  }

  lemma PassedCounts(s: State)
    requires AtEnd(s, 0) && |s.readers| == 1
    ensures s.readers[0].first <= |s.log| && Passed(s) == |Messages(s.log[s.readers[0].first..])|
  {
    assert s.log[s.readers[0].first..|s.log|] == s.log[s.readers[0].first..];
    hide Messages, Holds, Protected;
  }

  lemma OneMoreMessage(log: Log, es: Log, first: nat)
    requires first <= |log| && |Messages(es)| == 1
    ensures |Messages((log + es)[first..])| == |Messages(log[first..])| + 1
  {
    assert (log + es)[first..] == log[first..] + es;
    MessagesConcat(log[first..], es);
    hide Messages;
  }

  lemma FedCounts(s: State, u: State)
    requires Ready(s) && FedTo(s, u)
    ensures |u.readers| == 1 && u.readers[0].first <= |u.log|
    ensures |Messages(u.log[u.readers[0].first..])| == Passed(s) + 1
  {
    PassedCounts(s);
    WriteEntriesMessages([1], s.freePos, s.cap);
    hide WriteEntries, BytesToWrite, AtEnd, Messages, EvenlyPlaced;
    OneMoreMessage(s.log, WriteEntries([1], s.freePos, s.cap), s.readers[0].first);
  }

  /** What reading on from the fed state needs. */
  lemma FedReads(s: State, u: State)
    requires Ready(s) && FedTo(s, u) && RingInv(u)
    ensures MidRead(u, 0) && AllReadable(u.log) && LagInv(u.readers[0], u.cap)
    ensures u.cap >= 32 && Even(u.cap) && Even(u.freePos)
  {
    FedIsMidRead(s, u);
    assert LagInv(u.readers[0], u.cap) && AllReadable(s.log) && Even(s.freePos) && Even(s.cap);
    hide WriteEntries, BytesToWrite, MidRead, AllReadable, Even, LagInv, AtEnd, RingInv;
    FedReadable(s.log, s.freePos, s.cap);
  }

  lemma ReadOnIsReady(s: State, u: State, rd: Reader)
    requires Ready(s) && FedTo(s, u) && RingInv(u) && |u.readers| == 1
    requires AtEnd(WithReader(u, 0, rd), 0) && rd.first == u.readers[0].first
    ensures Ready(WithReader(u, 0, rd)) && Passed(WithReader(u, 0, rd)) == Passed(s) + 1
  {
    FedReads(s, u);
    FedCounts(s, u);
    PassedCounts(WithReader(u, 0, rd));
    hide AtEnd, Messages, WriteEntries, BytesToWrite;
  }

  /** One round: a message is written and read, inside the same read. */
  lemma Round(from: State, s: State)
    requires RingInv(from) && Leads(from, s, Within(0)) && Ready(s)
    ensures exists t :: Leads(from, t, Within(0)) && Ready(t) && t.cap == s.cap && Passed(t) == Passed(s) + 1
  {
    FeedStarts(from, s);
    FedState(s);
    var u := AfterWrite(Feeding(s));
    hide Leads, AfterWrite;
    LeadsKeepsRing(from, u, Within(0));
    FedReads(s, u);
    FedCounts(s, u);
    assert u.cap == s.cap;
    hide FedTo, MidRead, AllReadable, Messages, LagInv, RingInv, Ready, AtEnd, Passed;
    CatchesUp(from, u, Within(0), 0);
    var rd :| && Leads(from, WithReader(u, 0, rd), Within(0)) && AtEnd(WithReader(u, 0, rd), 0)
              && rd.first == u.readers[0].first;
    ReadOnIsReady(s, u, rd);
  }

  lemma {:induction false} Rounds(from: State, n: nat)
    requires Ready(from)
    ensures exists t :: Leads(from, t, Within(0)) && Ready(t) && t.cap == from.cap && Passed(t) == Passed(from) + n
  {
    assert RingInv(from);
    hide Ready, RingInv, Leads;
    if n == 0 {
      assert Shape(from) by { ReadyShape(from); }
      LeadsHere(from, Within(0));
    } else {
      Rounds(from, n - 1);
      var t :| Leads(from, t, Within(0)) && Ready(t) && t.cap == from.cap && Passed(t) == Passed(from) + (n - 1);
      Round(from, t);
    }
  }

  lemma ReadyShape(s: State)
    requires Ready(s)
    ensures Shape(s) && |s.readers| == 1
  {
  }

  /** A new buffer, its reader at the first step of a read. */
  function Begun(cap: nat): State {
    Start(cap).(readers := [Reader(true, 0, 0, Head, 0, 0, [])])
  }

  lemma BegunReady(cap: nat)
    requires 32 <= cap <= LENGTH_LIMIT && Even(cap)
    ensures Ready(Begun(cap)) && Passed(Begun(cap)) == 0
  {
    assert Begun(cap).log[0..0] == [];
  }

  /** The reader activates in a new buffer and starts to read. */
  lemma StartsReady(cap: nat)
    requires 32 <= cap <= LENGTH_LIMIT && Even(cap)
    ensures HasRun(Begun(cap), Gentle)
  {
    var s0 := Start(cap);
    LeadsHere(s0, Gentle);
    hide Leads;
    LeadsOn(s0, s0, Gentle, LoadPosition(0));
    var s1 := Apply(s0, LoadPosition(0));
    LeadsOn(s0, s1, Gentle, Enter(0));
    var s2 := Apply(s1, Enter(0));
    LeadsOn(s0, s2, Gentle, StartRead(0));
    assert Apply(s2, StartRead(0)) == Begun(cap);
    LeadsIsRun(s0, Begun(cap), Gentle);
  }

  /** A path on which the reader does not start a read, and at whose end it is inside
      one, stays inside that one. */
  lemma {:induction false} OneRead(states: seq<State>, acts: seq<Action>, q: nat, i: nat)
    requires IsPath(states, acts, Within(q)) && i < |states| && q < |states[0].readers|
    requires InsideRead(states[|acts|], q)
    ensures InsideRead(states[i], q)
    decreases |states| - i
  {
    if i < |acts| {
      OneRead(states, acts, q, i + 1);
      if !InsideRead(states[i], q) { StaysOutside(states[i], acts[i], q); }
    }
  }

  lemma StaysOutside(s: State, a: Action, q: nat)
    requires Shape(s) && Enabled(s, a) && Permitted(Within(q), s, a) && !InsideRead(s, q)
    ensures !InsideRead(Apply(s, a), q)
  {
    hide ReaderStep, AnswerCopy;
  }

  /** In every even buffer of at least thirty-two bytes, for every number n: a run with
      backpressure honoured in which one reader, without ever returning from one read,
      gets past n messages. So no number of steps bounds a read. */
  lemma ReadsWithoutEnd(cap: nat, n: nat)
    requires 32 <= cap <= LENGTH_LIMIT && Even(cap)
    ensures exists s, t :: && HasRun(s, Gentle) && Leads(s, t, Within(0)) && s.cap == cap
                           && Ready(s) && Ready(t) && Passed(s) == 0 && Passed(t) == n
  {
    StartsReady(cap);
    BegunReady(cap);
    hide HasRun, Ready, Leads;
    Rounds(Begun(cap), n);
    var t :| Leads(Begun(cap), t, Within(0)) && Ready(t) && t.cap == cap && Passed(t) == n;
  }
}
