/** Theorems about whole runs: any number of writers, readers, crashes, in any
    interleaving of single-byte steps. */
module ProtocolRuns {
  import opened Bytes
  import opened Records
  import opened Protocol
  import opened ProtocolInvariants
  import Q = QuiescentRead

  // ----- All runs: the ring and the log -----

  lemma {:induction false} RingOverRun(states: seq<State>, acts: seq<Action>, i: nat)
    requires IsRun(states, acts) && i < |states|
    ensures RingInv(states[i])
  {
    if i > 0 {
      RingOverRun(states, acts, i - 1);
      StepKeepsRing(states[i - 1], acts[i - 1]);
    }
  }

  /** The log only grows, at its end. */
  lemma {:induction false} LogAppendOnly(states: seq<State>, acts: seq<Action>, i: nat, j: nat)
    requires IsRun(states, acts) && i <= j < |states|
    ensures states[i].log <= states[j].log
    decreases j
  {
    if i < j {
      LogAppendOnly(states, acts, i, j - 1);
      RingOverRun(states, acts, j - 1);
      StepKeepsRing(states[j - 1], acts[j - 1]);
    }
  }

  /** Crash safety: whatever writers did, and wherever they died, the bytes in the
      buffer still read, record by record from any boundary that stores have not
      gone a lap past, as exactly the messages completed after it. */
  lemma {:induction false} CrashSafety(states: seq<State>, acts: seq<Action>, i: nat, k: nat)
    requires IsRun(states, acts) && i < |states| && k <= |states[i].log|
    requires states[i].dirty <= PosOf(states[i].log, states[i].freePos, k) + states[i].cap
    ensures var s := states[i]; var j := Q.StopAt(s.log, s.freePos, s.cap, k);
            && Q.ReadFrom(s.buf, s.cap, PosOf(s.log, s.freePos, k), s.freePos)
               == Q.Reading(Messages(s.log[k..j]), PosOf(s.log, s.freePos, j),
                            if j == |s.log| then Success else Expiry)
            && ((forall m :: k <= m < |s.log| ==> !Unreadable(s.log[m].rec))
                && s.freePos < PosOf(s.log, s.freePos, k) + s.cap
                ==> j == |s.log|)
  {
    RingOverRun(states, acts, i);
    var s := states[i];
    Q.ReadFollowsLog(s.buf, s.cap, s.log, s.freePos, s.dirty, k);
    Q.ReadOutcome(s.log, s.freePos, s.cap, k);
    assert k < |s.log| ==> Link(s.log, s.freePos, s.cap, k);
  }

  // ----- Runs in which every deciding check is clean -----

  predicate CleanRun(states: seq<State>, acts: seq<Action>) {
    && IsRun(states, acts)
    && (forall i :: 0 <= i < |acts| ==> CleanCheck(states[i], acts[i]))
  }

  lemma {:induction false} ReadersOverRun(states: seq<State>, acts: seq<Action>, i: nat)
    requires CleanRun(states, acts) && i < |states|
    ensures RingInv(states[i]) && ReadersInv(states[i])
  {
    RingOverRun(states, acts, i);
    if i > 0 {
      ReadersOverRun(states, acts, i - 1);
      StepKeepsReaders(states[i - 1], acts[i - 1]);
    } else {
      InitialReaders(states[0]);
    }
  }

  lemma InitialReaders(s: State)
    requires Init(s)
    ensures ReadersInv(s)
  {
    forall r | 0 <= r < |s.readers|
      ensures ReaderInv(s.readers[r], s.log, s.freePos, s.dirty, s.cap)
    {
      assert s.log[0..0] == [];
    }
  }

  /** How many messages the log holds before record `i`. */
  function MessageNumber(log: Log, i: nat): nat
    requires i <= |log|
  {
    |Messages(log[..i])|
  }

  /** Total order, exactly once: in every state of a clean run, what a reader got
      past since its activation is a contiguous run of the one message log, each
      message confirmed unchanged or declined by its own handler. */
  lemma TotalOrder(states: seq<State>, acts: seq<Action>, i: nat, r: nat)
    requires CleanRun(states, acts) && i < |states| && r < |states[i].readers|
    ensures var rd, log := states[i].readers[r], states[i].log;
            && rd.first <= rd.at <= |log|
            && MessageNumber(log, rd.at) == MessageNumber(log, rd.first) + |rd.outcomes|
            && MessageNumber(log, rd.at) <= |Messages(log)|
            && (forall k :: 0 <= k < |rd.outcomes| ==>
                  rd.outcomes[k] == Declined
                  || rd.outcomes[k] == Confirmed(Messages(log)[MessageNumber(log, rd.first) + k]))
  {
    ReadersOverRun(states, acts, i);
    var rd, log := states[i].readers[r], states[i].log;
    assert ReaderInv(rd, log, states[i].freePos, states[i].dirty, states[i].cap);
    SegmentOfMessages(log, rd.first, rd.at);
  }

  lemma {:induction false} SegmentOfMessages(log: Log, a: nat, b: nat)
    requires a <= b <= |log|
    ensures Messages(log) == Messages(log[..a]) + Messages(log[a..b]) + Messages(log[b..])
    ensures Messages(log[..b]) == Messages(log[..a]) + Messages(log[a..b])
  {
    hide Messages;
    MessagesConcat(log[..a], log[a..b]);
    assert log[..b] == log[..a] + log[a..b];
    MessagesConcat(log[..b], log[b..]);
    assert log == log[..b] + log[b..];
  }

  lemma MessagesMonotone(a: Log, b: Log)
    requires a <= b
    ensures Messages(a) <= Messages(b)
  {
    assert b == a + b[|a|..];
    MessagesConcat(a, b[|a|..]);
  }

  /** The `k`th message a reader confirmed is the one the run's last state logs
      under its number. */
  lemma ConfirmedAsLogged(states: seq<State>, acts: seq<Action>, i: nat, r: nat, k: nat)
    requires CleanRun(states, acts) && i < |states| && r < |states[i].readers|
    requires k < |states[i].readers[r].outcomes| && states[i].readers[r].outcomes[k].Confirmed?
    ensures var rd, end := states[i].readers[r], Messages(states[|acts|].log);
            rd.first <= |states[i].log|
            && (var n := MessageNumber(states[i].log, rd.first) + k;
                n < |end| && rd.outcomes[k].payload == end[n])
  {
    TotalOrder(states, acts, i, r);
    LogAppendOnly(states, acts, i, |acts|);
    MessagesMonotone(states[i].log, states[|acts|].log);
    hide Messages, CleanRun;
  }

  /** Any two readers, at any two moments of a clean run, that both confirmed the
      message of some number confirmed the same payload. */
  lemma ReadersAgree(states: seq<State>, acts: seq<Action>, i: nat, r: nat, k: nat, j: nat, q: nat, l: nat)
    requires CleanRun(states, acts) && i < |states| && j < |states|
    requires r < |states[i].readers| && q < |states[j].readers|
    requires states[i].readers[r].first <= |states[i].log| && states[j].readers[q].first <= |states[j].log|
    requires k < |states[i].readers[r].outcomes| && l < |states[j].readers[q].outcomes|
    requires states[i].readers[r].outcomes[k].Confirmed? && states[j].readers[q].outcomes[l].Confirmed?
    requires MessageNumber(states[i].log, states[i].readers[r].first) + k
          == MessageNumber(states[j].log, states[j].readers[q].first) + l
    ensures states[i].readers[r].outcomes[k] == states[j].readers[q].outcomes[l]
  {
    ConfirmedAsLogged(states, acts, i, r, k);
    ConfirmedAsLogged(states, acts, j, q, l);
  }

  lemma BeforeEnd(log: Log, freePos: nat, cap: nat, k: nat)
    requires cap > 0 && Chained(log, freePos, cap) && k <= |log|
    ensures k < |log| ==> PosOf(log, freePos, k) < freePos
  {
    assert k < |log| ==> Link(log, freePos, cap, k);
  }

  lemma SucceedsAtEnd(s: State, r: nat)
    requires Shape(s) && Enabled(s, Step(r)) && Apply(s, Step(r)).readers[r].pc == Returned(Success)
    ensures var s' := Apply(s, Step(r)); s'.readers[r].pos == s'.readers[r].bpos == s'.freePos
  {
    hide DecodeHeader;
  }

  /** A read that succeeds has missed nothing: when it returns, the reader's
      outcomes account for every message logged since its activation. */
  lemma SuccessMissesNothing(states: seq<State>, acts: seq<Action>, i: nat, r: nat)
    requires CleanRun(states, acts) && i < |acts| && acts[i] == Step(r)
    requires states[i + 1].readers[r].pc == Returned(Success)
    ensures var s := states[i + 1]; var rd := s.readers[r];
            rd.at == |s.log| && rd.pos == rd.bpos == s.freePos
            && rd.first <= |s.log| && Tally(rd.outcomes, Messages(s.log[rd.first..]))
  {
    ReadersOverRun(states, acts, i);
    ReadersOverRun(states, acts, i + 1);
    var s := states[i + 1];
    var rd := s.readers[r];
    assert ReaderInv(rd, s.log, s.freePos, s.dirty, s.cap);
    SucceedsAtEnd(states[i], r);
    hide CleanRun, Tally, Messages;
    BeforeEnd(s.log, s.freePos, s.cap, rd.at);
    assert s.log[rd.first..|s.log|] == s.log[rd.first..];
  }

  // ----- Writes that are atomic to readers -----

  /** No reader runs and no writer dies between a writer's first store and its
      last publication. Forced writes are allowed. */
  predicate AtomicWrites(states: seq<State>, acts: seq<Action>) {
    && IsRun(states, acts)
    && (forall i :: 0 <= i < |acts| && states[i].writer.Storing? ==> acts[i].StoreByte? || acts[i].Publish?)
  }

  predicate NoResidue(s: State) {
    Shape(s) && s.dirty <= s.freePos + (if s.writer.Storing? then Size(Current(s)) else 0)
  }

  lemma NoResidueStep(s: State, a: Action)
    requires RingInv(s) && Enabled(s, a) && NoResidue(s)
    requires s.writer.Storing? ==> a.StoreByte? || a.Publish?
    ensures NoResidue(Apply(s, a))
  {
    hide EncodeHeader, Holds, StoredSoFar, ReaderStep, AnswerCopy, HeaderOf;
  }

  lemma {:induction false} NoResidueOverRun(states: seq<State>, acts: seq<Action>, i: nat)
    requires AtomicWrites(states, acts) && i < |states|
    ensures NoResidue(states[i])
  {
    if i > 0 {
      NoResidueOverRun(states, acts, i - 1);
      RingOverRun(states, acts, i - 1);
      NoResidueStep(states[i - 1], acts[i - 1]);
    }
  }

  /** With atomic writes the optimistic read is sound, even under forced writes:
      every theorem about clean runs applies. */
  lemma AtomicWritesAreClean(states: seq<State>, acts: seq<Action>)
    requires AtomicWrites(states, acts)
    ensures CleanRun(states, acts)
  {
    forall i | 0 <= i < |acts|
      ensures CleanCheck(states[i], acts[i])
    {
      NoResidueOverRun(states, acts, i);
    }
  }

  // ----- The published position never lags far behind -----

  predicate LagInv(rd: Reader, cap: nat)
    requires cap > 0
  {
    && (rd.active ==> Near(rd.bpos, rd.pos, cap))
    && (rd.active && rd.pc == Returned(Success) ==> rd.bpos == rd.pos)
    && (!rd.active ==> Quiescent(rd) || rd.pc.Entering?)
  }

  lemma ReaderStepKeepsLag(rd: Reader, buf: seq<Byte>, freePos: nat, cap: nat)
    requires cap >= HEADER_SIZE && |buf| == cap && PcShape(rd.pc, cap) && CanStep(rd)
    requires LagInv(rd, cap)
    ensures LagInv(ReaderStep(rd, buf, freePos, cap), cap)
  {
    hide DecodeHeader;
    if rd.pc.Head? && cap - rd.pos % cap < HEADER_SIZE {
      WrapToZero(rd.pos, cap);
    }
  }

  /** The shared position is updated sparingly: inside a read a step either leaves it
      alone, or moves it on by half the buffer at least, or ends the read. */
  lemma PublishedSparingly(s: State, a: Action, r: nat)
    requires Shape(s) && Enabled(s, a) && r < |s.readers| && a != Enter(r)
    ensures |Apply(s, a).readers| == |s.readers|
    ensures var rd, rd' := s.readers[r], Apply(s, a).readers[r];
            || rd'.bpos == rd.bpos
            || (rd'.bpos == rd'.pos && (rd'.pc == Returned(Success) || rd'.bpos >= rd.bpos + s.cap / 2))
  {
    hide DecodeHeader;
  }

  lemma LagStep(s: State, a: Action, r: nat)
    requires Shape(s) && Enabled(s, a) && r < |s.readers| && LagInv(s.readers[r], s.cap)
    ensures |Apply(s, a).readers| == |s.readers| && LagInv(Apply(s, a).readers[r], s.cap)
  {
    if a == Step(r) {
      ReaderStepKeepsLag(s.readers[r], s.buf, s.freePos, s.cap);
    }
    hide ReaderStep;
  }

  /** In every run at all, torn or not, an active reader's shared position trails
      its private one by less than B/2 + 4, and catches up on every success. */
  lemma {:induction false} BoundedLag(states: seq<State>, acts: seq<Action>, i: nat, r: nat)
    requires IsRun(states, acts) && i < |states| && r < |states[i].readers|
    ensures LagInv(states[i].readers[r], states[i].cap)
    ensures var rd, cap := states[i].readers[r], states[i].cap;
            rd.active ==> rd.bpos <= rd.pos < rd.bpos + cap / 2 + 4
  {
    if i > 0 {
      SameReaders(states[i - 1], acts[i - 1]);
      BoundedLag(states, acts, i - 1, r);
      LagStep(states[i - 1], acts[i - 1], r);
    }
  }
}
