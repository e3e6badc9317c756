/** How far a read gets. On every path, whatever others do, a reader's own steps inside
    one read are bounded by how far its position moves. In honoured runs a reader left
    alone finishes its read. */
module ReaderProgress {
  import opened Bytes
  import opened Positions
  import opened Records
  import opened Protocol
  import opened ProtocolInvariants
  import opened ProtocolRuns
  import opened ProtocolBackpressure
  import opened Reachability

  /** The path kind lets reader `q` go on with its read. */
  predicate Lets(kind: Kind, q: nat) {
    kind.Ordered? || kind.Gentle? || kind.Within? || kind.Between? || (kind.Around? && kind.reader != q)
  }

  /** Reader `q` is inside a read, and nothing it has yet to read was stored over. */
  predicate MidRead(s: State, q: nat) {
    && RingInv(s) && q < |s.readers|
    && ReaderInv(s.readers[q], s.log, s.freePos, s.dirty, s.cap)
    && Protected(s, q) && s.readers[q].active
    && !Quiescent(s.readers[q])
  }

  /** A reader at `pos` is neither expired nor stored over. */
  predicate Unharmed(t: State, pos: nat) {
    !Expired(pos, t.freePos, t.cap) && Intact(pos, t.dirty, t.cap)
  }

  /** Steps left before the reader moves on or returns. */
  function Phase(pc: ReaderPc, cap: nat): nat
    requires PcShape(pc, cap)
  {
    match pc
    case Head => cap + 10
    case EarlyCheck(_) => cap + 9
    case Loading(_, header) => cap + 8 - |header|
    case Copying(_, _, copied) => cap - |copied|
    case ConfirmCheck(_) => 1
    case _ => 0
  }

  // ----- Own steps inside one read -----

  /** Any steps of anybody, from any state. */
  predicate Follows(states: seq<State>, acts: seq<Action>) {
    && |states| == |acts| + 1
    && (forall i :: 0 <= i < |states| ==> Shape(states[i]))
    && (forall i :: 0 <= i < |acts| ==> Enabled(states[i], acts[i]) && states[i + 1] == Apply(states[i], acts[i]))
  }

  predicate InsideRead(s: State, q: nat) {
    q < |s.readers| && !Quiescent(s.readers[q]) && !s.readers[q].pc.Entering?
  }

  /** How many of the steps are reader `q`'s own. */
  function OwnSteps(acts: seq<Action>, q: nat): nat {
    if acts == [] then 0
    else OwnSteps(acts[..|acts| - 1], q) + (if By(q, acts[|acts| - 1]) then 1 else 0)
  }

  lemma {:induction false} OwnStepsCounted(acts: seq<Action>, q: nat, own: set<nat>)
    requires forall i :: i in own <==> 0 <= i < |acts| && By(q, acts[i])
    ensures OwnSteps(acts, q) == |own|
  {
    if acts == [] {
      assert own == {};
    } else {
      OwnStepsCounted(acts[..|acts| - 1], q, own - {|acts| - 1});
    }
  }

  /** A reader's own step inside a read moves its position on or its phase down. */
  lemma OwnStepCounts(s: State, a: Action, q: nat)
    requires Shape(s) && Enabled(s, a) && InsideRead(s, q) && By(q, a)
    ensures q < |Apply(s, a).readers| && Apply(s, a).cap == s.cap
    ensures var rd, rd' := s.readers[q], Apply(s, a).readers[q];
            || (rd'.pos == rd.pos && Phase(rd'.pc, s.cap) < Phase(rd.pc, s.cap))
            || (rd'.pos > rd.pos && Phase(rd'.pc, s.cap) <= s.cap + 10)
  {
    hide DecodeHeader;
  }

  lemma OthersStep(s: State, a: Action, q: nat)
    requires Shape(s) && Enabled(s, a) && q < |s.readers| && !By(q, a)
    ensures q < |Apply(s, a).readers| && Apply(s, a).readers[q] == s.readers[q] && Apply(s, a).cap == s.cap
  {
    hide ReaderStep, AnswerCopy;
  }

  /** `own` steps were taken since the reader was at `pos0` in phase `phase0`. */
  predicate Bounded(own: nat, pos0: nat, phase0: nat, pos: nat, phase: nat, cap: nat) {
    pos0 <= pos && own + phase <= (pos - pos0) * (cap + 11) + phase0
  }

  lemma OneMoreOwn(own: nat, pos0: nat, phase0: nat, pos: nat, phase: nat, pos': nat, phase': nat, cap: nat)
    requires Bounded(own, pos0, phase0, pos, phase, cap)
    requires (pos' == pos && phase' < phase) || (pos' > pos && phase' <= cap + 10)
    ensures Bounded(own + 1, pos0, phase0, pos', phase', cap)
  {
    if pos' > pos {
      var moved, more := pos - pos0, pos' - pos;
      assert (moved + more) * (cap + 11) == moved * (cap + 11) + more * (cap + 11);
      assert more * (cap + 11) >= cap + 11;
    }
  }

  /** Bounded own steps: on every path, with any interference, torn and forced writes
      and deaths included, the steps a reader takes inside one read are at most B + 11
      for every position it moves on, plus those of the record it stands at. */
  lemma {:induction false} OwnStepsBounded(states: seq<State>, acts: seq<Action>, q: nat, n: nat)
    requires Follows(states, acts) && n <= |acts| && forall i :: 0 <= i < n ==> InsideRead(states[i], q)
    requires q < |states[0].readers|
    ensures q < |states[n].readers| && states[n].cap == states[0].cap
    ensures Bounded(OwnSteps(acts[..n], q), states[0].readers[q].pos, Phase(states[0].readers[q].pc, states[0].cap),
                    states[n].readers[q].pos, Phase(states[n].readers[q].pc, states[0].cap), states[0].cap)
    decreases n
  {
    if n > 0 {
      OwnStepsBounded(states, acts, q, n - 1);
      var s, a := states[n - 1], acts[n - 1];
      assert acts[..n][..n - 1] == acts[..n - 1] && acts[..n][n - 1] == a;
      assert s.cap == states[0].cap;
      if By(q, a) {
        OwnStepCounts(s, a, q);
        hide Apply, Enabled, Phase, Bounded, Shape, InsideRead;
        OneMoreOwn(OwnSteps(acts[..n - 1], q), states[0].readers[q].pos, Phase(states[0].readers[q].pc, s.cap),
                   s.readers[q].pos, Phase(s.readers[q].pc, s.cap),
                   states[n].readers[q].pos, Phase(states[n].readers[q].pc, s.cap), s.cap);
      } else {
        OthersStep(s, a, q);
        hide Apply, Enabled, Phase, Bounded, Shape, InsideRead;
      }
    }
  }

  // ----- Left alone -----

  /** What the reader does next: it accepts what it copied. */
  function NextAction(rd: Reader, q: nat): Action {
    if rd.pc.Copying? && |rd.pc.copied| == rd.pc.length then Answer(q, true) else Step(q)
  }

  /** How a read ends: at the stream end, with every record passed, or at an intact
      record with zero length. */
  predicate Ended(rd: Reader, log: Log, freePos: nat) {
    || (rd.pc == Returned(Success) && rd.at == |log| && rd.pos == freePos)
    || (rd.pc == Returned(Expiry) && rd.at < |log| && Unreadable(log[rd.at].rec))
  }

  lemma TurnEnabled(s: State, q: nat)
    requires MidRead(s, q)
    ensures Enabled(s, NextAction(s.readers[q], q)) && CleanCheck(s, NextAction(s.readers[q], q))
    ensures s.readers[q].pos <= s.freePos
  {
    var rd := s.readers[q];
    BeforeEnd(s.log, s.freePos, s.cap, rd.at);
    hide Holds, StoredSoFar, Committed;
  }

  function AfterTurn(s: State, q: nat): Reader
    requires Shape(s) && q < |s.readers| && Enabled(s, NextAction(s.readers[q], q))
  {
    Apply(s, NextAction(s.readers[q], q)).readers[q]
  }

  lemma TurnChangesReader(s: State, q: nat)
    requires Shape(s) && q < |s.readers| && Enabled(s, NextAction(s.readers[q], q))
    ensures Apply(s, NextAction(s.readers[q], q)) == WithReader(s, q, AfterTurn(s, q))
    ensures AfterTurn(s, q).active == s.readers[q].active && AfterTurn(s, q).first == s.readers[q].first
  {
    hide DecodeHeader;
  }

  /** One turn moves the reader on or closer to its next move. */
  lemma TurnProgress(s: State, q: nat)
    requires MidRead(s, q) && Enabled(s, NextAction(s.readers[q], q))
    requires !AfterTurn(s, q).pc.Aborted?
    ensures var rd, rd' := s.readers[q], AfterTurn(s, q);
            PcShape(rd'.pc, s.cap)
            && (rd'.pos > rd.pos || (rd'.pos == rd.pos && Phase(rd'.pc, s.cap) < Phase(rd.pc, s.cap)))
  {
    hide DecodeHeader, Holds, StoredSoFar, ReaderInv, Protected;
  }

  lemma ReturnsAtEnd(rd: Reader, buf: seq<Byte>, freePos: nat, cap: nat)
    requires cap >= HEADER_SIZE && |buf| == cap && PcShape(rd.pc, cap) && CanStep(rd)
    ensures var rd' := ReaderStep(rd, buf, freePos, cap);
            (rd'.pc == Returned(Success) ==> rd'.pos == freePos) && (Quiescent(rd') ==> rd'.pc.Returned?)
  {
    hide DecodeHeader;
  }

  /** Only steps, not answers, end a read. */
  lemma EndsByStep(s: State, q: nat)
    requires MidRead(s, q) && Enabled(s, NextAction(s.readers[q], q)) && Quiescent(AfterTurn(s, q))
    ensures CanStep(s.readers[q]) && AfterTurn(s, q) == ReaderStep(s.readers[q], s.buf, s.freePos, s.cap)
  {
    hide ReaderStep, RingInv, ReaderInv, Protected;
  }

  lemma ReturnedIsEnded(rd: Reader, log: Log, freePos: nat, dirty: nat, cap: nat)
    requires cap > 0 && Chained(log, freePos, cap) && ReaderInv(rd, log, freePos, dirty, cap)
    requires rd.pc.Returned? && (rd.pc == Returned(Success) ==> rd.pos == freePos) && ExpiryJustified(rd, log)
    ensures Ended(rd, log, freePos)
  {
    BeforeEnd(log, freePos, cap, rd.at);
    hide Chained, Tally, Messages, Unreadable;
    match rd.pc.result
    case Success =>
    case Invalid =>
    case Expiry =>
    case Fault =>
  }

  lemma TurnEnds(s: State, q: nat)
    requires MidRead(s, q) && Enabled(s, NextAction(s.readers[q], q))
    requires var rd := AfterTurn(s, q); Quiescent(rd) && ReaderInv(rd, s.log, s.freePos, s.dirty, s.cap)
    ensures Ended(AfterTurn(s, q), s.log, s.freePos)
  {
    var rd, rd' := s.readers[q], AfterTurn(s, q);
    TurnEnabled(s, q);
    EndsByStep(s, q);
    assert Unharmed(s, rd.pos);
    hide AfterTurn, NextAction, Apply, Enabled, ReaderInv, StoredSoFar, Protected;
    DecisionJustified(rd, s.buf, s.log, s.freePos, s.dirty, s.cap);
    ReturnsAtEnd(rd, s.buf, s.freePos, s.cap);
    hide ReaderStep, CanStep, Quiescent, Ended, ExpiryJustified;
    ReturnedIsEnded(rd', s.log, s.freePos, s.dirty, s.cap);
  }

  lemma TurnKeeps(s: State, q: nat)
    requires MidRead(s, q)
    ensures Enabled(s, NextAction(s.readers[q], q))
    ensures var s' := WithReader(s, q, AfterTurn(s, q));
            && s' == Apply(s, NextAction(s.readers[q], q)) && RingInv(s')
            && ReaderInv(s'.readers[q], s.log, s.freePos, s.dirty, s.cap)
            && Protected(s', q) && s'.readers[q].active && s'.readers[q].first == s.readers[q].first
  {
    TurnEnabled(s, q);
    var a := NextAction(s.readers[q], q);
    TurnChangesReader(s, q);
    StepKeepsRing(s, a);
    StepKeepsReader(s, a, q);
    ReaderStepProtects(s, a, q);
    hide Apply, Enabled, RingInv, ReaderInv, Protected;
  }

  /** `rd` is the reader at the end of its read in state `s`, still protected. */
  predicate Finished(s: State, q: nat, rd: Reader)
    requires Shape(s) && q < |s.readers|
  {
    && PcShape(rd.pc, s.cap)
    && rd.active && rd.first == s.readers[q].first
    && ReaderInv(rd, s.log, s.freePos, s.dirty, s.cap)
    && Protected(WithReader(s, q, rd), q)
    && RingInv(WithReader(s, q, rd))
    && Ended(rd, s.log, s.freePos)
  }

  lemma SameFinish(s: State, q: nat, rd: Reader, end: Reader)
    requires Shape(s) && q < |s.readers| && PcShape(rd.pc, s.cap) && rd.first == s.readers[q].first
    requires Finished(WithReader(s, q, rd), q, end)
    ensures WithReader(WithReader(s, q, rd), q, end) == WithReader(s, q, end) && Finished(s, q, end)
  {
    assert WithReader(WithReader(s, q, rd), q, end) == WithReader(s, q, end);
    hide ReaderInv, Protected, RingInv, Ended;
  }

  /** Left alone, the reader finishes its read. */
  lemma {:induction false} FinishesAlone(from: State, s: State, kind: Kind, q: nat)
    requires Leads(from, s, kind) && Lets(kind, q) && MidRead(s, q)
    ensures exists rd :: Finished(s, q, rd) && Leads(from, WithReader(s, q, rd), kind)
    decreases s.freePos - s.readers[q].pos, Phase(s.readers[q].pc, s.cap)
  {
    TurnEnabled(s, q);
    TurnKeeps(s, q);
    TurnProgress(s, q);
    var a, rd := NextAction(s.readers[q], q), AfterTurn(s, q);
    var s' := WithReader(s, q, rd);
    assert Permitted(kind, s, a);
    hide Leads, Apply, Enabled, AfterTurn, Protected, Permitted, CleanCheck, Phase;
    LeadsOn(from, s, kind, a);
    if Quiescent(rd) {
      TurnEnds(s, q);
      assert Finished(s, q, rd);
    } else {
      assert MidRead(s', q);
      TurnEnabled(s', q);
      FinishesAlone(from, s', kind, q);
      var end :| Finished(s', q, end) && Leads(from, WithReader(s', q, end), kind);
      SameFinish(s, q, rd, end);
    }
  }
}
