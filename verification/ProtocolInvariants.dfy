/** What every step of the protocol keeps: the ring invariant without any side
    condition, the reader invariant whenever no write is in flight over a record
    at the moment its reader checks for expiry. */
module ProtocolInvariants {
  import opened Bytes
  import opened Positions
  import opened Records
  import opened Protocol
  import opened Slots

  // ----- The ring -----

  predicate StoredSoFar(s: State)
    requires Shape(s) && s.writer.Storing?
  {
    forall k :: k in s.writer.stored ==>
      k < |Image(Current(s))| && s.buf[s.freePos % s.cap + k] == Image(Current(s))[k] && s.freePos + k < s.dirty
  }

  predicate RingInv(s: State) {
    && Shape(s)
    && Holds(s.buf, s.cap, s.log, s.freePos, s.dirty)
    && s.dirty <= s.freePos + s.cap
    && (s.writer.Storing? ==> StoredSoFar(s))
  }

  lemma StoreByteKeepsRing(s: State, k: nat)
    requires RingInv(s) && Enabled(s, StoreByte(k))
    ensures RingInv(Apply(s, StoreByte(k)))
  {
    hide EncodeHeader, Holds, NextRecord, Image;
    StoreKeepsHolds(s.buf, s.cap, s.log, s.freePos, s.dirty, s.freePos + k, Image(Current(s))[k]);
    IndexOffset(s.freePos, k, s.cap);
  }

  lemma PublishKeepsRing(s: State)
    requires RingInv(s) && Enabled(s, Publish)
    ensures RingInv(Apply(s, Publish))
  {
    hide EncodeHeader;
    PublishKeepsHolds(s.buf, s.cap, s.log, s.freePos, s.dirty, Current(s));
  }

  /** A step that neither stores nor publishes leaves the ring alone. */
  lemma QuietStep(s: State, a: Action)
    requires Shape(s) && Enabled(s, a) && !a.StoreByte? && !a.Publish?
    ensures var s' := Apply(s, a);
            && s'.cap == s.cap && s'.buf == s.buf && s'.log == s.log && s'.freePos == s.freePos && s'.dirty == s.dirty
            && (s'.writer.Storing? ==> s'.writer == s.writer || s'.writer.stored == {})
  {
    hide ReaderStep, AnswerCopy, Blocks, BytesToWrite, Image, NextRecord;
  }

  lemma {:induction false} StepKeepsRing(s: State, a: Action)
    requires RingInv(s) && Enabled(s, a)
    ensures RingInv(Apply(s, a))
    ensures s.log <= Apply(s, a).log && s.dirty <= Apply(s, a).dirty && s.cap == Apply(s, a).cap
  {
    match a
    case StoreByte(k) => StoreByteKeepsRing(s, k);
    case Publish => PublishKeepsRing(s);
    case _ =>
      QuietStep(s, a);
      hide Apply, Enabled, Holds, Image, NextRecord;
  }

  // ----- Readers -----

  /** The outcomes of a reader account for exactly the messages `ms`, in order. */
  predicate Tally(outcomes: seq<Outcome>, ms: seq<seq<Byte>>) {
    && |outcomes| == |ms|
    && (forall k :: 0 <= k < |ms| ==> outcomes[k] == Confirmed(ms[k]) || outcomes[k] == Declined)
  }

  /** The reader stands at a record boundary it reached by passing exactly the
      records from its activation point on. */
  predicate Placed(rd: Reader, log: Log, freePos: nat) {
    && rd.first <= rd.at <= |log|
    && rd.pos == PosOf(log, freePos, rd.at)
    && Tally(rd.outcomes, Messages(log[rd.first..rd.at]))
    && (forall i :: rd.first <= i < rd.at ==> !Unreadable(log[i].rec))
  }

  /** The record at `pos` has not been stored over. */
  predicate Intact(pos: nat, dirty: nat, cap: nat) {
    dirty <= pos + cap
  }

  /** What the reader holds in local variables agrees with the record `rec` at
      its position, unless that has been stored over. */
  predicate Reading(rd: Reader, rec: Record, ix: nat, intact: bool) {
    match rd.pc
    case EarlyCheck(i) => i == ix && !rec.Blank?
    case Loading(i, header) => i == ix && !rec.Blank? && (intact ==> header <= Image(rec))
    case Copying(i, length, copied) =>
      i == ix && rec.Msg? && length == |rec.payload| > 0 && (intact ==> copied <= rec.payload)
    case ConfirmCheck(payload) =>
      rec.Msg? && |payload| == |rec.payload| > 0 && (intact ==> payload == rec.payload)
    case _ => true
  }

  predicate InRecord(pc: ReaderPc) {
    pc.EarlyCheck? || pc.Loading? || pc.Copying? || pc.ConfirmCheck?
  }

  predicate ReaderInv(rd: Reader, log: Log, freePos: nat, dirty: nat, cap: nat)
    requires cap > 0
  {
    && Placed(rd, log, freePos)
    && !rd.pc.Aborted? && rd.pc != Returned(Invalid) && rd.pc != Returned(Fault)
    && (InRecord(rd.pc) ==>
          rd.at < |log| && Reading(rd, log[rd.at].rec, rd.pos % cap, Intact(rd.pos, dirty, cap)))
  }

  predicate ReadersInv(s: State)
    requires s.cap > 0
  {
    forall r :: 0 <= r < |s.readers| ==> ReaderInv(s.readers[r], s.log, s.freePos, s.dirty, s.cap)
  }

  /** When a reader's check for expiry decides, the record it read is either
      seen as expired or really untouched: no store is so far ahead of the
      published stream end that it reached the record. */
  predicate CleanCheck(s: State, a: Action) {
    a.Step? && a.r < |s.readers| && Deciding(s.readers[a.r].pc) ==>
      var pos := s.readers[a.r].pos;
      Expired(pos, s.freePos, s.cap) || Intact(pos, s.dirty, s.cap)
  }

  predicate Deciding(pc: ReaderPc) {
    (pc.Loading? && |pc.header| == HEADER_SIZE) || pc.ConfirmCheck?
  }

  /** Steps of others only append to the log and raise `dirty`. */
  lemma ReaderInvFramed(rd: Reader, log: Log, freePos: nat, dirty: nat, cap: nat,
                        log': Log, freePos': nat, dirty': nat)
    requires cap > 0 && ReaderInv(rd, log, freePos, dirty, cap)
    requires log <= log' && dirty <= dirty'
    requires freePos == PosOf(log', freePos', |log|)
    ensures ReaderInv(rd, log', freePos', dirty', cap)
  {
    assert log'[rd.first..rd.at] == log[rd.first..rd.at];
  }

  lemma TallyNext(outcomes: seq<Outcome>, ms: seq<seq<Byte>>, passed: seq<Outcome>, next: seq<seq<Byte>>)
    requires Tally(outcomes, ms) && Tally(passed, next)
    ensures Tally(outcomes + passed, ms + next)
  {
  }

  /** Past an intact record, with its message accounted for. */
  lemma AdvanceKeepsPlaced(rd: Reader, log: Log, freePos: nat, cap: nat, passed: seq<Outcome>)
    requires cap > 0 && Chained(log, freePos, cap) && Placed(rd, log, freePos)
    requires rd.at < |log| && !log[rd.at].rec.Blank? && !Unreadable(log[rd.at].rec)
    requires var rec := log[rd.at].rec;
             if rec.Msg? then passed == [Declined] || passed == [Confirmed(rec.payload)] else passed == []
    ensures Placed(Advance(rd.(outcomes := rd.outcomes + passed), Size(log[rd.at].rec) - HEADER_SIZE, cap),
                   log, freePos)
  {
    hide Messages, Fits;
    var rec := log[rd.at].rec;
    assert Link(log, freePos, cap, rd.at);
    MessagesNext(log, rd.first, rd.at);
    TallyNext(rd.outcomes, Messages(log[rd.first..rd.at]), passed, if rec.Msg? then [rec.payload] else []);
    hide Tally;
  }

  /** The header loaded from an intact record decides rightly. */
  lemma HeaderStep(header: seq<Byte>, rec: Record, pos: nat, cap: nat)
    requires 0 < cap <= LENGTH_LIMIT
    requires |header| == HEADER_SIZE && !rec.Blank? && header <= Image(rec)
    requires Fits(rec, pos, cap)
    ensures DecodeHeader(header) == HeaderOf(rec)
  {
    DecodeEncodeHeader(HeaderOf(rec));
    assert header == EncodeHeader(HeaderOf(rec));
  }

  /** At the loop head: either the stream end, or a blank to skip, or a record
      with a header. */
  lemma HeadStepKeepsInv(rd: Reader, buf: seq<Byte>, log: Log, freePos: nat, dirty: nat, cap: nat)
    requires Holds(buf, cap, log, freePos, dirty) && ReaderInv(rd, log, freePos, dirty, cap)
    requires rd.pc.Head?
    ensures ReaderInv(ReaderStep(rd, buf, freePos, cap), log, freePos, dirty, cap)
  {
    hide Stored, Tally, Messages;
    if rd.at < |log| {
      assert Link(log, freePos, cap, rd.at);
      MessagesNext(log, rd.first, rd.at);
    }
  }

  /** The next header or payload byte of an intact record is the right one. */
  lemma LoadedByte(rd: Reader, buf: seq<Byte>, cap: nat, e: Entry)
    requires cap > 0 && |buf| == cap && Stored(buf, cap, e)
    requires PcShape(rd.pc, cap) && Reading(rd, e.rec, e.pos % cap, true)
    ensures rd.pc.Loading? && |rd.pc.header| < HEADER_SIZE ==>
              rd.pc.header + [buf[rd.pc.ix + |rd.pc.header|]] <= Image(e.rec)
    ensures rd.pc.Copying? && |rd.pc.copied| < rd.pc.length ==>
              rd.pc.copied + [buf[rd.pc.ix + HEADER_SIZE + |rd.pc.copied|]] <= e.rec.payload
  {
    hide EncodeHeader;
    if rd.pc.Loading? && |rd.pc.header| < HEADER_SIZE {
      assert buf[e.pos % cap + |rd.pc.header|] == Image(e.rec)[|rd.pc.header|];
    }
    if rd.pc.Copying? && |rd.pc.copied| < rd.pc.length {
      var k := HEADER_SIZE + |rd.pc.copied|;
      assert buf[e.pos % cap + k] == Image(e.rec)[k];
    }
  }

  lemma LoadStepKeepsInv(rd: Reader, buf: seq<Byte>, log: Log, freePos: nat, dirty: nat, cap: nat)
    requires Holds(buf, cap, log, freePos, dirty) && ReaderInv(rd, log, freePos, dirty, cap)
    requires PcShape(rd.pc, cap) && CanStep(rd)
    requires (rd.pc.Loading? && |rd.pc.header| < HEADER_SIZE) || rd.pc.Copying?
    ensures ReaderInv(ReaderStep(rd, buf, freePos, cap), log, freePos, dirty, cap)
  {
    if Intact(rd.pos, dirty, cap) { LoadedByte(rd, buf, cap, log[rd.at]); }
    hide Tally, Messages, EncodeHeader, Image, Chained, Stored;
  }

  lemma DecisionKeepsInv(rd: Reader, buf: seq<Byte>, log: Log, freePos: nat, dirty: nat, cap: nat)
    requires Holds(buf, cap, log, freePos, dirty) && ReaderInv(rd, log, freePos, dirty, cap)
    requires PcShape(rd.pc, cap) && Deciding(rd.pc)
    requires Expired(rd.pos, freePos, cap) || Intact(rd.pos, dirty, cap)
    ensures ReaderInv(ReaderStep(rd, buf, freePos, cap), log, freePos, dirty, cap)
  {
    hide Messages, EncodeHeader, DecodeHeader, Image, Stored;
    if !Expired(rd.pos, freePos, cap) {
      assert Link(log, freePos, cap, rd.at);
      var rec := log[rd.at].rec;
      match rd.pc
      case Loading(ix, header) =>
        HeaderStep(header, rec, rd.pos, cap);
        if rec.Pad? && !Unreadable(rec) {
          AdvanceKeepsPlaced(rd, log, freePos, cap, []);
        }
      case ConfirmCheck(payload) =>
        AdvanceKeepsPlaced(rd, log, freePos, cap, [Confirmed(payload)]);
    }
  }

  lemma ReaderStepKeepsInv(s: State, r: nat)
    requires RingInv(s) && Enabled(s, Step(r)) && CleanCheck(s, Step(r))
    requires ReaderInv(s.readers[r], s.log, s.freePos, s.dirty, s.cap)
    ensures ReaderInv(ReaderStep(s.readers[r], s.buf, s.freePos, s.cap), s.log, s.freePos, s.dirty, s.cap)
  {
    var rd := s.readers[r];
    match rd.pc
    case Head => HeadStepKeepsInv(rd, s.buf, s.log, s.freePos, s.dirty, s.cap);
    case EarlyCheck(_) =>
    case Loading(_, header) =>
      if |header| < HEADER_SIZE {
        LoadStepKeepsInv(rd, s.buf, s.log, s.freePos, s.dirty, s.cap);
      } else {
        DecisionKeepsInv(rd, s.buf, s.log, s.freePos, s.dirty, s.cap);
      }
    case Copying(_, _, _) => LoadStepKeepsInv(rd, s.buf, s.log, s.freePos, s.dirty, s.cap);
    case ConfirmCheck(_) => DecisionKeepsInv(rd, s.buf, s.log, s.freePos, s.dirty, s.cap);
  }

  lemma AnswerKeepsInv(rd: Reader, accept: bool, log: Log, freePos: nat, dirty: nat, cap: nat)
    requires cap > 0 && Chained(log, freePos, cap) && ReaderInv(rd, log, freePos, dirty, cap)
    requires rd.pc.Copying? && |rd.pc.copied| == rd.pc.length
    ensures ReaderInv(AnswerCopy(rd, accept, cap), log, freePos, dirty, cap)
  {
    if !accept {
      AdvanceKeepsPlaced(rd, log, freePos, cap, [Declined]);
    }
  }

  predicate OfWriter(a: Action) {
    a.Begin? || a.Inspect? || a.Wait? || a.Force? || a.StoreByte? || a.Publish? || a.Crash?
  }

  lemma WriterStepEffect(s: State, a: Action)
    requires RingInv(s) && Enabled(s, a) && OfWriter(a)
    ensures Apply(s, a).readers == s.readers
    ensures Apply(s, a).cap == s.cap && s.log <= Apply(s, a).log && s.dirty <= Apply(s, a).dirty
    ensures s.freePos == PosOf(Apply(s, a).log, Apply(s, a).freePos, |s.log|)
  {
    hide EncodeHeader, Image, NextRecord, Holds, StoredSoFar, Blocks, BytesToWrite;
  }

  lemma StepKeepsReader(s: State, a: Action, r: nat)
    requires RingInv(s) && Enabled(s, a) && CleanCheck(s, a)
    requires r < |s.readers| && ReaderInv(s.readers[r], s.log, s.freePos, s.dirty, s.cap)
    ensures Apply(s, a).cap == s.cap && |Apply(s, a).readers| == |s.readers|
    ensures ReaderInv(Apply(s, a).readers[r], Apply(s, a).log, Apply(s, a).freePos, Apply(s, a).dirty, s.cap)
  {
    var rd := s.readers[r];
    var s' := Apply(s, a);
    if OfWriter(a) {
      WriterStepEffect(s, a);
      ReaderInvFramed(rd, s.log, s.freePos, s.dirty, s.cap, s'.log, s'.freePos, s'.dirty);
      hide Apply, ReaderInv, RingInv, Enabled;
    } else {
      if a == Step(r) {
        ReaderStepKeepsInv(s, r);
        hide ReaderInv, ReaderStep, Holds, RingInv;
      } else if a.Answer? && a.r == r {
        AnswerKeepsInv(rd, a.accept, s.log, s.freePos, s.dirty, s.cap);
        hide ReaderInv, AnswerCopy, Holds;
      } else {
        assert rd.at < |s.log| ==> Link(s.log, s.freePos, s.cap, rd.at);
        hide ReaderStep, AnswerCopy, Holds;
        assert s.log[|s.log|..|s.log|] == [];
      }
    }
  }

  /** Whatever one reader or writer does, every reader's invariant survives. */
  lemma {:induction false} StepKeepsReaders(s: State, a: Action)
    requires RingInv(s) && ReadersInv(s) && Enabled(s, a) && CleanCheck(s, a)
    ensures RingInv(Apply(s, a)) && ReadersInv(Apply(s, a))
  {
    StepKeepsRing(s, a);
    hide RingInv, Apply, Enabled, ReaderInv, CleanCheck;
    forall r | 0 <= r < |Apply(s, a).readers|
      ensures ReaderInv(Apply(s, a).readers[r], Apply(s, a).log, Apply(s, a).freePos, Apply(s, a).dirty, s.cap)
    {
      assert |Apply(s, a).readers| == |s.readers| by { SameReaders(s, a); }
      StepKeepsReader(s, a, r);
    }
  }

  lemma SameReaders(s: State, a: Action)
    requires Shape(s) && Enabled(s, a)
    ensures |Apply(s, a).readers| == |s.readers|
  {
  }
}
