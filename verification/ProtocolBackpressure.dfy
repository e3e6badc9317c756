/** Runs in which writers honour backpressure: nothing a reader has yet to read is
    ever stored over, even byte by byte and across writer deaths. */
module ProtocolBackpressure {
  import opened Bytes
  import opened Positions
  import opened Records
  import opened Protocol
  import opened Slots
  import opened ProtocolInvariants
  import opened ProtocolRuns

  /** The stream end the writer may reach without looking at slot `r` again. */
  function Committed(s: State, r: nat): (end: nat)
    requires Shape(s)
    ensures end >= s.freePos
  {
    match s.writer
    case Idle => s.freePos
    case Blocked(_) => s.freePos
    case Scanning(data, slot) => if r < slot then s.freePos + BytesToWrite(data, s.freePos, s.cap) else s.freePos
    case Storing(data, _) => s.freePos + BytesToWrite(data, s.freePos, s.cap)
  }

  /** Nothing was stored over the record at `pos`, and no writer may move the stream
      end a lap past it without looking at slot `r` first. */
  predicate Clear(s: State, r: nat, pos: nat)
    requires Shape(s)
  {
    s.dirty <= pos + s.cap && Committed(s, r) < pos + s.cap
  }

  /** What an honoured run adds to each step: the handler never answers "write
      anyhow", and a reader is not lapped between loading the stream end and setting
      its slot. Messages may have any size the buffer takes. */
  predicate Honours(s: State, a: Action)
    requires Shape(s)
  {
    match a
    case Force => false
    case Enter(r) => r < |s.readers| ==> Clear(s, r, s.readers[r].pos)
    case _ => true
  }

  predicate HonouredRun(states: seq<State>, acts: seq<Action>) {
    && IsRun(states, acts)
    && (forall i :: 0 <= i < |acts| ==> Honours(states[i], acts[i]))
  }

  predicate Protected(s: State, r: nat)
    requires Shape(s) && r < |s.readers|
  {
    var rd := s.readers[r];
    && (rd.active ==> Clear(s, r, rd.bpos) && rd.bpos <= rd.pos)
    && (if rd.active then !rd.pc.Entering? else Quiescent(rd) || rd.pc.Entering?)
  }

  lemma BytesAfterFiller(payload: seq<Byte>, pos: nat, cap: nat)
    requires cap > 0 && HEADER_SIZE + |payload| <= cap
    requires !NextRecord(payload, pos, cap).Msg?
    ensures var left := Size(NextRecord(payload, pos, cap));
            left + BytesToWrite(payload, pos + left, cap) == BytesToWrite(payload, pos, cap)
  {
    AfterFiller(payload, pos, cap);
  }

  /** Storing and publishing stay within what the scan allowed. */
  lemma StoringKeepsClear(s: State, a: Action, r: nat, pos: nat)
    requires RingInv(s) && Enabled(s, a) && s.writer.Storing? && OfWriter(a) && Clear(s, r, pos)
    ensures Clear(Apply(s, a), r, pos)
  {
    if !Current(s).Msg? { BytesAfterFiller(s.writer.data, s.freePos, s.cap); }
    hide EncodeHeader, Holds, StoredSoFar, HeaderOf, NextRecord;
  }

  /** Before storing, what a writer may reach rises for a slot only when that slot is
      inspected and found not to block. */
  lemma ScanKeepsClear(s: State, a: Action, r: nat, pos: nat)
    requires RingInv(s) && Enabled(s, a) && OfWriter(a) && !a.Force? && !s.writer.Storing?
    requires r < |s.readers| && Clear(s, r, pos)
    ensures Clear(Apply(s, a), r, pos)
         || (s.writer.Scanning? && s.writer.slot == r
             && (var rd, n := s.readers[r], BytesToWrite(s.writer.data, s.freePos, s.cap);
                 !Blocks(rd.active, rd.bpos, s.freePos, n, s.cap) && Expired(pos, s.freePos + n, s.cap)))
  {
    hide Holds, StoredSoFar, NextRecord, BytesToWrite, Blocks;
  }

  lemma WriterStepProtects(s: State, a: Action, r: nat)
    requires RingInv(s) && Enabled(s, a) && OfWriter(a) && !a.Force?
    requires r < |s.readers| && Protected(s, r)
    ensures Apply(s, a).readers == s.readers && Protected(Apply(s, a), r)
  {
    WriterStepEffect(s, a);
    var rd := s.readers[r];
    if rd.active {
      if s.writer.Storing? { StoringKeepsClear(s, a, r, rd.bpos); } else { ScanKeepsClear(s, a, r, rd.bpos); }
    }
    hide Holds, StoredSoFar, Apply, Enabled, Committed, Shape;
  }

  /** Reader steps leave alone what writers may reach. */
  lemma ReadersKeepClear(s: State, a: Action, r: nat, pos: nat)
    requires Shape(s) && Enabled(s, a) && !OfWriter(a)
    ensures Clear(Apply(s, a), r, pos) <==> Clear(s, r, pos)
  {
    hide ReaderStep, AnswerCopy, BytesToWrite;
  }

  lemma ReaderStepProtects(s: State, a: Action, r: nat)
    requires RingInv(s) && Enabled(s, a) && !OfWriter(a) && (a == Enter(r) ==> Honours(s, a))
    requires r < |s.readers| && Protected(s, r)
    ensures |Apply(s, a).readers| == |s.readers| && Protected(Apply(s, a), r)
  {
    forall pos: nat ensures Clear(Apply(s, a), r, pos) <==> Clear(s, r, pos) { ReadersKeepClear(s, a, r, pos); }
    hide DecodeHeader, RingInv, Clear;
  }

  lemma {:induction false} ProtectedOverRun(states: seq<State>, acts: seq<Action>, i: nat)
    requires HonouredRun(states, acts) && i < |states|
    ensures forall r :: 0 <= r < |states[i].readers| ==> Protected(states[i], r)
  {
    if i > 0 {
      var s, a := states[i - 1], acts[i - 1];
      ProtectedOverRun(states, acts, i - 1);
      RingOverRun(states, acts, i - 1);
      SameReaders(s, a);
      forall r | 0 <= r < |states[i].readers|
        ensures Protected(states[i], r)
      {
        if OfWriter(a) { WriterStepProtects(s, a, r); } else { ReaderStepProtects(s, a, r); }
      }
    }
  }

  /** No byte of any record an active reader has yet to read was stored over, and
      its position is not expired. */
  lemma NothingLost(states: seq<State>, acts: seq<Action>, i: nat, r: nat)
    requires HonouredRun(states, acts) && i < |states| && r < |states[i].readers|
    requires states[i].readers[r].active
    ensures var s := states[i]; var rd := s.readers[r];
            && !Expired(rd.pos, s.freePos, s.cap)
            && s.dirty <= rd.bpos + s.cap <= rd.pos + s.cap
            && (forall k :: 0 <= k < |s.log| && rd.pos <= s.log[k].pos ==> Stored(s.buf, s.cap, s.log[k]))
  {
    ProtectedOverRun(states, acts, i);
    RingOverRun(states, acts, i);
    assert Protected(states[i], r);
  }

  /** Honoured backpressure makes every check clean, byte-level stores and
      crashes included. */
  lemma HonouredIsClean(states: seq<State>, acts: seq<Action>)
    requires HonouredRun(states, acts)
    ensures CleanRun(states, acts)
  {
    forall i | 0 <= i < |acts|
      ensures CleanCheck(states[i], acts[i])
    {
      if acts[i].Step? {
        ProtectedOverRun(states, acts, i);
        RingOverRun(states, acts, i);
        assert Protected(states[i], acts[i].r);
      }
    }
  }

  // ----- Expiry is reported at unreadable records only -----

  predicate ExpiryJustified(rd: Reader, log: Log) {
    rd.pc == Returned(Expiry) ==> rd.at < |log| && Unreadable(log[rd.at].rec)
  }

  lemma DecisionJustified(rd: Reader, buf: seq<Byte>, log: Log, freePos: nat, dirty: nat, cap: nat)
    requires Holds(buf, cap, log, freePos, dirty) && ReaderInv(rd, log, freePos, dirty, cap)
    requires PcShape(rd.pc, cap) && CanStep(rd)
    requires !Expired(rd.pos, freePos, cap) && Intact(rd.pos, dirty, cap)
    ensures ExpiryJustified(ReaderStep(rd, buf, freePos, cap), log)
  {
    hide Messages, EncodeHeader, DecodeHeader, Image, Stored;
    if rd.pc.Loading? && |rd.pc.header| == HEADER_SIZE {
      assert Link(log, freePos, cap, rd.at);
      HeaderStep(rd.pc.header, log[rd.at].rec, rd.pos, cap);
    }
  }

  /** Steps of others leave a reader's reason to report expiry in place. */
  lemma OthersKeepJustified(s: State, a: Action, r: nat)
    requires RingInv(s) && Enabled(s, a) && r < |s.readers| && a != Step(r)
    requires ExpiryJustified(s.readers[r], s.log)
    ensures |Apply(s, a).readers| == |s.readers| && ExpiryJustified(Apply(s, a).readers[r], Apply(s, a).log)
  {
    StepKeepsRing(s, a);
    hide RingInv, ReaderStep, Unreadable;
  }

  lemma StepJustified(s: State, r: nat)
    requires RingInv(s) && ReadersInv(s) && Enabled(s, Step(r)) && Protected(s, r)
    ensures ExpiryJustified(Apply(s, Step(r)).readers[r], Apply(s, Step(r)).log)
  {
    var rd := s.readers[r];
    assert ReaderInv(rd, s.log, s.freePos, s.dirty, s.cap);
    DecisionJustified(rd, s.buf, s.log, s.freePos, s.dirty, s.cap);
    hide ReaderStep, ExpiryJustified;
  }

  /** In an honoured run a read ends in expiry exactly at a record with a zero
      length: an empty message, or the padding a write lays when just a header is
      left before the end of the buffer. */
  lemma {:induction false} ExpiryOnlyAtUnreadable(states: seq<State>, acts: seq<Action>, i: nat, r: nat)
    requires HonouredRun(states, acts) && i < |states| && r < |states[i].readers|
    ensures ExpiryJustified(states[i].readers[r], states[i].log)
  {
    if i > 0 {
      var s, a := states[i - 1], acts[i - 1];
      SameReaders(s, a);
      ExpiryOnlyAtUnreadable(states, acts, i - 1, r);
      HonouredIsClean(states, acts);
      ReadersOverRun(states, acts, i - 1);
      ProtectedOverRun(states, acts, i - 1);
      hide CleanRun, RingInv, ReadersInv, Protected, Apply, ExpiryJustified;
      if a == Step(r) { StepJustified(s, r); } else { OthersKeepJustified(s, a, r); }
    }
  }

  // ----- A condition under which no reader ever expires -----

  predicate Even(n: nat) {
    n % 2 == 0
  }

  /** Every payload has odd length, so that records have even sizes. */
  predicate OddPayloads(acts: seq<Action>) {
    forall i :: 0 <= i < |acts| && acts[i].Begin? ==> !Even(|acts[i].data|)
  }

  predicate AllReadable(log: Log) {
    forall k :: 0 <= k < |log| ==> !Unreadable(log[k].rec)
  }

  predicate EvenlyPlaced(s: State) {
    && Even(s.freePos) && Even(s.cap)
    && (!s.writer.Idle? ==> !Even(|s.writer.data|))
    && AllReadable(s.log)
  }

  lemma EvenSum(a: nat, b: nat)
    requires Even(b)
    ensures Even(a + b) <==> Even(a)
  {
  }

  lemma EvenMultiple(q: nat, cap: nat)
    requires Even(cap)
    ensures Even(q * cap)
  {
    var n := q * (cap / 2);
    assert q * (2 * (cap / 2)) == 2 * n;
  }

  lemma EvenIndex(pos: nat, cap: nat)
    requires cap > 0 && Even(cap) && Even(pos)
    ensures Even(cap - pos % cap)
  {
    hide Even;
    var q, ix := pos / cap, pos % cap;
    assert pos == ix + q * cap;
    EvenMultiple(q, cap);
    EvenSum(ix, q * cap);
    EvenSum(cap - ix, ix);
  }

  lemma EvenRecord(data: seq<Byte>, pos: nat, cap: nat)
    requires HEADER_SIZE + |data| <= cap && Even(cap) && Even(pos) && !Even(|data|)
    ensures var rec := NextRecord(data, pos, cap); !Unreadable(rec) && Even(Size(rec))
  {
    EvenIndex(pos, cap);
    var left := cap - pos % cap;
    assert NextRecord(data, pos, cap)
        == if left < HEADER_SIZE then Blank(left)
           else if left < |data| + HEADER_SIZE then Pad(left - HEADER_SIZE)
           else Msg(data);
    hide NextRecord;
  }

  lemma EvenPublish(s: State)
    requires Shape(s) && s.writer.Storing? && Enabled(s, Publish) && EvenlyPlaced(s)
    ensures EvenlyPlaced(Apply(s, Publish))
  {
    var rec := Current(s);
    EvenRecord(s.writer.data, s.freePos, s.cap);
    EvenSum(s.freePos, Size(rec));
    hide NextRecord, Image, Unreadable, Size, Shape, Even;
  }

  lemma EvenStep(s: State, a: Action)
    requires Shape(s) && Enabled(s, a) && EvenlyPlaced(s)
    requires a.Begin? ==> !Even(|a.data|)
    ensures EvenlyPlaced(Apply(s, a))
  {
    if a.Publish? {
      EvenPublish(s);
    } else {
      hide EncodeHeader, Image, ReaderStep, AnswerCopy, NextRecord, Blocks, BytesToWrite, AllReadable, Even;
    }
  }

  lemma {:induction false} EvenOverRun(states: seq<State>, acts: seq<Action>, i: nat)
    requires IsRun(states, acts) && OddPayloads(acts) && i < |states| && Even(states[0].cap)
    ensures EvenlyPlaced(states[i])
  {
    if i > 0 {
      EvenOverRun(states, acts, i - 1);
      EvenStep(states[i - 1], acts[i - 1]);
    }
  }

  /** With honoured backpressure and payloads of odd length no read ever ends in
      expiry: records then start at even positions, so never just a header is left
      before the end of a buffer of even size. */
  lemma OddPayloadsNeverExpire(states: seq<State>, acts: seq<Action>, i: nat, r: nat)
    requires HonouredRun(states, acts) && OddPayloads(acts) && i < |states| && r < |states[i].readers|
    requires Even(states[0].cap)
    ensures states[i].readers[r].pc != Returned(Expiry)
  {
    ExpiryOnlyAtUnreadable(states, acts, i, r);
    EvenOverRun(states, acts, i);
  }
}
