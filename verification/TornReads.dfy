/** How far a torn read can lead a reader astray. In every run at all, with writes forced
    and readers overtaken, a reader never gets past the stream end, and it is back at a
    record boundary at the latest with the next lap. */
module TornReads {
  import opened Bytes
  import opened Records
  import opened Protocol
  import opened ProtocolInvariants
  import opened ProtocolRuns

  // ----- Laps -----

  /** The first position of the next lap of the buffer. */
  function LapEnd(pos: nat, cap: nat): (end: nat)
    requires cap > 0
    ensures pos < end <= pos + cap
  {
    pos + (cap - pos % cap)
  }

  /** Positions up to the end of a lap belong to it. */
  lemma SameLap(pos: nat, later: nat, cap: nat)
    requires cap > 0 && pos <= later < LapEnd(pos, cap)
    ensures LapEnd(later, cap) == LapEnd(pos, cap) && later % cap == pos % cap + (later - pos)
  {
    IndexOffset(pos, later - pos, cap);
  }

  lemma LapsAscend(pos: nat, later: nat, cap: nat)
    requires cap > 0 && pos <= later
    ensures LapEnd(pos, cap) <= LapEnd(later, cap)
  {
    if later < LapEnd(pos, cap) { SameLap(pos, later, cap); }
  }

  ghost predicate IsBoundary(log: Log, freePos: nat, pos: nat) {
    exists k: nat :: k <= |log| && PosOf(log, freePos, k) == pos
  }

  /** No record crosses the end of a lap, so laps start at record boundaries. */
  lemma {:induction false} LapStartsRecord(log: Log, freePos: nat, cap: nat, p: nat, k: nat)
    requires cap > 0 && Chained(log, freePos, cap) && p % cap == 0 && p <= freePos
    requires k <= |log| && PosOf(log, freePos, k) <= p
    ensures IsBoundary(log, freePos, p)
    decreases |log| - k
  {
    if PosOf(log, freePos, k) < p {
      assert Link(log, freePos, cap, k);
      var pos, next := log[k].pos, PosOf(log, freePos, k + 1);
      if p < next {
        SameLap(pos, p, cap);
        assert false;
      }
      LapStartsRecord(log, freePos, cap, p, k + 1);
    }
  }

  // ----- Stores stay in the lap of the stream end -----

  predicate InLap(s: State) {
    s.cap > 0 && s.dirty <= LapEnd(s.freePos, s.cap)
  }

  lemma StepStaysInLap(s: State, a: Action)
    requires RingInv(s) && Enabled(s, a) && InLap(s)
    ensures InLap(Apply(s, a))
  {
    match a
    case StoreByte(k) =>
      hide Image, Holds, StoredSoFar;
    case Publish =>
      LapsAscend(s.freePos, s.freePos + Size(Current(s)), s.cap);
      hide LapEnd, Image, Holds, StoredSoFar;
    case _ =>
      QuietStep(s, a);
      hide Apply, Enabled, RingInv, LapEnd;
  }

  // ----- Readers -----

  /** What the reader holds of an untouched record `k` is right. */
  predicate OnRecord(rd: Reader, log: Log, freePos: nat, dirty: nat, cap: nat, k: nat)
    requires cap > 0
  {
    && k <= |log| && PosOf(log, freePos, k) == rd.pos
    && (InRecord(rd.pc) ==>
          k < |log| && (Intact(rd.pos, dirty, cap) ==> Reading(rd, log[k].rec, rd.pos % cap, true)))
  }

  /** The reader is at a record boundary, or astray in a lap that writers have left. */
  ghost predicate Follows(rd: Reader, log: Log, freePos: nat, dirty: nat, cap: nat)
    requires cap > 0
  {
    && rd.pos <= freePos && rd.pc != Returned(Invalid)
    && (LapEnd(rd.pos, cap) <= freePos || exists k: nat :: OnRecord(rd, log, freePos, dirty, cap, k))
    && (InRecord(rd.pc) ==> rd.pos < freePos && InRecordShape(rd, cap))
  }

  /** Indices and lengths in hand keep within the lap. */
  predicate InRecordShape(rd: Reader, cap: nat)
    requires cap > 0
  {
    match rd.pc
    case EarlyCheck(ix) => ix == rd.pos % cap && ix + HEADER_SIZE <= cap
    case Loading(ix, _) => ix == rd.pos % cap && ix + HEADER_SIZE <= cap
    case Copying(ix, length, _) => ix == rd.pos % cap && ix + HEADER_SIZE + length <= cap
    case ConfirmCheck(payload) => rd.pos % cap + HEADER_SIZE + |payload| <= cap
    case _ => true
  }

  /** In the lap of the stream end nothing was stored over. */
  lemma UntouchedInLap(pos: nat, freePos: nat, dirty: nat, cap: nat)
    requires cap > 0 && pos <= freePos < LapEnd(pos, cap) && dirty <= LapEnd(freePos, cap)
    ensures Intact(pos, dirty, cap)
  {
    SameLap(pos, freePos, cap);
  }

  /** The ring part of a state, as far as readers depend on it. */
  predicate Ring(buf: seq<Byte>, log: Log, freePos: nat, dirty: nat, cap: nat) {
    Holds(buf, cap, log, freePos, dirty) && dirty <= LapEnd(freePos, cap)
  }

  /** The next position, once a record of this size is behind the reader. */
  lemma MovesOn(rd: Reader, buf: seq<Byte>, log: Log, freePos: nat, dirty: nat, cap: nat, size: nat)
    requires Ring(buf, log, freePos, dirty, cap) && rd.pos <= freePos && rd.pos % cap + size <= cap
    requires LapEnd(rd.pos, cap) <= freePos
             || exists k: nat :: k < |log| && PosOf(log, freePos, k) == rd.pos && Size(log[k].rec) == size
    ensures rd.pos + size <= freePos
    ensures LapEnd(rd.pos + size, cap) <= freePos || IsBoundary(log, freePos, rd.pos + size)
  {
    if LapEnd(rd.pos, cap) <= freePos {
      if rd.pos + size < LapEnd(rd.pos, cap) {
        SameLap(rd.pos, rd.pos + size, cap);
      } else {
        WrapToZero(rd.pos, cap);
        LapStartsRecord(log, freePos, cap, rd.pos + size, 0);
      }
    } else {
      var k: nat :| k < |log| && PosOf(log, freePos, k) == rd.pos && Size(log[k].rec) == size;
      assert Link(log, freePos, cap, k);
      assert PosOf(log, freePos, k + 1) == rd.pos + size;
    }
  }

  lemma AtBoundary(rd: Reader, log: Log, freePos: nat, dirty: nat, cap: nat)
    requires cap > 0 && rd.pos <= freePos && rd.pc != Returned(Invalid) && !InRecord(rd.pc)
    requires LapEnd(rd.pos, cap) <= freePos || IsBoundary(log, freePos, rd.pos)
    ensures Follows(rd, log, freePos, dirty, cap)
  {
    if LapEnd(rd.pos, cap) > freePos {
      var k: nat :| k <= |log| && PosOf(log, freePos, k) == rd.pos;
      assert OnRecord(rd, log, freePos, dirty, cap, k);
    }
  }

  /** The record the reader stands at, unless it is astray. */
  lemma Standing(rd: Reader, buf: seq<Byte>, log: Log, freePos: nat, dirty: nat, cap: nat) returns (k: nat)
    requires Ring(buf, log, freePos, dirty, cap) && Follows(rd, log, freePos, dirty, cap)
    requires LapEnd(rd.pos, cap) > freePos && rd.pos < freePos
    ensures k < |log| && log[k].pos == rd.pos && OnRecord(rd, log, freePos, dirty, cap, k)
    ensures Intact(rd.pos, dirty, cap) && Stored(buf, cap, log[k]) && Link(log, freePos, cap, k)
  {
    k :| OnRecord(rd, log, freePos, dirty, cap, k);
    UntouchedInLap(rd.pos, freePos, dirty, cap);
    assert k < |log|;
    assert Link(log, freePos, cap, k);
    hide Stored, Reading, Fits, OnRecord;
  }

  lemma HeadFollows(rd: Reader, buf: seq<Byte>, log: Log, freePos: nat, dirty: nat, cap: nat)
    requires Ring(buf, log, freePos, dirty, cap) && Follows(rd, log, freePos, dirty, cap) && rd.pc.Head?
    ensures Follows(ReaderStep(rd, buf, freePos, cap), log, freePos, dirty, cap)
  {
    var rd' := ReaderStep(rd, buf, freePos, cap);
    var ix := rd.pos % cap;
    if rd.pos == freePos {
      assert IsBoundary(log, freePos, freePos) by { assert PosOf(log, freePos, |log|) == freePos; }
      AtBoundary(rd', log, freePos, dirty, cap);
    } else if cap - ix < HEADER_SIZE {
      if LapEnd(rd.pos, cap) > freePos {
        var k := Standing(rd, buf, log, freePos, dirty, cap);
        assert false;
      }
      MovesOn(rd, buf, log, freePos, dirty, cap, cap - ix);
      AtBoundary(rd', log, freePos, dirty, cap);
    } else if LapEnd(rd.pos, cap) > freePos {
      var k := Standing(rd, buf, log, freePos, dirty, cap);
      assert !log[k].rec.Blank?;
      assert OnRecord(rd', log, freePos, dirty, cap, k);
    }
  }

  /** One more byte of header or payload. */
  lemma LoadFollows(rd: Reader, buf: seq<Byte>, log: Log, freePos: nat, dirty: nat, cap: nat)
    requires Ring(buf, log, freePos, dirty, cap) && Follows(rd, log, freePos, dirty, cap)
    requires PcShape(rd.pc, cap) && CanStep(rd)
    requires (rd.pc.Loading? && |rd.pc.header| < HEADER_SIZE) || rd.pc.Copying? || rd.pc.EarlyCheck?
    ensures Follows(ReaderStep(rd, buf, freePos, cap), log, freePos, dirty, cap)
  {
    var rd' := ReaderStep(rd, buf, freePos, cap);
    if LapEnd(rd.pos, cap) > freePos {
      var k := Standing(rd, buf, log, freePos, dirty, cap);
      LoadedByte(rd, buf, cap, log[k]);
      hide Holds, Stored, Fits, EncodeHeader, Image;
      assert OnRecord(rd', log, freePos, dirty, cap, k);
    }
  }

  /** Past a record, by what was in hand of it. */
  lemma AdvanceFollows(rd: Reader, buf: seq<Byte>, log: Log, freePos: nat, dirty: nat, cap: nat, length: nat)
    requires Ring(buf, log, freePos, dirty, cap) && Follows(rd, log, freePos, dirty, cap)
    requires rd.pos % cap + HEADER_SIZE + length <= cap && rd.pos < freePos
    requires forall k: nat :: k < |log| && log[k].pos == rd.pos && OnRecord(rd, log, freePos, dirty, cap, k)
                              && Intact(rd.pos, dirty, cap) && Fits(log[k].rec, rd.pos, cap)
               ==> Size(log[k].rec) == HEADER_SIZE + length
    ensures forall outcomes :: Follows(Advance(rd.(outcomes := outcomes), length, cap), log, freePos, dirty, cap)
  {
    if LapEnd(rd.pos, cap) > freePos {
      var k := Standing(rd, buf, log, freePos, dirty, cap);
      assert Size(log[k].rec) == HEADER_SIZE + length;
    }
    MovesOn(rd, buf, log, freePos, dirty, cap, HEADER_SIZE + length);
    hide Holds, OnRecord, Follows, Fits;
    forall outcomes
      ensures Follows(Advance(rd.(outcomes := outcomes), length, cap), log, freePos, dirty, cap)
    {
      AtBoundary(Advance(rd.(outcomes := outcomes), length, cap), log, freePos, dirty, cap);
    }
  }

  lemma HeaderIsRight(rd: Reader, log: Log, freePos: nat, dirty: nat, cap: nat, k: nat)
    requires 0 < cap <= LENGTH_LIMIT && k < |log| && log[k].pos == rd.pos && OnRecord(rd, log, freePos, dirty, cap, k)
    requires Intact(rd.pos, dirty, cap) && Fits(log[k].rec, rd.pos, cap)
    requires rd.pc.Loading? && |rd.pc.header| == HEADER_SIZE
    ensures !log[k].rec.Blank? && DecodeHeader(rd.pc.header) == HeaderOf(log[k].rec)
  {
    HeaderStep(rd.pc.header, log[k].rec, rd.pos, cap);
  }

  /** A valid message header. */
  lemma MessageFollows(rd: Reader, buf: seq<Byte>, log: Log, freePos: nat, dirty: nat, cap: nat, length: nat)
    requires Ring(buf, log, freePos, dirty, cap) && Follows(rd, log, freePos, dirty, cap)
    requires PcShape(rd.pc, cap) && rd.pc.Loading? && |rd.pc.header| == HEADER_SIZE
    requires DecodeHeader(rd.pc.header) == Header(MSG, length) && length > 0 && rd.pc.ix + HEADER_SIZE + length <= cap
    ensures Follows(rd.(pc := Copying(rd.pc.ix, length, [])), log, freePos, dirty, cap)
  {
    var rd' := rd.(pc := Copying(rd.pc.ix, length, []));
    if LapEnd(rd.pos, cap) > freePos {
      var k := Standing(rd, buf, log, freePos, dirty, cap);
      HeaderIsRight(rd, log, freePos, dirty, cap, k);
      hide DecodeHeader, Holds, Stored, Fits, Link;
      assert OnRecord(rd', log, freePos, dirty, cap, k);
    }
  }

  /** A valid padding header. */
  lemma PaddingFollows(rd: Reader, buf: seq<Byte>, log: Log, freePos: nat, dirty: nat, cap: nat, length: nat)
    requires Ring(buf, log, freePos, dirty, cap) && Follows(rd, log, freePos, dirty, cap)
    requires PcShape(rd.pc, cap) && rd.pc.Loading? && |rd.pc.header| == HEADER_SIZE
    requires DecodeHeader(rd.pc.header) == Header(PADDING, length) && rd.pc.ix + HEADER_SIZE + length <= cap
    ensures Follows(Advance(rd, length, cap), log, freePos, dirty, cap)
  {
    forall k: nat | k < |log| && log[k].pos == rd.pos && OnRecord(rd, log, freePos, dirty, cap, k)
                    && Intact(rd.pos, dirty, cap) && Fits(log[k].rec, rd.pos, cap)
      ensures Size(log[k].rec) == HEADER_SIZE + length
    {
      HeaderIsRight(rd, log, freePos, dirty, cap, k);
    }
    hide DecodeHeader, Holds, OnRecord, Fits, Advance;
    AdvanceFollows(rd, buf, log, freePos, dirty, cap, length);
    assert rd.(outcomes := rd.outcomes) == rd;
  }

  lemma DecisionFollows(rd: Reader, buf: seq<Byte>, log: Log, freePos: nat, dirty: nat, cap: nat)
    requires Ring(buf, log, freePos, dirty, cap) && Follows(rd, log, freePos, dirty, cap)
    requires PcShape(rd.pc, cap) && rd.pc.Loading? && |rd.pc.header| == HEADER_SIZE
    ensures Follows(ReaderStep(rd, buf, freePos, cap), log, freePos, dirty, cap)
  {
    var h := DecodeHeader(rd.pc.header);
    if h.Valid() && rd.pc.ix + HEADER_SIZE + h.length <= cap {
      if h.kind == MSG {
        MessageFollows(rd, buf, log, freePos, dirty, cap, h.length);
      } else {
        PaddingFollows(rd, buf, log, freePos, dirty, cap, h.length);
      }
    }
    StoppedFollows(rd, log, freePos, dirty, cap);
    hide DecodeHeader, Holds, Follows, Advance, Ring, PcShape;
  }

  /** A reader that returns or aborts where it stands. */
  lemma StoppedFollows(rd: Reader, log: Log, freePos: nat, dirty: nat, cap: nat)
    requires cap > 0 && Follows(rd, log, freePos, dirty, cap)
    ensures Follows(rd.(pc := Returned(Expiry)), log, freePos, dirty, cap)
    ensures Follows(rd.(pc := Aborted), log, freePos, dirty, cap)
  {
    if LapEnd(rd.pos, cap) > freePos {
      var k: nat :| OnRecord(rd, log, freePos, dirty, cap, k);
      assert OnRecord(rd.(pc := Returned(Expiry)), log, freePos, dirty, cap, k);
      assert OnRecord(rd.(pc := Aborted), log, freePos, dirty, cap, k);
    }
    hide LapEnd;
  }

  lemma ConfirmFollows(rd: Reader, buf: seq<Byte>, log: Log, freePos: nat, dirty: nat, cap: nat)
    requires Ring(buf, log, freePos, dirty, cap) && Follows(rd, log, freePos, dirty, cap)
    requires PcShape(rd.pc, cap) && rd.pc.ConfirmCheck?
    ensures Follows(ReaderStep(rd, buf, freePos, cap), log, freePos, dirty, cap)
  {
    AdvanceFollows(rd, buf, log, freePos, dirty, cap, |rd.pc.payload|);
    hide Holds, Advance;
  }

  lemma AnswerFollows(rd: Reader, buf: seq<Byte>, accept: bool, log: Log, freePos: nat, dirty: nat, cap: nat)
    requires Ring(buf, log, freePos, dirty, cap) && Follows(rd, log, freePos, dirty, cap)
    requires rd.pc.Copying? && |rd.pc.copied| == rd.pc.length
    ensures Follows(AnswerCopy(rd, accept, cap), log, freePos, dirty, cap)
  {
    if accept {
      if LapEnd(rd.pos, cap) > freePos {
        var k := Standing(rd, buf, log, freePos, dirty, cap);
        assert OnRecord(AnswerCopy(rd, accept, cap), log, freePos, dirty, cap, k);
      }
    } else {
      AdvanceFollows(rd, buf, log, freePos, dirty, cap, rd.pc.length);
      hide Advance;
    }
    hide Holds;
  }

  lemma StepFollows(rd: Reader, buf: seq<Byte>, log: Log, freePos: nat, dirty: nat, cap: nat)
    requires Ring(buf, log, freePos, dirty, cap) && Follows(rd, log, freePos, dirty, cap)
    requires PcShape(rd.pc, cap) && CanStep(rd)
    ensures Follows(ReaderStep(rd, buf, freePos, cap), log, freePos, dirty, cap)
  {
    match rd.pc
    case Head => HeadFollows(rd, buf, log, freePos, dirty, cap);
    case Loading(_, header) =>
      if |header| == HEADER_SIZE {
        DecisionFollows(rd, buf, log, freePos, dirty, cap);
      } else {
        LoadFollows(rd, buf, log, freePos, dirty, cap);
      }
    case ConfirmCheck(_) => ConfirmFollows(rd, buf, log, freePos, dirty, cap);
    case _ => LoadFollows(rd, buf, log, freePos, dirty, cap);
  }

  /** Steps of others only append to the log and raise the marks. */
  lemma FollowsFramed(rd: Reader, log: Log, freePos: nat, dirty: nat, cap: nat, log': Log, freePos': nat, dirty': nat)
    requires cap > 0 && Follows(rd, log, freePos, dirty, cap)
    requires log <= log' && freePos <= freePos' && dirty <= dirty' && freePos == PosOf(log', freePos', |log|)
    ensures Follows(rd, log', freePos', dirty', cap)
  {
    if LapEnd(rd.pos, cap) > freePos {
      var k: nat :| OnRecord(rd, log, freePos, dirty, cap, k);
      assert OnRecord(rd, log', freePos', dirty', cap, k);
    }
    hide LapEnd;
  }

  // ----- Every run -----

  ghost predicate AllFollow(s: State)
    requires s.cap > 0
  {
    forall r :: 0 <= r < |s.readers| ==> Follows(s.readers[r], s.log, s.freePos, s.dirty, s.cap)
  }

  lemma FreePosRises(s: State, a: Action)
    requires Shape(s) && Enabled(s, a)
    ensures s.freePos <= Apply(s, a).freePos
  {
    hide ReaderStep, AnswerCopy, Image, NextRecord, BytesToWrite;
  }

  lemma StepKeepsFollowing(s: State, a: Action, r: nat)
    requires RingInv(s) && InLap(s) && Enabled(s, a) && r < |s.readers|
    requires Follows(s.readers[r], s.log, s.freePos, s.dirty, s.cap)
    ensures Apply(s, a).cap == s.cap && |Apply(s, a).readers| == |s.readers|
    ensures Follows(Apply(s, a).readers[r], Apply(s, a).log, Apply(s, a).freePos, Apply(s, a).dirty, s.cap)
  {
    var rd, s' := s.readers[r], Apply(s, a);
    SameReaders(s, a);
    if OfWriter(a) {
      WriterStepEffect(s, a);
      FreePosRises(s, a);
      FollowsFramed(rd, s.log, s.freePos, s.dirty, s.cap, s'.log, s'.freePos, s'.dirty);
      hide Apply, Enabled, RingInv, Follows;
    } else {
      QuietStep(s, a);
      if a == Step(r) {
        StepFollows(rd, s.buf, s.log, s.freePos, s.dirty, s.cap);
        hide Follows, ReaderStep, Holds;
      } else if a.Answer? && a.r == r {
        AnswerFollows(rd, s.buf, a.accept, s.log, s.freePos, s.dirty, s.cap);
        hide Follows, AnswerCopy, Holds;
      } else if a == LoadPosition(r) {
        assert PosOf(s.log, s.freePos, |s.log|) == s.freePos;
        assert OnRecord(s'.readers[r], s.log, s.freePos, s.dirty, s.cap, |s.log|);
      } else {
        OtherwiseFollows(s, a, r);
      }
    }
  }

  lemma OtherwiseFollows(s: State, a: Action, r: nat)
    requires Shape(s) && Enabled(s, a) && r < |s.readers| && !OfWriter(a)
    requires a != Step(r) && !(a.Answer? && a.r == r) && a != LoadPosition(r)
    requires Follows(s.readers[r], s.log, s.freePos, s.dirty, s.cap)
    ensures |Apply(s, a).readers| == |s.readers|
    ensures Follows(Apply(s, a).readers[r], s.log, s.freePos, s.dirty, s.cap)
  {
    var rd := Apply(s, a).readers[r];
    assert rd.pos == s.readers[r].pos && (InRecord(rd.pc) ==> rd.pc == s.readers[r].pc) by {
      hide ReaderStep, AnswerCopy;
    }
    hide ReaderStep, AnswerCopy;
    if LapEnd(rd.pos, s.cap) > s.freePos {
      var k: nat :| OnRecord(s.readers[r], s.log, s.freePos, s.dirty, s.cap, k);
      assert OnRecord(rd, s.log, s.freePos, s.dirty, s.cap, k);
    }
  }

  lemma StepKeepsAll(s: State, a: Action)
    requires RingInv(s) && InLap(s) && AllFollow(s) && Enabled(s, a)
    ensures InLap(Apply(s, a)) && AllFollow(Apply(s, a))
  {
    StepStaysInLap(s, a);
    SameReaders(s, a);
    hide RingInv, InLap, Follows, Apply, Enabled;
    forall r | 0 <= r < |Apply(s, a).readers|
      ensures Follows(Apply(s, a).readers[r], Apply(s, a).log, Apply(s, a).freePos, Apply(s, a).dirty, s.cap)
    {
      StepKeepsFollowing(s, a, r);
    }
  }

  lemma StartFollows(s: State)
    requires Init(s)
    ensures InLap(s) && AllFollow(s)
  {
    forall r | 0 <= r < |s.readers|
      ensures Follows(s.readers[r], s.log, s.freePos, s.dirty, s.cap)
    {
      assert OnRecord(s.readers[r], s.log, 0, 0, s.cap, 0);
    }
  }

  lemma {:induction false} FollowingOverRun(states: seq<State>, acts: seq<Action>, i: nat)
    requires IsRun(states, acts) && i < |states|
    ensures RingInv(states[i]) && InLap(states[i]) && AllFollow(states[i])
  {
    hide InLap, AllFollow, RingInv;
    RingOverRun(states, acts, i);
    if i > 0 {
      FollowingOverRun(states, acts, i - 1);
      StepKeepsAll(states[i - 1], acts[i - 1]);
    } else {
      StartFollows(states[0]);
    }
  }

  /** In every run, with torn reads, forced writes and deaths: no reader gets past the
      stream end or is told that it is; and once its lap is the one of the stream end it
      is at a record boundary of the log. */
  lemma NeverPastStreamEnd(states: seq<State>, acts: seq<Action>, i: nat, r: nat)
    requires IsRun(states, acts) && i < |states| && r < |states[i].readers|
    ensures var s := states[i]; var rd := s.readers[r];
            && rd.pos <= s.freePos && rd.pc != Returned(Invalid)
            && (LapEnd(rd.pos, s.cap) > s.freePos ==> IsBoundary(s.log, s.freePos, rd.pos))
  {
    FollowingOverRun(states, acts, i);
    var s := states[i];
    assert Follows(s.readers[r], s.log, s.freePos, s.dirty, s.cap);
    if LapEnd(s.readers[r].pos, s.cap) > s.freePos {
      var k: nat :| OnRecord(s.readers[r], s.log, s.freePos, s.dirty, s.cap, k);
    }
    hide IsRun, RingInv;
  }
}
