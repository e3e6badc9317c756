/** Activation takes two steps: load the stream end, then set the slot. Exactly when
    the second step comes in time. */
module TimelyEntry {
  import opened Arithmetic
  import opened Bytes
  import opened Records
  import opened Slots
  import opened Protocol
  import opened ProtocolInvariants
  import opened ProtocolRuns
  import opened ProtocolBackpressure
  import opened Reachability
  import opened ReaderProgress

  /** Every reader is where honoured runs keep it. */
  predicate AllProtected(s: State) {
    RingInv(s) && ReadersInv(s) && forall q :: 0 <= q < |s.readers| ==> Protected(s, q)
  }

  // ----- In time: nothing can go wrong -----

  lemma OthersKeepReader(s: State, a: Action, r: nat)
    requires Shape(s) && Enabled(s, a) && r < |s.readers| && !By(r, a)
    ensures |Apply(s, a).readers| == |s.readers| && Apply(s, a).readers[r] == s.readers[r]
    ensures Apply(s, a).cap == s.cap
  {
    hide ReaderStep, AnswerCopy;
  }

  lemma {:induction false} StaysProtected(states: seq<State>, acts: seq<Action>, r: nat, i: nat)
    requires IsPath(states, acts, Around(r)) && i < |states|
    requires RingInv(states[0]) && r < |states[0].readers| && Protected(states[0], r)
    ensures RingInv(states[i]) && states[i].cap == states[0].cap
    ensures r < |states[i].readers| && Protected(states[i], r) && states[i].readers[r] == states[0].readers[r]
  {
    if i > 0 {
      var s, a := states[i - 1], acts[i - 1];
      StaysProtected(states, acts, r, i - 1);
      StepKeepsRing(s, a);
      OthersKeepReader(s, a, r);
      if OfWriter(a) { WriterStepProtects(s, a, r); } else { ReaderStepProtects(s, a, r); }
    }
  }

  lemma EntryInTime(s: State, r: nat, t: State)
    requires RingInv(s) && Enabled(s, Enter(r)) && Protected(s, r) && Clear(s, r, s.readers[r].pos)
    requires Leads(Apply(s, Enter(r)), t, Around(r))
    ensures Unharmed(t, s.readers[r].pos)
  {
    ReaderStepProtects(s, Enter(r), r);
    StepKeepsRing(s, Enter(r));
    var e := Apply(s, Enter(r));
    assert e.readers[r].active && e.readers[r].bpos == s.readers[r].pos;
    var states, acts :| IsPath(states, acts, Around(r)) && states[0] == e && states[|acts|] == t;
    StaysProtected(states, acts, r, |acts|);
    hide RingInv, Apply, IsPath;
  }

  // ----- Too late: something can go wrong -----

  /** A reader in the way finishes its read and gives up its slot. */
  lemma {:induction false} StepsAside(from: State, s: State, kind: Kind, q: nat)
    requires Leads(from, s, kind) && Lets(kind, q) && !kind.Within? && q < |s.readers| && s.readers[q].active
    requires RingInv(s) && Protected(s, q) && ReaderInv(s.readers[q], s.log, s.freePos, s.dirty, s.cap)
    ensures exists rd :: && Quiescent(rd) && !rd.active && Leads(from, WithReader(s, q, rd), kind)
                         && ReaderInv(rd, s.log, s.freePos, s.dirty, s.cap)
  {
    var end := s.readers[q];
    assert Shape(s) && !end.pc.Entering?;
    if Quiescent(end) {
      assert WithReader(s, q, end) == s;
    } else {
      assert MidRead(s, q);
      hide Leads, RingInv, MidRead, ReaderInv;
      FinishesAlone(from, s, kind, q);
      end :| Finished(s, q, end) && Leads(from, WithReader(s, q, end), kind);
      EndedIsQuiescent(end, s.log, s.freePos);
    }
    StillPlaced(end, s.log, s.freePos, s.dirty, s.cap);
    hide Leads, RingInv, Protected, ReaderInv, Finished;
    GivesUp(from, s, kind, q, end);
  }

  lemma StillPlaced(rd: Reader, log: Log, freePos: nat, dirty: nat, cap: nat)
    requires cap > 0 && ReaderInv(rd, log, freePos, dirty, cap)
    ensures ReaderInv(rd.(active := false), log, freePos, dirty, cap)
  {
  }

  lemma EndedIsQuiescent(rd: Reader, log: Log, freePos: nat)
    requires Ended(rd, log, freePos)
    ensures Quiescent(rd)
  {
  }

  lemma {:induction false} GivesUp(from: State, s: State, kind: Kind, q: nat, rd: Reader)
    requires Shape(s) && q < |s.readers| && Lets(kind, q) && !kind.Within? && rd.active && Quiescent(rd)
    requires Leads(from, WithReader(s, q, rd), kind)
    ensures Leads(from, WithReader(s, q, rd.(active := false)), kind)
  {
    hide Leads;
    var t := WithReader(s, q, rd);
    assert Apply(t, Leave(q)) == WithReader(s, q, rd.(active := false));
    LeadsOn(from, t, kind, Leave(q));
  }

  /** The slots not yet inspected hold protected readers. */
  predicate Beyond(s: State) {
    && RingInv(s) && s.writer.Scanning?
    && (forall q :: s.writer.slot <= q < |s.readers| ==>
          Protected(s, q) && ReaderInv(s.readers[q], s.log, s.freePos, s.dirty, s.cap))
  }

  /** With the reader in slot `i` replaced by `rd`, the writer inspects on. */
  function Onward(s: State, rd: Reader): State
    requires Shape(s) && s.writer.Scanning? && s.writer.slot < |s.readers|
  {
    WithReader(s, s.writer.slot, rd).(writer := Scanning(s.writer.data, s.writer.slot + 1))
  }

  lemma OnwardKeepsBeyond(s: State, rd: Reader)
    requires Beyond(s) && s.writer.slot < |s.readers| && PcShape(rd.pc, s.cap)
    ensures Beyond(Onward(s, rd))
  {
    var t := Onward(s, rd);
    hide Holds, BytesToWrite, ReaderInv;
    forall q | t.writer.slot <= q < |t.readers|
      ensures Protected(t, q)
    {
      assert Protected(s, q);
    }
  }

  /** Some reader in the slot the writer comes to does not block it. */
  lemma {:induction false} Unblocked(from: State, s: State, r: nat)
    requires Leads(from, s, Around(r)) && Beyond(s) && r < s.writer.slot < |s.readers|
    ensures exists rd: Reader ::
              && PcShape(rd.pc, s.cap) && Leads(from, WithReader(s, s.writer.slot, rd), Around(r))
              && !Blocks(rd.active, rd.bpos, s.freePos, BytesToWrite(s.writer.data, s.freePos, s.cap), s.cap)
  {
    var i, rd := s.writer.slot, s.readers[s.writer.slot];
    assert Protected(s, i) && PcShape(rd.pc, s.cap);
    assert WithReader(s, i, rd) == s;
    hide Leads, BytesToWrite;
    if Blocks(rd.active, rd.bpos, s.freePos, BytesToWrite(s.writer.data, s.freePos, s.cap), s.cap) {
      StepsAside(from, s, Around(r), i);
      hide RingInv, Protected, ReaderInv;
      rd :| Quiescent(rd) && !rd.active && Leads(from, WithReader(s, i, rd), Around(r));
    }
  }

  lemma {:induction false} InspectOn(from: State, s: State, r: nat)
    requires Leads(from, s, Around(r)) && Beyond(s) && r < s.writer.slot < |s.readers|
    ensures exists rd: Reader :: PcShape(rd.pc, s.cap) && Leads(from, Onward(s, rd), Around(r))
  {
    Unblocked(from, s, r);
    assert Shape(s);
    hide Leads, Beyond, BytesToWrite, Blocks;
    var rd: Reader :| && PcShape(rd.pc, s.cap) && Leads(from, WithReader(s, s.writer.slot, rd), Around(r))
                      && !Blocks(rd.active, rd.bpos, s.freePos, BytesToWrite(s.writer.data, s.freePos, s.cap), s.cap);
    var t := WithReader(s, s.writer.slot, rd);
    assert Apply(t, Inspect) == Onward(s, rd);
    LeadsOn(from, t, Around(r), Inspect);
  }

  /** A writer that is past slot `r` can finish its scan without looking there again. */
  lemma {:induction false} ScanPasses(from: State, s: State, r: nat)
    requires Leads(from, s, Around(r)) && Beyond(s) && r < s.writer.slot
    ensures exists t :: && Leads(from, t, Around(r)) && PastScan(t)
                        && t.writer.data == s.writer.data && t.freePos == s.freePos && t.cap == s.cap
    decreases |s.readers| - s.writer.slot
  {
    hide Leads;
    if s.writer.slot == |s.readers| {
      LeadsOn(from, s, Around(r), Inspect);
      var t := s.(writer := Storing(s.writer.data, {}));
      assert Apply(s, Inspect) == t && PastScan(t);
    } else {
      InspectOn(from, s, r);
      var rd: Reader :| PcShape(rd.pc, s.cap) && Leads(from, Onward(s, rd), Around(r));
      OnwardKeepsBeyond(s, rd);
      ScanPasses(from, Onward(s, rd), r);
    }
  }

  lemma EntryKeeps(s: State, r: nat)
    requires AllProtected(s) && Enabled(s, Enter(r))
    ensures var e := Apply(s, Enter(r));
            && RingInv(e) && e.cap == s.cap && e.freePos == s.freePos && e.dirty == s.dirty && e.writer == s.writer
            && (s.writer.Scanning? && r < s.writer.slot ==> Beyond(e))
            && (s.writer.Storing? ==> PastScan(e))
  {
    var e := Apply(s, Enter(r));
    StepKeepsRing(s, Enter(r));
    hide Holds, BytesToWrite, ReaderInv, StoredSoFar;
    forall q | 0 <= q < |s.readers| && q != r
      ensures Protected(e, q) && e.readers[q] == s.readers[q]
    {
      assert Protected(s, q);
    }
  }

  /** A late entry leaves the reader harmed, or in the way of a writer that no longer
      looks. */
  lemma {:induction false} EntryTooLate(s: State, r: nat)
    requires AllProtected(s) && Enabled(s, Enter(r)) && !Clear(s, r, s.readers[r].pos)
    ensures exists t :: Leads(Apply(s, Enter(r)), t, Around(r)) && !Unharmed(t, s.readers[r].pos)
  {
    var e, pos := Apply(s, Enter(r)), s.readers[r].pos;
    EntryKeeps(s, r);
    LeadsHere(e, Around(r));
    hide Leads, AllProtected, RingInv, Apply, Beyond;
    if Unharmed(e, pos) {
      var t := e;
      if s.writer.Scanning? {
        ScanPasses(e, e, r);
        t :| && Leads(e, t, Around(r)) && PastScan(t)
             && t.writer.data == s.writer.data && t.freePos == s.freePos && t.cap == s.cap;
      }
      WriteLeads(e, t, Around(r));
      WriteCompletes(t);
      assert !Unharmed(AfterWrite(t), pos);
    }
  }

  /** Setting the slot comes in time iff nothing was stored over the loaded position
      and no writer may still lap it without looking: then, and only then, do all
      continuations without a forced write leave the reader, where it entered,
      unexpired and untouched. */
  lemma {:induction false} EntryExactly(s: State, r: nat)
    requires AllProtected(s) && Enabled(s, Enter(r))
    ensures Clear(s, r, s.readers[r].pos)
       <==> forall t :: Leads(Apply(s, Enter(r)), t, Around(r)) ==> Unharmed(t, s.readers[r].pos)
  {
    assert Shape(s) && Protected(s, r);
    hide RingInv, ReadersInv, Leads, Apply, Unharmed, Shape;
    if Clear(s, r, s.readers[r].pos) {
      forall t | Leads(Apply(s, Enter(r)), t, Around(r))
        ensures Unharmed(t, s.readers[r].pos)
      {
        EntryInTime(s, r, t);
      }
    } else {
      EntryTooLate(s, r);
    }
  }

  /** The states of honoured runs are such states. */
  lemma HonouredStates(states: seq<State>, acts: seq<Action>, i: nat)
    requires HonouredRun(states, acts) && i < |states|
    ensures AllProtected(states[i])
  {
    HonouredIsClean(states, acts);
    ReadersOverRun(states, acts, i);
    ProtectedOverRun(states, acts, i);
  }

  // ----- Entering at once -----

  /** An honoured run with messages up to `size` bytes that ends with reader `r`
      loading the stream end. */
  predicate LoadsLast(states: seq<State>, acts: seq<Action>, r: nat, cap: nat, size: nat) {
    && HonouredRun(states, acts) && states[0].cap == cap
    && (forall i :: 0 <= i < |acts| && acts[i].Begin? ==> |acts[i].data| <= size)
    && acts != [] && acts[|acts| - 1] == LoadPosition(r) && r < |states[|acts|].readers|
  }

  /** Reader `r`, at the end of a run, would still set its slot in time. */
  predicate InTime(states: seq<State>, r: nat) {
    && states != []
    && var s := states[|states| - 1];
    Shape(s) && r < |s.readers| && Clear(s, r, s.readers[r].pos)
  }

  lemma {:induction false} SizedWriter(states: seq<State>, acts: seq<Action>, size: nat, i: nat)
    requires IsRun(states, acts) && i < |states|
    requires forall k :: 0 <= k < |acts| && acts[k].Begin? ==> |acts[k].data| <= size
    ensures states[i].cap == states[0].cap
    ensures !states[i].writer.Idle? ==> |states[i].writer.data| <= size
  {
    if i > 0 {
      SizedWriter(states, acts, size, i - 1);
      var s, a := states[i - 1], acts[i - 1];
      hide ReaderStep, AnswerCopy, NextRecord, BytesToWrite, Image;
      assert Apply(s, a).cap == s.cap;
    }
  }

  lemma SmallNeverLaps(states: seq<State>, acts: seq<Action>, r: nat, cap: nat, size: nat)
    requires LoadsLast(states, acts, r, cap, size) && 2 * (HEADER_SIZE + size) <= cap
    ensures InTime(states, r)
  {
    var s := states[|acts|];
    SizedWriter(states, acts, size, |acts|);
    RingOverRun(states, acts, |acts|);
    assert s == Apply(states[|acts| - 1], LoadPosition(r));
    assert s.readers[r].pos == s.freePos;
    if !s.writer.Idle? { FillerFits(s.writer.data, s.freePos, s.cap); }
    hide BytesToWrite, Holds, StoredSoFar, IsRun;
  }

  /** Two records of a size that do not fit together take at least a lap. */
  lemma SecondTakesLap(data: seq<Byte>, cap: nat)
    requires HEADER_SIZE + |data| <= cap < 2 * (HEADER_SIZE + |data|)
    ensures BytesToWrite(data, HEADER_SIZE + |data|, cap) == cap
  {
    var size := HEADER_SIZE + |data|;
    if size < cap { RemainderUnique(0, size, cap); } else { RemainderUnique(1, 0, cap); }
  }

  /** Writers get past their scan of an inactive slot with a write of a whole lap. */
  lemma LargeCommits(cap: nat, size: nat)
    requires HEADER_SIZE + size <= cap <= LENGTH_LIMIT && cap < 2 * (HEADER_SIZE + size)
    ensures exists s :: && Leads(Start(cap), s, Writers(size)) && Shape(s) && s.readers == [OUTSIDER] && s.cap == cap
                        && Committed(s, 0) >= s.freePos + cap
  {
    var data: seq<Byte> := seq(size, _ => 0);
    FirstWrite(cap, data, Writers(size));
    var t :| && Leads(Start(cap), t, Writers(size)) && Shape(t) && t.cap == cap && t.writer.Idle?
             && t.readers == [OUTSIDER] && t.log == [Entry(0, Msg(data))]
             && t.freePos == t.dirty == HEADER_SIZE + |data|;
    SecondTakesLap(data, cap);
    StartWrite(Start(cap), t, Writers(size), data);
    hide Leads, BytesToWrite;
    var s := t.(writer := Storing(data, {}));
    assert Committed(s, 0) >= s.freePos + cap;
  }

  lemma LargeLaps(cap: nat, size: nat)
    requires HEADER_SIZE + size <= cap <= LENGTH_LIMIT && cap < 2 * (HEADER_SIZE + size)
    ensures exists states, acts, r :: LoadsLast(states, acts, r, cap, size) && !InTime(states, r)
  {
    LargeCommits(cap, size);
    var s :| && Leads(Start(cap), s, Writers(size)) && Shape(s) && s.readers == [OUTSIDER] && s.cap == cap
             && Committed(s, 0) >= s.freePos + cap;
    LeadsIsRun(Start(cap), s, Writers(size));
    var states, acts :| IsRun(states, acts) && IsPath(states, acts, Writers(size)) && states[|acts|] == s;
    LoadAppended(states, acts, cap, size);
  }

  lemma LoadAppended(states: seq<State>, acts: seq<Action>, cap: nat, size: nat)
    requires IsRun(states, acts) && IsPath(states, acts, Writers(size))
    requires var s := states[|acts|]; s.readers == [OUTSIDER] && s.cap == cap && Committed(s, 0) >= s.freePos + cap
    ensures exists states', acts', r :: LoadsLast(states', acts', r, cap, size) && !InTime(states', r)
  {
    var s := states[|acts|];
    var t := Apply(s, LoadPosition(0));
    SizedWriter(states, acts, size, |acts|);
    var states', acts' := states + [t], acts + [LoadPosition(0)];
    forall i | 0 <= i < |acts'|
      ensures Enabled(states'[i], acts'[i]) && Honours(states'[i], acts'[i])
      ensures states'[i + 1] == Apply(states'[i], acts'[i])
    {
      if i < |acts| {
        assert Permitted(Writers(size), states[i], acts[i]) && states'[i + 1] == states[i + 1] && acts'[i] == acts[i];
      }
    }
    assert LoadsLast(states', acts', 0, cap, size);
    assert !Clear(t, 0, t.readers[0].pos);
  }

  /** Setting the slot right after loading the stream end always comes in time iff
      two records of the largest size written fit into the buffer. */
  lemma ImmediateEntryExactly(cap: nat, size: nat)
    requires HEADER_SIZE + size <= cap <= LENGTH_LIMIT
    ensures (forall states, acts, r :: LoadsLast(states, acts, r, cap, size)
               ==> InTime(states, r))
       <==> 2 * (HEADER_SIZE + size) <= cap
  {
    if 2 * (HEADER_SIZE + size) <= cap {
      forall states, acts, r | LoadsLast(states, acts, r, cap, size)
        ensures InTime(states, r)
      {
        SmallNeverLaps(states, acts, r, cap, size);
      }
    } else {
      LargeLaps(cap, size);
    }
  }
}
