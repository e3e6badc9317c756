/** Runs that show why the theorems about runs have their side conditions: a forced
    write that tears a read, a reader lapped while it activates, filler that readers
    take for expiry, and a message that waits for readers with nothing left to read. */
module Scenarios {
  import opened Arithmetic
  import opened Bytes
  import opened Records
  import opened Slots
  import opened Protocol
  import opened ProtocolInvariants
  import opened ProtocolBackpressure
  import opened Reachability
  import opened Ring
  import opened ReaderProgress
  import opened Stalls
  import E = TimelyEntry

  // ----- Common parts, for a buffer of sixteen bytes -----

  const FIRST_BUFFER: seq<Byte> := [0, 1, 0, 0, 0, 1, 0, 0, 0, 0, 0, 0, 0, 0, 0, 0]
  const SECOND_BUFFER: seq<Byte> := [0, 1, 0, 0, 0, 1, 0, 1, 0, 0, 0, 2, 0, 0, 0, 0]
  const TORN_BUFFER: seq<Byte> := [0, 7, 0, 0, 0, 9, 0, 99, 0, 0, 0, 9, 0, 0, 0, 0]

  const FIRST_ENTRY: Entry := Entry(0, Msg([1]))
  const SECOND_ENTRY: Entry := Entry(6, Msg([2]))
  const BLANK_ENTRY: Entry := Entry(12, Blank(4))

  /** One reader, nobody writing, no residue. */
  function Calm(buf: seq<Byte>, rd: Reader, log: Log, freePos: nat): State {
    State(16, buf, freePos, Idle, [rd], log, freePos)
  }

  ghost predicate Reached(s: State, kind: Kind) {
    Leads(Start(s.cap), s, kind)
  }

  lemma ReachedByRun(s: State, kind: Kind)
    requires Reached(s, kind) && HEADER_SIZE <= s.cap <= LENGTH_LIMIT
    ensures HasRun(s, kind)
  {
    LeadsIsRun(Start(s.cap), s, kind);
  }

  lemma Move(s: State, kind: Kind, a: Action)
    requires Reached(s, kind) && Shape(s) && Enabled(s, a) && Permitted(kind, s, a)
    ensures Apply(s, a).cap == s.cap && Reached(Apply(s, a), kind)
  {
    LeadsOn(Start(s.cap), s, kind, a);
  }

  lemma ShortImage(v: Byte)
    ensures Image(Msg([v])) == [0, 1, 0, 0, 0, v]
  {
    assert ToBytes(0, 0) == [];
    assert ToBytes(0, 1) == [0];
    assert ToBytes(0, 2) == [0, 0];
    assert ToBytes(0, 3) == [0, 0, 0];
    assert ToBytes(1, 4) == [1, 0, 0, 0];
  }

  lemma ShortHeader()
    ensures DecodeHeader([0, 1, 0, 0, 0]) == Header(MSG, 1)
  {
    ShortImage(0);
    DecodeEncodeHeader(Header(MSG, 1));
    assert EncodeHeader(Header(MSG, 1)) == Image(Msg([0]))[..5];
  }

  /** What a writer of one byte leaves behind where it fits before the end. */
  lemma {:induction false} ShortRecord(s: State, buf': seq<Byte>, f: nat, v: Byte)
    requires PastScan(s) && s.writer.stored == {} && s.dirty == s.freePos
    requires s.cap == 16 && s.writer.data == [v] && s.freePos == f && f + 6 <= 16
    requires buf' == s.buf[..f] + [0, 1, 0, 0, 0, v] + s.buf[f + 6..]
    ensures AfterWrite(s)
         == s.(buf := buf', log := s.log + [Entry(f, Msg([v]))], freePos := f + 6, dirty := f + 6, writer := Idle)
  {
    ShortImage(v);
    assert NextRecord([v], f, 16) == Msg([v]) && f % 16 == f;
    hide Image, NextRecord, StoredSoFar;
    assert AfterStores(s, 6).buf == buf' by { assert Image(Msg([v]))[..6] == [0, 1, 0, 0, 0, v]; }
  }

  /** A one-byte message is written where it fits before the end of the buffer. */
  lemma {:induction false} WriteShort(buf: seq<Byte>, buf': seq<Byte>, rd: Reader, log: Log, f: nat, v: Byte)
    requires |buf| == 16 && f + 6 <= 16 && PcShape(rd.pc, 16)
    requires buf' == buf[..f] + [0, 1, 0, 0, 0, v] + buf[f + 6..]
    requires Reached(Calm(buf, rd, log, f), Gentle) && !Blocks(rd.active, rd.bpos, f, 6, 16)
    ensures Reached(Calm(buf', rd, log + [Entry(f, Msg([v]))], f + 6), Gentle)
  {
    var s := Calm(buf, rd, log, f);
    var t := s.(writer := Storing([v], {}));
    ShortRecord(t, buf', f, v);
    hide Leads, AfterWrite;
    assert BytesToWrite([v], f, 16) == 6;
    StartWrite(Start(16), s, Gentle, [v]);
    WriteLeads(Start(16), t, Gentle);
  }

  lemma FirstMessage(rd: Reader)
    requires PcShape(rd.pc, 16) && !rd.active && Reached(Calm(Start(16).buf, rd, [], 0), Gentle)
    ensures Reached(Calm(FIRST_BUFFER, rd, [FIRST_ENTRY], 6), Gentle)
  {
    hide Reached;
    assert [] + [FIRST_ENTRY] == [FIRST_ENTRY];
    WriteShort(Start(16).buf, FIRST_BUFFER, rd, [], 0, 1);
  }

  lemma SecondMessage(rd: Reader)
    requires PcShape(rd.pc, 16) && !Blocks(rd.active, rd.bpos, 6, 6, 16)
    requires Reached(Calm(FIRST_BUFFER, rd, [FIRST_ENTRY], 6), Gentle)
    ensures Reached(Calm(SECOND_BUFFER, rd, [FIRST_ENTRY, SECOND_ENTRY], 12), Gentle)
  {
    hide Reached;
    assert [FIRST_ENTRY] + [SECOND_ENTRY] == [FIRST_ENTRY, SECOND_ENTRY];
    WriteShort(FIRST_BUFFER, SECOND_BUFFER, rd, [FIRST_ENTRY], 6, 2);
  }

  lemma Started()
    ensures Calm(Start(16).buf, OUTSIDER, [], 0) == Start(16) && Init(Start(16))
    ensures Reached(Start(16), Gentle)
  {
    LeadsHere(Start(16), Gentle);
  }

  lemma {:induction false} GentleIsOrdered(s: State)
    requires Reached(s, Gentle)
    ensures Reached(s, Ordered)
  {
    var states, acts :| IsPath(states, acts, Gentle) && states[0] == Start(s.cap) && states[|acts|] == s;
    assert IsPath(states, acts, Ordered);
  }

  // ----- A torn read -----

  /** The reader, activated at the second message. */
  function Victim(pc: ReaderPc, outcomes: seq<Outcome>): Reader {
    Reader(true, 6, 6, pc, 1, 1, outcomes)
  }

  const LATER: seq<Byte> := [9, 0, 99, 0, 0, 0, 9]

  /** The first message is written while nobody reads; then the reader activates. */
  lemma Activation()
    ensures Reached(Calm(FIRST_BUFFER, Victim(Resting, []), [FIRST_ENTRY], 6), Gentle)
  {
    hide Reached;
    Started();
    FirstMessage(OUTSIDER);
    var s := Calm(FIRST_BUFFER, OUTSIDER, [FIRST_ENTRY], 6);
    Move(s, Gentle, LoadPosition(0));
    var t := Apply(s, LoadPosition(0));
    Move(t, Gentle, Enter(0));
    assert Apply(t, Enter(0)) == Calm(FIRST_BUFFER, Victim(Resting, []), [FIRST_ENTRY], 6);
  }

  /** The third write under way, before its first store, with the reader at `rd`. */
  function Forced(rd: Reader): State {
    State(16, SECOND_BUFFER, 16, Storing(LATER, {}), [rd], [FIRST_ENTRY, SECOND_ENTRY, BLANK_ENTRY], 16)
  }

  /** The third write is told to go ahead despite the reader, and skips to the start
      of the buffer. */
  lemma ForcedWrite()
    ensures Reached(Forced(Victim(Resting, [])), Ordered)
  {
    hide Reached;
    Activation();
    SecondMessage(Victim(Resting, []));
    var s := Calm(SECOND_BUFFER, Victim(Resting, []), [FIRST_ENTRY, SECOND_ENTRY], 12);
    GentleIsOrdered(s);
    Move(s, Ordered, Begin(LATER));
    Move(s.(writer := Scanning(LATER, 0)), Ordered, Inspect);
    Move(s.(writer := Blocked(LATER)), Ordered, Force);
    var t := s.(writer := Storing(LATER, {}));
    assert Current(t) == Blank(4);
    Move(t, Ordered, Publish);
    assert Apply(t, Publish) == Forced(Victim(Resting, []));
  }

  lemma ForcedMove(rd: Reader)
    requires PcShape(rd.pc, 16) && CanStep(rd) && Reached(Forced(rd), Ordered)
    ensures Reached(Forced(ReaderStep(rd, SECOND_BUFFER, 16, 16)), Ordered)
  {
    hide Reached, ReaderStep;
    Move(Forced(rd), Ordered, Step(0));
    assert Apply(Forced(rd), Step(0)) == Forced(ReaderStep(rd, SECOND_BUFFER, 16, 16));
  }

  lemma ReadStarted()
    ensures Reached(Forced(Victim(Loading(6, []), [])), Ordered)
  {
    hide Reached;
    ForcedWrite();
    var s := Forced(Victim(Resting, []));
    Move(s, Ordered, StartRead(0));
    assert Apply(s, StartRead(0)) == Forced(Victim(Head, []));
    ForcedMove(Victim(Head, []));
    ForcedMove(Victim(EarlyCheck(6), []));
  }

  lemma HeaderStarted()
    ensures Reached(Forced(Victim(Loading(6, [0, 1]), [])), Ordered)
  {
    hide Reached;
    ReadStarted();
    ForcedMove(Victim(Loading(6, []), []));
    assert [] + [SECOND_BUFFER[6]] == [0];
    ForcedMove(Victim(Loading(6, [0]), []));
    assert [0] + [SECOND_BUFFER[7]] == [0, 1];
  }

  /** The reader loads the header of the second message, which is still whole. */
  lemma HeaderLoaded()
    ensures Reached(Forced(Victim(Loading(6, [0, 1, 0, 0, 0]), [])), Ordered)
  {
    hide Reached;
    HeaderStarted();
    ForcedMove(Victim(Loading(6, [0, 1]), []));
    assert [0, 1] + [SECOND_BUFFER[8]] == [0, 1, 0];
    ForcedMove(Victim(Loading(6, [0, 1, 0]), []));
    assert [0, 1, 0] + [SECOND_BUFFER[9]] == [0, 1, 0, 0];
    ForcedMove(Victim(Loading(6, [0, 1, 0, 0]), []));
    assert [0, 1, 0, 0] + [SECOND_BUFFER[10]] == [0, 1, 0, 0, 0];
  }

  /** The third message stored from its header to its last byte, but not published. */
  function Overrun(rd: Reader): State {
    State(16, TORN_BUFFER, 16, Storing(LATER, UpTo(12)), [rd], [FIRST_ENTRY, SECOND_ENTRY, BLANK_ENTRY], 28)
  }

  lemma LaterImage()
    ensures Image(Msg(LATER)) == [0, 7, 0, 0, 0, 9, 0, 99, 0, 0, 0, 9]
  {
    assert ToBytes(0, 0) == [];
    assert ToBytes(0, 1) == [0];
    assert ToBytes(0, 2) == [0, 0];
    assert ToBytes(0, 3) == [0, 0, 0];
    assert ToBytes(7, 4) == [7, 0, 0, 0];
  }

  /** Meanwhile the writer stores its message, byte by byte from the first on. */
  lemma StoredOver(rd: Reader)
    requires PcShape(rd.pc, 16) && Reached(Forced(rd), Ordered)
    ensures Reached(Overrun(rd), Ordered)
  {
    var s := Forced(rd);
    assert Current(s) == Msg(LATER);
    LaterImage();
    hide Image;
    StoresLead(Start(16), s, Ordered, 12);
    assert Image(Msg(LATER))[..12] == Image(Msg(LATER));
    assert {} + UpTo(12) == UpTo(12);
    assert AfterStores(s, 12).buf == TORN_BUFFER;
  }

  lemma OverrunMove(rd: Reader)
    requires PcShape(rd.pc, 16) && CanStep(rd) && Reached(Overrun(rd), Ordered)
    ensures Reached(Overrun(ReaderStep(rd, TORN_BUFFER, 16, 16)), Ordered)
  {
    hide Reached, ReaderStep, UpTo;
    Move(Overrun(rd), Ordered, Step(0));
    assert Apply(Overrun(rd), Step(0)) == Overrun(ReaderStep(rd, TORN_BUFFER, 16, 16));
  }

  lemma TornPayloadConfirmed()
    ensures Reached(Overrun(Victim(Head, [Confirmed([9])]).(pos := 12, at := 2)), Ordered)
  {
    hide Reached, UpTo;
    HeaderLoaded();
    StoredOver(Victim(Loading(6, [0, 1, 0, 0, 0]), []));
    ShortHeader();
    OverrunMove(Victim(Loading(6, [0, 1, 0, 0, 0]), []));
    OverrunMove(Victim(Copying(6, 1, []), []));
    assert [] + [TORN_BUFFER[11]] == [9];
    var asked := Overrun(Victim(Copying(6, 1, [9]), []));
    Move(asked, Ordered, Answer(0, true));
    assert Apply(asked, Answer(0, true)) == Overrun(Victim(ConfirmCheck([9]), []));
    OverrunMove(Victim(ConfirmCheck([9]), []));
    assert [] + [Confirmed([9])] == [Confirmed([9])];
  }

  /** The reader has confirmed what is not the second message. */
  function Deceived(): State {
    Overrun(Victim(Head, [Confirmed([9])]).(pos := 12, at := 2))
  }

  lemma OneMessageMet()
    ensures var s := Deceived(); Messages(s.log[s.readers[0].first..s.readers[0].at]) == [[2]]
  {
    hide UpTo;
    assert Deceived().log[1..2] == [SECOND_ENTRY];
    assert [SECOND_ENTRY][..0] == [];
  }

  lemma UncleanCheck()
    ensures var s := Overrun(Victim(ConfirmCheck([9]), [])); Enabled(s, Step(0)) && !CleanCheck(s, Step(0))
  {
    hide UpTo;
  }

  /** Reads are not sound in every run: with one forced write a reader can confirm a
      payload that differs from the one message it met. The run is not clean: at the
      last check the record is not seen as expired although it was stored over. */
  lemma TornReadExists()
    ensures exists s :: HasRun(s, Ordered) && |s.readers| == 1 && s.readers[0].outcomes == [Confirmed([9])]
                        && s.readers[0].first <= s.readers[0].at <= |s.log|
                        && Messages(s.log[s.readers[0].first..s.readers[0].at]) == [[2]]
    ensures var s := Overrun(Victim(ConfirmCheck([9]), []));
            Enabled(s, Step(0)) && !CleanCheck(s, Step(0))
  {
    hide Reached, HasRun, UpTo, Messages, Enabled, CleanCheck;
    TornPayloadConfirmed();
    ReachedByRun(Deceived(), Ordered);
    OneMessageMet();
    UncleanCheck();
  }

  // ----- A torn header -----

  /** Payload bytes of the third message, stored where the second has its header, read
      as a header themselves. */
  lemma ForgedHeader()
    ensures DecodeHeader([0, 99, 0, 0, 0]) == Header(MSG, 99)
  {
    assert FromBytes([]) == 0;
    assert FromBytes([0]) == 0;
    assert FromBytes([0, 0]) == 0;
    assert FromBytes([0, 0, 0]) == 0;
    assert FromBytes([99, 0, 0, 0]) == 99;
    assert [0, 99, 0, 0, 0][1..] == [99, 0, 0, 0];
  }

  lemma ForgedStarted()
    ensures Reached(Overrun(Victim(Loading(6, []), [])), Ordered)
  {
    hide Reached, UpTo;
    ForcedWrite();
    StoredOver(Victim(Resting, []));
    var s := Overrun(Victim(Resting, []));
    Move(s, Ordered, StartRead(0));
    assert Apply(s, StartRead(0)) == Overrun(Victim(Head, []));
    OverrunMove(Victim(Head, []));
    OverrunMove(Victim(EarlyCheck(6), []));
  }

  lemma ForgedHalf()
    ensures Reached(Overrun(Victim(Loading(6, [0, 99]), [])), Ordered)
  {
    hide Reached, UpTo;
    ForgedStarted();
    OverrunMove(Victim(Loading(6, []), []));
    assert [] + [TORN_BUFFER[6]] == [0];
    OverrunMove(Victim(Loading(6, [0]), []));
    assert [0] + [TORN_BUFFER[7]] == [0, 99];
  }

  lemma ForgedLoaded()
    ensures Reached(Overrun(Victim(Loading(6, [0, 99, 0, 0, 0]), [])), Ordered)
  {
    hide Reached, UpTo;
    ForgedHalf();
    OverrunMove(Victim(Loading(6, [0, 99]), []));
    assert [0, 99] + [TORN_BUFFER[8]] == [0, 99, 0];
    OverrunMove(Victim(Loading(6, [0, 99, 0]), []));
    assert [0, 99, 0] + [TORN_BUFFER[9]] == [0, 99, 0, 0];
    OverrunMove(Victim(Loading(6, [0, 99, 0, 0]), []));
    assert [0, 99, 0, 0] + [TORN_BUFFER[10]] == [0, 99, 0, 0, 0];
  }

  /** With one forced write a reader can load a header that was never written as one,
      take it for valid and unexpired, and fail the bounds assertion. */
  lemma TornHeaderAborts()
    ensures exists s :: HasRun(s, Ordered) && |s.readers| == 1 && s.readers[0].pc == Aborted
  {
    ForgedLoaded();
    ForgedHeader();
    hide Reached, HasRun, UpTo, DecodeHeader;
    OverrunMove(Victim(Loading(6, [0, 99, 0, 0, 0]), []));
    ReachedByRun(Overrun(Victim(Aborted, [])), Ordered);
  }

  // ----- A silent reader -----

  /** The third message waits for the reader. */
  function Waiting(): State {
    Calm(SECOND_BUFFER, Victim(Resting, []), [FIRST_ENTRY, SECOND_ENTRY], 12).(writer := Blocked([3]))
  }

  lemma WaitingReached()
    ensures Reached(Waiting(), Gentle)
  {
    hide Reached;
    Activation();
    SecondMessage(Victim(Resting, []));
    var s := Calm(SECOND_BUFFER, Victim(Resting, []), [FIRST_ENTRY, SECOND_ENTRY], 12);
    Move(s, Gentle, Begin([3]));
    assert BytesToWrite([3], 12, 16) == 10;
    Move(s.(writer := Scanning([3], 0)), Gentle, Inspect);
  }

  /** A writer waits for a reader that died with its slot active. However the run goes
      on without a forced write, the stream end stays below the position that this
      message would take it to. */
  lemma SilentReaderStopsWriter()
    ensures exists s :: && HasRun(s, Gentle) && Shape(s) && s.writer == Blocked([3])
                        && forall t :: Leads(s, t, Around(0)) ==>
                             t.freePos < s.freePos + BytesToWrite([3], s.freePos, s.cap)
  {
    WaitingReached();
    var s := Waiting();
    ReachedByRun(s, Gentle);
    StartKeepsRing(s);
    assert BytesToWrite([3], 12, 16) == 10 && Protected(s, 0);
    hide Leads, HasRun, RingInv;
    forall t | Leads(s, t, Around(0))
      ensures t.freePos < 22
    {
      SilentReaderHolds(s, t, 0);
    }
  }

  // ----- A late entry -----

  function Latecomer(active: bool, pc: ReaderPc): Reader {
    Reader(active, 0, 0, pc, 0, 0, [])
  }

  /** The state with the latecomer at `rd`, the stream end a whole lap past the
      position it loaded, and a third write under way. */
  function Lapped(rd: Reader): State {
    State(16, SECOND_BUFFER, 16, Storing([3], {}), [rd], [FIRST_ENTRY, SECOND_ENTRY, BLANK_ENTRY], 16)
  }

  /** While the reader has loaded the stream end but not set its slot, no writer
      sees it, and two messages and a blank go by. */
  lemma LapWhileEntering()
    ensures Reached(Lapped(Latecomer(false, Entering)), Gentle)
  {
    hide Reached;
    Started();
    var rd := Latecomer(false, Entering);
    Move(Start(16), Gentle, LoadPosition(0));
    assert Apply(Start(16), LoadPosition(0)) == Calm(Start(16).buf, rd, [], 0);
    FirstMessage(rd);
    SecondMessage(rd);
    LastLap(rd);
  }

  lemma LastLap(rd: Reader)
    requires rd == Latecomer(false, Entering)
    requires Reached(Calm(SECOND_BUFFER, rd, [FIRST_ENTRY, SECOND_ENTRY], 12), Gentle)
    ensures Reached(Lapped(rd), Gentle)
  {
    var t := Calm(SECOND_BUFFER, rd, [FIRST_ENTRY, SECOND_ENTRY], 12);
    StartWrite(Start(16), t, Gentle, [3]);
    hide Leads;
    var u := t.(writer := Storing([3], {}));
    assert Current(u) == Blank(4);
    Move(u, Gentle, Publish);
    assert Apply(u, Publish) == Lapped(rd);
  }

  lemma LateStart()
    ensures Reached(Lapped(Latecomer(true, Head)), Gentle)
  {
    hide Reached;
    LapWhileEntering();
    var s := Lapped(Latecomer(false, Entering));
    Move(s, Gentle, Enter(0));
    assert Apply(s, Enter(0)) == Lapped(Latecomer(true, Resting));
    Move(Lapped(Latecomer(true, Resting)), Gentle, StartRead(0));
    assert Apply(Lapped(Latecomer(true, Resting)), StartRead(0)) == Lapped(Latecomer(true, Head));
  }

  lemma LateExpiry()
    ensures Reached(Lapped(Latecomer(true, Returned(Expiry))), Gentle)
  {
    hide Reached;
    LateStart();
    Move(Lapped(Latecomer(true, Head)), Gentle, Step(0));
    assert Apply(Lapped(Latecomer(true, Head)), Step(0)) == Lapped(Latecomer(true, EarlyCheck(0)));
    Move(Lapped(Latecomer(true, EarlyCheck(0))), Gentle, Step(0));
    assert Apply(Lapped(Latecomer(true, EarlyCheck(0))), Step(0)) == Lapped(Latecomer(true, Returned(Expiry)));
  }

  /** Without the condition on entering, a reader that never meets a forced write
      or an unreadable record can still be told it has expired. */
  lemma LateEntryExpires()
    ensures exists s :: && HasRun(s, Gentle) && |s.readers| == 1 && s.readers[0].pc == Returned(Expiry)
                        && AllReadable(s.log)
  {
    var s := Lapped(Latecomer(true, Returned(Expiry)));
    hide Reached, HasRun;
    LateExpiry();
    ReachedByRun(s, Gentle);
    assert AllReadable(s.log);
  }

  // ----- A reader at rest, in a buffer of any size -----

  /** The state after one message, with the reader activated behind it. */
  function Awaiting(s: State, pc: ReaderPc): State {
    s.(readers := [Reader(true, s.freePos, s.freePos, pc, 1, 1, [])])
  }

  lemma ActivatedBehind(cap: nat, data: seq<Byte>)
    requires HEADER_SIZE + |data| <= cap <= LENGTH_LIMIT
    ensures exists s :: && Reached(Awaiting(s, Resting), Gentle) && Shape(s) && s.cap == cap && s.writer.Idle?
                        && s.log == [Entry(0, Msg(data))] && s.freePos == s.dirty == HEADER_SIZE + |data|
  {
    FirstWrite(cap, data, Gentle);
    var s :| && Leads(Start(cap), s, Gentle) && Shape(s) && s.cap == cap && s.writer.Idle?
             && s.readers == [OUTSIDER] && s.log == [Entry(0, Msg(data))]
             && s.freePos == s.dirty == HEADER_SIZE + |data|;
    hide Leads;
    LeadsOn(Start(cap), s, Gentle, LoadPosition(0));
    var t := Apply(s, LoadPosition(0));
    LeadsOn(Start(cap), t, Gentle, Enter(0));
    assert Apply(t, Enter(0)) == Awaiting(s, Resting);
  }

  // ----- A message no reading lets through -----

  /** For every message of which two do not fit into the buffer: written once and then
      again, it needs the whole buffer, and is blocked by a reader at the stream end.
      Waiting and looking again changes nothing. */
  lemma CaughtUpBlocks(cap: nat, data: seq<Byte>)
    requires HEADER_SIZE + |data| <= cap <= LENGTH_LIMIT && cap < 2 * (HEADER_SIZE + |data|)
    ensures exists s :: && HasRun(s, Gentle) && Shape(s) && s.cap == cap && s.writer == Blocked(data)
                        && |s.readers| == 1 && s.readers[0].active
                        && s.readers[0].bpos == s.readers[0].pos == s.freePos
                        && Apply(Apply(s, Wait), Inspect) == s
  {
    ActivatedBehind(cap, data);
    var s :| && Reached(Awaiting(s, Resting), Gentle) && Shape(s) && s.cap == cap && s.writer.Idle?
             && s.log == [Entry(0, Msg(data))] && s.freePos == s.dirty == HEADER_SIZE + |data|;
    E.SecondTakesLap(data, cap);
    hide Reached, HasRun, BytesToWrite;
    var t := Awaiting(s, Resting);
    Move(t, Gentle, Begin(data));
    Move(t.(writer := Scanning(data, 0)), Gentle, Inspect);
    var u := t.(writer := Blocked(data));
    assert Apply(t.(writer := Scanning(data, 0)), Inspect) == u;
    assert Apply(Apply(u, Wait), Inspect) == u;
    ReachedByRun(u, Gentle);
  }

  // ----- Filler taken for expiry -----

  /** Just a header is left before the end of the buffer. */
  lemma TightFiller(s: State)
    requires Shape(s) && s.writer == Storing([1], {}) && s.cap >= 12 && s.freePos == s.cap - 5
    ensures Current(s) == Pad(0) && BytesToWrite([1], s.freePos, s.cap) == 11
    ensures WriteEntries([1], s.freePos, s.cap) == [Entry(s.cap - 5, Pad(0)), Entry(s.cap, Msg([1]))]
  {
    RemainderUnique(0, s.cap - 5, s.cap);
  }

  /** The reader in front of zero-length padding, with nothing stored over. */
  predicate Facing(s: State, cap: nat, pc: ReaderPc) {
    && Shape(s) && s.cap == cap && s.writer.Idle?
    && s.readers == [Reader(true, cap - 5, cap - 5, pc, 1, 1, [])]
    && |s.log| == 3 && s.log[0].rec != Msg([]) && s.log[1] == Entry(cap - 5, Pad(0)) && s.log[2] == Entry(cap, Msg([1]))
    && s.freePos == s.dirty == cap + 6
  }

  lemma FillerWritten(s: State)
    requires Reached(Awaiting(s, Resting), Gentle) && Shape(s) && s.cap >= 12 && s.writer.Idle?
    requires |s.log| == 1 && s.log[0].rec != Msg([]) && s.freePos == s.dirty == s.cap - 5
    ensures exists u :: Reached(u, Gentle) && Facing(u, s.cap, Resting)
  {
    var t := Awaiting(s, Resting).(writer := Storing([1], {}));
    TightFiller(t);
    hide BytesToWrite, NextRecord;
    StartWrite(Start(s.cap), Awaiting(s, Resting), Gentle, [1]);
    assert PastScan(t);
    hide Leads, StoredSoFar;
    WriteLeads(Start(s.cap), t, Gentle);
    WriteCompletes(t);
    ShapeOfLed(Start(s.cap), AfterWrite(t), Gentle);
    hide AfterWrite, PastScan, WriteEntries;
    assert Facing(AfterWrite(t), s.cap, Resting);
  }

  lemma FacingStarts(u: State, cap: nat)
    requires Facing(u, cap, Resting) && cap >= 12
    ensures Enabled(u, StartRead(0)) && Facing(Apply(u, StartRead(0)), cap, Head)
  {
  }

  /** A message of ten bytes less than the buffer, a reader that activates behind it,
      and one more byte written. */
  lemma FillerReached(cap: nat)
    requires 12 <= cap <= LENGTH_LIMIT
    ensures exists s :: Reached(s, Gentle) && Facing(s, cap, Head)
  {
    var data: seq<Byte> := seq(cap - 10, _ => 0);
    ActivatedBehind(cap, data);
    hide Reached, Awaiting;
    var s :| && Reached(Awaiting(s, Resting), Gentle) && Shape(s) && s.cap == cap && s.writer.Idle?
             && s.log == [Entry(0, Msg(data))] && s.freePos == s.dirty == HEADER_SIZE + |data|;
    FillerWritten(s);
    var u :| Reached(u, Gentle) && Facing(u, cap, Resting);
    FacingStarts(u, cap);
    assert Shape(u);
    hide Facing, Apply, Enabled, Shape;
    Move(u, Gentle, StartRead(0));
  }

  lemma FacingIsMidRead(s: State, cap: nat)
    requires Facing(s, cap, Head) && RingInv(s) && cap >= 12
    ensures MidRead(s, 0)
  {
    assert s.log[1..1] == [];
    hide Holds;
  }

  lemma StopsAtFiller(s: State, cap: nat, rd: Reader)
    requires Facing(s, cap, Head) && cap >= 12 && Finished(s, 0, rd)
    ensures rd.pc == Returned(Expiry) && rd.pos == cap - 5 && rd.at == 1
  {
    assert Unreadable(s.log[1].rec) && !Unreadable(s.log[2].rec);
    hide Protected, RingInv, Tally, Messages;
  }

  /** The one reader was told it has expired, although nothing it had to read was
      stored over, it is within a lap, and no message was empty. */
  predicate Misled(s: State) {
    && |s.readers| == 1 && s.readers[0].pc == Returned(Expiry) && Unharmed(s, s.readers[0].pos)
    && forall k :: 0 <= k < |s.log| ==> s.log[k].rec != Msg([])
  }

  lemma StopsMisled(s: State, cap: nat, rd: Reader)
    requires Facing(s, cap, Head) && cap >= 12 && Finished(s, 0, rd)
    ensures Misled(WithReader(s, 0, rd)) && WithReader(s, 0, rd).cap == cap
  {
    StopsAtFiller(s, cap, rd);
    hide Finished, Shape;
  }

  lemma FacingEndsMisled(s: State, cap: nat)
    requires Reached(s, Gentle) && Facing(s, cap, Head) && MidRead(s, 0) && cap >= 12
    ensures exists t :: Reached(t, Gentle) && t.cap == cap && Misled(t)
  {
    assert Shape(s) && s.cap == cap && |s.readers| == 1;
    hide MidRead, Leads, Facing, Finished, Misled, Shape;
    FinishesAlone(Start(cap), s, Gentle, 0);
    var rd :| Finished(s, 0, rd) && Leads(Start(cap), WithReader(s, 0, rd), Gentle);
    StopsMisled(s, cap, rd);
  }

  /** Without any forced write or empty message, in a buffer of any size from twelve
      bytes on, a read can end in expiry although nothing was lost. */
  lemma FillerExpires(cap: nat)
    requires 12 <= cap <= LENGTH_LIMIT
    ensures exists s :: HasRun(s, Gentle) && s.cap == cap && Misled(s)
  {
    hide Reached, HasRun, Misled;
    FillerReached(cap);
    var s :| Reached(s, Gentle) && Facing(s, cap, Head);
    StartKeepsRing(s);
    FacingIsMidRead(s, cap);
    hide RingInv, MidRead;
    FacingEndsMisled(s, cap);
    var t :| Reached(t, Gentle) && t.cap == cap && Misled(t);
    ReachedByRun(t, Gentle);
  }

  lemma StartKeepsRing(s: State)
    requires Reached(s, Gentle) && HEADER_SIZE <= s.cap <= LENGTH_LIMIT
    ensures RingInv(s)
  {
    assert RingInv(Start(s.cap));
    LeadsKeepsRing(Start(s.cap), s, Gentle);
  }
}
