/** The message protocol as a state machine. A step touches one byte of the buffer, the
    stream end, or one slot: a writer inspecting a slot, storing a byte or moving the
    stream end, a reader loading the stream end or copying a byte. Three kinds of step
    touch two words of shared memory: setting a slot (position and flag), inspecting one
    (flag and position), and a reader's comparison with the stream end followed by the
    update of its own slot. A writer may die between any two of its steps. */
module Protocol {
  import opened Arithmetic
  import opened Bytes
  import opened Positions
  import opened Records
  import opened Slots

  datatype WriterPc =
    | Idle                                         // the writer lock is free
    | Scanning(data: seq<Byte>, slot: nat)         // slots below `slot` were inspected
    | Blocked(data: seq<Byte>)                     // the backpressure handler is running
    | Storing(data: seq<Byte>, stored: set<nat>)   // offsets of the current record stored so far

  datatype ReaderPc =
    | Resting                                      // not inside a read
    | Entering                                     // activating: stream end loaded, slot not yet set
    | Head                                         // about to compare pos with the stream end
    | EarlyCheck(ix: nat)                          // `ix` is the buffer index of pos
    | Loading(ix: nat, header: seq<Byte>)          // header bytes copied so far
    | Copying(ix: nat, length: nat, copied: seq<Byte>)  // payload bytes copied so far
    | ConfirmCheck(payload: seq<Byte>)
    | Returned(result: Result)
    | Aborted                                      // the bounds assertion failed

  /** What became of a message record a reader got past. */
  datatype Outcome = Confirmed(payload: seq<Byte>) | Declined

  /** A reader process: its slot (`active`, `bpos`), its private position, and
      for reference the log indices of its activation point and its position. */
  datatype Reader = Reader(
    active: bool, bpos: nat, pos: nat, pc: ReaderPc,
    first: nat, at: nat, outcomes: seq<Outcome>)

  /** `log` and `dirty` are history: no step branches on them. */
  datatype State = State(
    cap: nat, buf: seq<Byte>, freePos: nat, writer: WriterPc, readers: seq<Reader>,
    log: Log, dirty: nat)

  datatype Action =
    | Begin(data: seq<Byte>)
    | Inspect
    | Wait
    | Force
    | StoreByte(offset: nat)
    | Publish
    | Crash
    | LoadPosition(r: nat)
    | Enter(r: nat)
    | Leave(r: nat)
    | StartRead(r: nat)
    | Step(r: nat)
    | Answer(r: nat, accept: bool)

  // ----- Shape: what the types leave open -----

  predicate PcShape(pc: ReaderPc, cap: nat) {
    match pc
    case EarlyCheck(ix) => ix + HEADER_SIZE <= cap
    case Loading(ix, header) => |header| <= HEADER_SIZE && ix + HEADER_SIZE <= cap
    case Copying(ix, length, copied) => |copied| <= length && ix + HEADER_SIZE + length <= cap
    case _ => true
  }

  predicate Shape(s: State) {
    && HEADER_SIZE <= s.cap <= LENGTH_LIMIT
    && |s.buf| == s.cap
    && (!s.writer.Idle? ==> HEADER_SIZE + |s.writer.data| <= s.cap)
    && (s.writer.Scanning? ==> s.writer.slot <= |s.readers|)
    && (forall r :: 0 <= r < |s.readers| ==> PcShape(s.readers[r].pc, s.cap))
  }

  /** The record the writer is storing at the stream end. */
  function Current(s: State): (rec: Record)
    requires Shape(s) && s.writer.Storing?
  {
    NextRecord(s.writer.data, s.freePos, s.cap)
  }

  // ----- Reader steps -----

  predicate Quiescent(rd: Reader) {
    rd.pc.Resting? || rd.pc.Returned?
  }

  /** Past the record at `pos`; the shared slot is updated sparingly. */
  function Advance(rd: Reader, length: nat, cap: nat): Reader {
    var next := rd.pos + HEADER_SIZE + length;
    rd.(pos := next,
        bpos := if next >= rd.bpos + cap / 2 then next else rd.bpos,
        at := rd.at + 1,
        pc := Head)
  }

  predicate CanStep(rd: Reader) {
    rd.pc.Head? || rd.pc.EarlyCheck? || rd.pc.Loading? || rd.pc.ConfirmCheck?
    || (rd.pc.Copying? && |rd.pc.copied| < rd.pc.length)
  }

  function ReaderStep(rd: Reader, buf: seq<Byte>, freePos: nat, cap: nat): (rd': Reader)
    requires cap >= HEADER_SIZE && |buf| == cap && PcShape(rd.pc, cap) && CanStep(rd)
    ensures PcShape(rd'.pc, cap)
  {
    match rd.pc
    case Head =>
      var ix := rd.pos % cap;
      if rd.pos == freePos then rd.(bpos := rd.pos, pc := Returned(Success))
      else if cap - ix < HEADER_SIZE then rd.(pos := rd.pos + (cap - ix), at := rd.at + 1)
      else rd.(pc := EarlyCheck(ix))
    case EarlyCheck(ix) =>
      if Expired(rd.pos, freePos, cap) then rd.(pc := Returned(Expiry))
      else rd.(pc := Loading(ix, []))
    case Loading(ix, header) =>
      if |header| < HEADER_SIZE then rd.(pc := Loading(ix, header + [buf[ix + |header|]]))
      else
        var h := DecodeHeader(header);
        if !h.Valid() || Expired(rd.pos, freePos, cap) then rd.(pc := Returned(Expiry))
        else if ix + HEADER_SIZE + h.length > cap then rd.(pc := Aborted)
        else if h.kind == MSG then rd.(pc := Copying(ix, h.length, []))
        else Advance(rd, h.length, cap)
    case Copying(ix, length, copied) =>
      rd.(pc := Copying(ix, length, copied + [buf[ix + HEADER_SIZE + |copied|]]))
    case ConfirmCheck(payload) =>
      if Expired(rd.pos, freePos, cap) then rd.(pc := Returned(Expiry))
      else Advance(rd.(outcomes := rd.outcomes + [Confirmed(payload)]), |payload|, cap)
  }

  /** The copy handler's answer; a declined message is skipped unconfirmed. */
  function AnswerCopy(rd: Reader, accept: bool, cap: nat): (rd': Reader)
    requires cap > 0 && rd.pc.Copying?
    ensures PcShape(rd'.pc, cap)
  {
    if accept then rd.(pc := ConfirmCheck(rd.pc.copied))
    else Advance(rd.(outcomes := rd.outcomes + [Declined]), rd.pc.length, cap)
  }

  // ----- The step relation -----

  predicate Enabled(s: State, a: Action)
    requires Shape(s)
  {
    match a
    case Begin(data) => s.writer.Idle? && HEADER_SIZE + |data| <= s.cap
    case Inspect => s.writer.Scanning?
    case Wait => s.writer.Blocked?
    case Force => s.writer.Blocked?
    case StoreByte(k) => s.writer.Storing? && k < |Image(Current(s))| && k !in s.writer.stored
    case Publish => s.writer.Storing? && forall k :: 0 <= k < |Image(Current(s))| ==> k in s.writer.stored
    case Crash => !s.writer.Idle?
    case LoadPosition(r) => r < |s.readers| && !s.readers[r].active && Quiescent(s.readers[r])
    case Enter(r) => r < |s.readers| && s.readers[r].pc.Entering?
    case Leave(r) => r < |s.readers| && s.readers[r].active && Quiescent(s.readers[r])
    case StartRead(r) => r < |s.readers| && s.readers[r].active && Quiescent(s.readers[r])
    case Step(r) => r < |s.readers| && CanStep(s.readers[r])
    case Answer(r, _) => r < |s.readers| && s.readers[r].pc.Copying?
                         && |s.readers[r].pc.copied| == s.readers[r].pc.length
  }

  function WithReader(s: State, r: nat, rd: Reader): State
    requires r < |s.readers|
  {
    s.(readers := s.readers[r := rd])
  }

  function Apply(s: State, a: Action): (s': State)
    requires Shape(s) && Enabled(s, a)
    ensures Shape(s')
  {
    match a
    case Begin(data) => s.(writer := Scanning(data, 0))
    case Inspect =>
      var Scanning(data, i) := s.writer;
      if i == |s.readers| then s.(writer := Storing(data, {}))
      else if Blocks(s.readers[i].active, s.readers[i].bpos, s.freePos, BytesToWrite(data, s.freePos, s.cap), s.cap)
      then s.(writer := Blocked(data))
      else s.(writer := Scanning(data, i + 1))
    case Wait => s.(writer := Scanning(s.writer.data, 0))
    case Force => s.(writer := Storing(s.writer.data, {}))
    case StoreByte(k) =>
      s.(buf := s.buf[(s.freePos + k) % s.cap := Image(Current(s))[k]],
         dirty := Max(s.dirty, s.freePos + k + 1),
         writer := Storing(s.writer.data, s.writer.stored + {k}))
    case Publish =>
      var rec := Current(s);
      var end := s.freePos + Size(rec);
      s.(log := s.log + [Entry(s.freePos, rec)],
         freePos := end,
         dirty := Max(s.dirty, end),
         writer := if rec.Msg? then Idle else Storing(s.writer.data, {}))
    case Crash => s.(writer := Idle)
    case LoadPosition(r) =>
      WithReader(s, r, s.readers[r].(pos := s.freePos, first := |s.log|, at := |s.log|, outcomes := [], pc := Entering))
    case Enter(r) => WithReader(s, r, s.readers[r].(bpos := s.readers[r].pos, active := true, pc := Resting))
    case Leave(r) => WithReader(s, r, s.readers[r].(active := false))
    case StartRead(r) =>
      WithReader(s, r, s.readers[r].(pc := if s.readers[r].pos > s.freePos then Returned(Invalid) else Head))
    case Step(r) => WithReader(s, r, ReaderStep(s.readers[r], s.buf, s.freePos, s.cap))
    case Answer(r, accept) => WithReader(s, r, AnswerCopy(s.readers[r], accept, s.cap))
  }

  // ----- Runs -----

  predicate Init(s: State) {
    && Shape(s)
    && s.freePos == 0 && s.dirty == 0 && s.log == [] && s.writer.Idle?
    && (forall r :: 0 <= r < |s.readers| ==> s.readers[r] == Reader(false, 0, 0, Resting, 0, 0, []))
  }

  predicate IsRun(states: seq<State>, acts: seq<Action>) {
    && |states| == |acts| + 1
    && Init(states[0])
    && (forall i :: 0 <= i < |states| ==> Shape(states[i]))
    && (forall i :: 0 <= i < |acts| ==> Enabled(states[i], acts[i]) && states[i + 1] == Apply(states[i], acts[i]))
  }
}
