/** The record stream that writers lay onto the circular buffer: record kinds,
    where each may stand, the append-only log of records, and what it means for
    the buffer to still hold them. */
module Records {
  import opened Arithmetic
  import opened Bytes

  const HEADER_SIZE: nat := 5
  const MSG: Byte := 0
  const PADDING: Byte := 1
  const LENGTH_LIMIT: nat := 0x1_0000_0000  // lengths are 32 bits wide

  // ----- Message header: a packed kind byte and a 32-bit length -----

  datatype Header = Header(kind: Byte, length: nat) {
    predicate Valid() {
      (kind == MSG || kind == PADDING) && length != 0
    }
  }

  function EncodeHeader(h: Header): (bs: seq<Byte>)
    ensures |bs| == HEADER_SIZE
  {
    [h.kind] + ToBytes(h.length, 4)
  }

  function DecodeHeader(bs: seq<Byte>): (h: Header)
    requires |bs| == HEADER_SIZE
  {
    Header(bs[0], FromBytes(bs[1..]))
  }

  lemma DecodeEncodeHeader(h: Header)
    requires h.length < LENGTH_LIMIT
    ensures DecodeHeader(EncodeHeader(h)) == h
  {
    FromToBytes(h.length, 4);
    assert EncodeHeader(h)[1..] == ToBytes(h.length, 4);
  }

  // ----- Records -----

  /** A message, a padding record (header only, then unused bytes up to the end
      of the buffer) or a blank (fewer than five bytes, not even a header). */
  datatype Record =
    | Msg(payload: seq<Byte>)
    | Pad(unused: nat)
    | Blank(skip: nat)

  /** The number of stream positions a record takes. */
  function Size(rec: Record): nat {
    match rec
    case Msg(payload) => HEADER_SIZE + |payload|
    case Pad(unused) => HEADER_SIZE + unused
    case Blank(skip) => skip
  }

  function HeaderOf(rec: Record): Header
    requires !rec.Blank?
  {
    match rec
    case Msg(payload) => Header(MSG, |payload|)
    case Pad(unused) => Header(PADDING, unused)
  }

  /** The bytes a writer stores for a record, from its first position on. */
  function Image(rec: Record): (bs: seq<Byte>)
    ensures |bs| <= Size(rec)
  {
    match rec
    case Msg(payload) => EncodeHeader(HeaderOf(rec)) + payload
    case Pad(_) => EncodeHeader(HeaderOf(rec))
    case Blank(skip) => []
  }

  /** The records a reader's header check rejects although they are intact. */
  predicate Unreadable(rec: Record) {
    rec == Msg([]) || rec == Pad(0)
  }

  /** A record may stand at position `pos` of a buffer of `cap` bytes: messages
      do not wrap, padding and blank reach exactly to the end of the buffer. */
  predicate Fits(rec: Record, pos: nat, cap: nat)
    requires cap > 0
  {
    match rec
    case Msg(payload) => pos % cap + HEADER_SIZE + |payload| <= cap
    case Pad(unused) => pos % cap + HEADER_SIZE + unused == cap
    case Blank(skip) => 0 < skip < HEADER_SIZE && pos % cap + skip == cap
  }

  // ----- How a read ends -----

  /** At the stream end, past the stream end to begin with, or at a record that is or
      seems expired. `Fault` is a failed bounds assertion; the theorems exclude it. */
  datatype Result = Success | Invalid | Expiry | Fault

  // ----- What one write appends -----

  /** The first record a write of `payload` lays at `pos`. */
  function NextRecord(payload: seq<Byte>, pos: nat, cap: nat): (rec: Record)
    requires cap > 0
    requires HEADER_SIZE + |payload| <= cap
    ensures Fits(rec, pos, cap) && Size(rec) > 0
  {
    var left := cap - pos % cap;
    if left < HEADER_SIZE then Blank(left)
    else if left < |payload| + HEADER_SIZE then Pad(left - HEADER_SIZE)
    else Msg(payload)
  }

  /** The message itself is laid iff it fits there; otherwise filler, with a header iff
      there is room for one. */
  lemma LaidExactly(payload: seq<Byte>, pos: nat, cap: nat)
    requires cap > 0 && HEADER_SIZE + |payload| <= cap
    ensures var rec := NextRecord(payload, pos, cap);
            && (rec == Msg(payload) <==> Fits(Msg(payload), pos, cap))
            && (rec.Msg? <==> rec == Msg(payload))
            && (rec.Blank? <==> pos % cap + HEADER_SIZE > cap)
  {
  }

  /** All bytes a write of `payload` at `pos` consumes, filler included. */
  function BytesToWrite(payload: seq<Byte>, pos: nat, cap: nat): (n: nat)
    requires cap > 0
    requires HEADER_SIZE + |payload| <= cap
  {
    var rec := NextRecord(payload, pos, cap);
    if rec.Msg? then Size(rec) else Size(rec) + HEADER_SIZE + |payload|
  }

  lemma AfterFiller(payload: seq<Byte>, pos: nat, cap: nat)
    requires cap > 0 && HEADER_SIZE + |payload| <= cap
    requires !NextRecord(payload, pos, cap).Msg?
    ensures var next := pos + Size(NextRecord(payload, pos, cap));
            next % cap == 0 && NextRecord(payload, next, cap) == Msg(payload)
  {
    WrapToZero(pos, cap);
  }

  lemma FillerFits(payload: seq<Byte>, pos: nat, cap: nat)
    requires 2 * (HEADER_SIZE + |payload|) <= cap
    ensures Size(NextRecord(payload, pos, cap)) <= BytesToWrite(payload, pos, cap) < cap
  {
  }

  /** One byte too few is left for the record, so nearly twice its size is used. */
  lemma TightFit(payload: seq<Byte>, cap: nat)
    requires cap > 0 && HEADER_SIZE + |payload| <= cap
    ensures var size := HEADER_SIZE + |payload|;
            BytesToWrite(payload, cap - (size - 1), cap) == 2 * size - 1
  {
    var pos := cap - (HEADER_SIZE + |payload| - 1);
    RemainderUnique(0, pos, cap);
    assert pos % cap == pos;
  }

  /** A message can be laid down anywhere in less than one lap, filler included,
      iff two records of its size fit into the buffer. */
  lemma {:induction false} AlwaysFitsExactly(payload: seq<Byte>, cap: nat)
    requires cap > 0 && HEADER_SIZE + |payload| <= cap
    ensures (forall pos: nat :: BytesToWrite(payload, pos, cap) < cap) <==> 2 * (HEADER_SIZE + |payload|) <= cap
  {
    TightFit(payload, cap);
    hide BytesToWrite, NextRecord;
    if 2 * (HEADER_SIZE + |payload|) <= cap {
      forall pos: nat ensures BytesToWrite(payload, pos, cap) < cap {
        FillerFits(payload, pos, cap);
      }
    }
  }

  // ----- Buffer indices -----

  lemma WrapToZero(pos: nat, cap: nat)
    requires cap > 0
    ensures (pos + (cap - pos % cap)) % cap == 0
  {
    RemainderUnique(pos / cap + 1, 0, cap);
  }

  /** Moving on inside one lap of the buffer moves the index on alike. */
  lemma IndexOffset(pos: nat, k: nat, cap: nat)
    requires cap > 0 && pos % cap + k < cap
    ensures (pos + k) % cap == pos % cap + k
  {
    RemainderUnique(pos / cap, pos % cap + k, cap);
  }

  /** Positions less than one lap apart have different indices. */
  lemma IndexDistinct(early: nat, late: nat, cap: nat)
    requires cap > 0 && early < late < early + cap
    ensures early % cap != late % cap
  {
    Multiples(late / cap - early / cap, cap);
  }

  /** A published position `bpos` trails `pos` by less than half the buffer, plus
      at most a skipped blank. */
  predicate Near(bpos: nat, pos: nat, cap: nat)
    requires cap > 0
  {
    && bpos <= pos
    && (pos < bpos + cap / 2 || (pos < bpos + cap / 2 + 4 && pos % cap + HEADER_SIZE <= cap))
  }

  // ----- The log -----

  datatype Entry = Entry(pos: nat, rec: Record)

  type Log = seq<Entry>

  /** The stream position of record `i`, or of the stream end. */
  function PosOf(log: Log, freePos: nat, i: nat): nat
    requires i <= |log|
  {
    if i < |log| then log[i].pos else freePos
  }

  /** Record `i` is well placed and the next one starts where it ends. */
  predicate Link(log: Log, freePos: nat, cap: nat, i: nat)
    requires cap > 0 && i < |log|
  {
    && log[i].pos + Size(log[i].rec) == PosOf(log, freePos, i + 1)
    && log[i].pos + Size(log[i].rec) <= freePos
    && Fits(log[i].rec, log[i].pos, cap)
  }

  /** The log is a gapless chain of well-placed records from 0 to `freePos`. */
  predicate Chained(log: Log, freePos: nat, cap: nat)
    requires cap > 0
  {
    && PosOf(log, freePos, 0) == 0
    && (forall i :: 0 <= i < |log| ==> Link(log, freePos, cap, i))
  }

  /** The bytes stored for a record are still in place. */
  predicate Stored(buf: seq<Byte>, cap: nat, e: Entry)
    requires cap > 0 && |buf| == cap
  {
    && Fits(e.rec, e.pos, cap)
    && (forall k :: 0 <= k < |Image(e.rec)| ==> buf[e.pos % cap + k] == Image(e.rec)[k])
  }

  /** The buffer invariant. `dirty` bounds every position stored to so far,
      published or not, so a record is untouched while `dirty` has not gone a
      whole lap past its start. */
  predicate Holds(buf: seq<Byte>, cap: nat, log: Log, freePos: nat, dirty: nat) {
    && HEADER_SIZE <= cap <= LENGTH_LIMIT
    && |buf| == cap
    && freePos <= dirty
    && Chained(log, freePos, cap)
    && (forall i :: 0 <= i < |log| && dirty <= log[i].pos + cap ==> Stored(buf, cap, log[i]))
  }

  /** The payloads of the message records, in log order. */
  function Messages(log: Log): (ms: seq<seq<Byte>>)
    ensures |ms| <= |log|
  {
    if log == [] then []
    else
      var last := log[|log| - 1].rec;
      Messages(log[..|log| - 1]) + (if last.Msg? then [last.payload] else [])
  }

  lemma MessagesNext(log: Log, a: nat, i: nat)
    requires a <= i < |log|
    ensures Messages(log[a..i + 1])
         == if log[i].rec.Msg? then Messages(log[a..i]) + [log[i].rec.payload] else Messages(log[a..i])
  {
    assert log[a..i + 1][..|log[a..i + 1]| - 1] == log[a..i];
  }

  lemma {:induction false} MessagesConcat(a: Log, b: Log)
    ensures Messages(a + b) == Messages(a) + Messages(b)
  {
    if b == [] {
      assert a + b == a;
    } else {
      var n := |b| - 1;
      MessagesConcat(a, b[..n]);
      assert (a + b)[..|a + b| - 1] == a + b[..n];
    }
  }

  // ----- How stores and publications act on the buffer -----

  lemma StoreKeepsStored(buf: seq<Byte>, cap: nat, e: Entry, at: nat, b: Byte)
    requires cap > 0 && |buf| == cap && Stored(buf, cap, e)
    requires e.pos + Size(e.rec) <= at < e.pos + cap
    ensures Stored(buf[at % cap := b], cap, e)
  {
    forall k | 0 <= k < |Image(e.rec)|
      ensures buf[at % cap := b][e.pos % cap + k] == Image(e.rec)[k]
    {
      IndexOffset(e.pos, k, cap);
      IndexDistinct(e.pos + k, at, cap);
    }
  }

  /** One byte stored at or beyond the stream end leaves every record alone that
      is within a lap of it. */
  lemma StoreKeepsHolds(buf: seq<Byte>, cap: nat, log: Log, freePos: nat, dirty: nat, at: nat, b: Byte)
    requires Holds(buf, cap, log, freePos, dirty)
    requires freePos <= at
    ensures Holds(buf[at % cap := b], cap, log, freePos, Max(dirty, at + 1))
  {
    forall i | 0 <= i < |log| && Max(dirty, at + 1) <= log[i].pos + cap
      ensures Stored(buf[at % cap := b], cap, log[i])
    {
      assert Link(log, freePos, cap, i);
      StoreKeepsStored(buf, cap, log[i], at, b);
    }
  }

  /** Publishing a completely stored record appends it to the log. */
  lemma PublishKeepsHolds(buf: seq<Byte>, cap: nat, log: Log, freePos: nat, dirty: nat, rec: Record)
    requires Holds(buf, cap, log, freePos, dirty)
    requires Stored(buf, cap, Entry(freePos, rec))
    ensures var end := freePos + Size(rec);
            Holds(buf, cap, log + [Entry(freePos, rec)], end, Max(dirty, end))
  {
    var end := freePos + Size(rec);
    var log' := log + [Entry(freePos, rec)];
    forall i | 0 <= i < |log'|
      ensures Link(log', end, cap, i)
    {
      if i < |log| { assert Link(log, freePos, cap, i); }
    }
  }
}
