/** The circular buffer and its writer, in place. The ghost `log` is what the
    bytes stand for; `Valid` ties the two together. */
module Ring {
  import opened Arithmetic
  import opened Bytes
  import opened Positions
  import opened Records
  import opened Slots
  import opened ReaderInfoTable

  class ByteRingBuffer {
    const configBufSizeBytes: nat
    const bytes: array<Byte>
    var freePos: nat
    var backPressureCount: nat
    ghost var log: Log
    ghost var dirty: nat

    ghost predicate Valid()
      reads this, bytes
    {
      Holds(bytes[..], configBufSizeBytes, log, freePos, dirty)
    }

    constructor (size: nat)
      requires HEADER_SIZE <= size <= LENGTH_LIMIT
      ensures Valid() && fresh(bytes) && configBufSizeBytes == size
      ensures freePos == dirty == backPressureCount == 0 && log == []
    {
      configBufSizeBytes := size;
      bytes := new Byte[size](_ => 0);
      freePos, backPressureCount := 0, 0;
      log, dirty := [], 0;
    }

    /** Stores bytes of the record being written; `offset` is where they belong in
        it. No logged record within a lap of them is touched. */
    method Store(ix: nat, data: seq<Byte>, ghost offset: nat)
      requires Valid()
      requires ix == freePos % configBufSizeBytes + offset && ix + |data| <= configBufSizeBytes
      modifies this`dirty, bytes
      ensures Valid() && dirty == Max(old(dirty), freePos + offset + |data|)
      ensures bytes[..] == old(bytes[..ix]) + data + old(bytes[ix + |data|..])
    {
      forall k | 0 <= k < |data| {
        bytes[ix + k] := data[k];
      }
      RangeStoreKeepsHolds(old(bytes[..]), bytes[..], configBufSizeBytes, log, freePos, dirty, offset, |data|);
      dirty := Max(dirty, freePos + offset + |data|);
    }

    /** Moves the stream end past a completely stored record. */
    method Publish(size: nat, ghost rec: Record)
      requires Valid() && size == Size(rec)
      requires Stored(bytes[..], configBufSizeBytes, Entry(freePos, rec))
      modifies this`freePos, this`log, this`dirty
      ensures Valid()
      ensures log == old(log) + [Entry(old(freePos), rec)]
      ensures freePos == old(freePos) + size && dirty == Max(old(dirty), freePos)
    {
      PublishKeepsHolds(bytes[..], configBufSizeBytes, log, freePos, dirty, rec);
      log := log + [Entry(freePos, rec)];
      freePos := freePos + size;
      dirty := Max(dirty, freePos);
    }
  }

  /** Stores within the record at the stream end, as one step. */
  lemma RangeStoreKeepsHolds(buf: seq<Byte>, buf': seq<Byte>, cap: nat, log: Log, freePos: nat, dirty: nat, offset: nat,
                             n: nat)
    requires Holds(buf, cap, log, freePos, dirty)
    requires |buf'| == cap && freePos % cap + offset + n <= cap
    requires forall j :: 0 <= j < cap && !(freePos % cap + offset <= j < freePos % cap + offset + n) ==>
               buf'[j] == buf[j]
    ensures Holds(buf', cap, log, freePos, Max(dirty, freePos + offset + n))
  {
    forall i | 0 <= i < |log| && Max(dirty, freePos + offset + n) <= log[i].pos + cap
      ensures Stored(buf', cap, log[i])
    {
      assert Link(log, freePos, cap, i);
      RangeStoreKeepsStored(buf, buf', cap, log[i], freePos, offset, n);
    }
  }

  lemma RangeStoreKeepsStored(buf: seq<Byte>, buf': seq<Byte>, cap: nat, e: Entry, freePos: nat, offset: nat, n: nat)
    requires cap > 0 && |buf| == |buf'| == cap && Stored(buf, cap, e)
    requires e.pos + Size(e.rec) <= freePos && freePos + offset + n <= e.pos + cap
    requires freePos % cap + offset + n <= cap
    requires forall j :: 0 <= j < cap && !(freePos % cap + offset <= j < freePos % cap + offset + n) ==>
               buf'[j] == buf[j]
    ensures Stored(buf', cap, e)
  {
    forall k | 0 <= k < |Image(e.rec)|
      ensures buf'[e.pos % cap + k] == Image(e.rec)[k]
    {
      var j, lo := e.pos % cap + k, freePos % cap + offset;
      if lo <= j < lo + n {
        IndexOffset(e.pos, k, cap);
        IndexOffset(freePos, j - freePos % cap, cap);
        IndexDistinct(e.pos + k, freePos + (j - freePos % cap), cap);
        assert false;
      }
    }
  }

  lemma MessageStored(buf: seq<Byte>, cap: nat, pos: nat, data: seq<Byte>)
    requires cap > 0 && |buf| == cap && pos % cap + HEADER_SIZE + |data| <= cap
    requires buf[pos % cap..pos % cap + HEADER_SIZE] == EncodeHeader(Header(MSG, |data|))
    requires buf[pos % cap + HEADER_SIZE..pos % cap + HEADER_SIZE + |data|] == data
    ensures Stored(buf, cap, Entry(pos, Msg(data)))
  {
    hide EncodeHeader;
    var ix, h := pos % cap, EncodeHeader(Header(MSG, |data|));
    forall k | 0 <= k < HEADER_SIZE + |data|
      ensures buf[ix + k] == (h + data)[k]
    {
      if k < HEADER_SIZE {
        assert buf[ix..ix + HEADER_SIZE][k] == buf[ix + k];
      } else {
        assert buf[ix + HEADER_SIZE..ix + HEADER_SIZE + |data|][k - HEADER_SIZE] == buf[ix + k];
      }
    }
  }

  /** The records a write of `payload` appends: the message, after filler if the
      rest of the buffer is too short for it. */
  function WriteEntries(payload: seq<Byte>, pos: nat, cap: nat): (es: Log)
    requires cap > 0 && HEADER_SIZE + |payload| <= cap
  {
    var first := NextRecord(payload, pos, cap);
    if first.Msg? then [Entry(pos, first)]
    else [Entry(pos, first), Entry(pos + Size(first), Msg(payload))]
  }

  /** A write appends its payload as one message, and nothing but filler besides. */
  lemma WriteEntriesMessages(payload: seq<Byte>, pos: nat, cap: nat)
    requires cap > 0 && HEADER_SIZE + |payload| <= cap
    ensures Messages(WriteEntries(payload, pos, cap)) == [payload]
  {
    var es := WriteEntries(payload, pos, cap);
    var n := |es| - 1;
    assert n == 0 ==> es[..n] == [];
    assert n == 1 ==> es[..n] == [es[0]] && [es[0]][..0] == [];
  }

  /** A write lays a record that readers reject iff its payload is empty or just a
      header is left before the end of the buffer. */
  lemma WriteUnreadableExactly(payload: seq<Byte>, pos: nat, cap: nat)
    requires cap > 0 && HEADER_SIZE + |payload| <= cap
    ensures (exists e :: e in WriteEntries(payload, pos, cap) && Unreadable(e.rec))
       <==> payload == [] || cap - pos % cap == HEADER_SIZE
  {
    var es := WriteEntries(payload, pos, cap);
    assert es[|es| - 1].rec == Msg(payload);
    assert es[0] in es && es[|es| - 1] in es;
  }

  predicate WellSized(script: seq<seq<Slot>>, n: nat) {
    forall t :: t in script ==> |t| == n
  }

  /** The backpressure handler, scripted: while the script lasts it says "wait" and
      returns when readers have left the slots as the script says; after that it
      says "write anyhow". */
  class BackPressureHandler {
    var script: seq<seq<Slot>>
    var calls: nat

    constructor (script: seq<seq<Slot>>)
      ensures this.script == script && calls == 0
    {
      this.script := script;
      calls := 0;
    }

    method Call(info: ReaderInfo) returns (continueRunning: bool)
      requires info.Valid() && info.configMaxReaders > 0
      requires WellSized(script, info.configMaxReaders)
      modifies this, info`readersMinMax, info.infos
      ensures info.Valid() && calls == old(calls) + 1
      ensures continueRunning <==> old(script) != []
      ensures continueRunning ==> script == old(script)[1..] && info.infos[..] == old(script)[0]
      ensures !continueRunning ==> script == [] && info.infos[..] == old(info.infos[..])
    {
      calls := calls + 1;
      continueRunning := script != [];
      if continueRunning {
        var table := script[0];
        assert table in script;
        forall i | 0 <= i < info.configMaxReaders {
          info.infos[i] := table[i];
        }
        info.UpdateActiveRange(0);
        script := script[1..];
      }
    }
  }

  /** How often a write of `n` bytes meets backpressure before it goes through. */
  function Waits(slots: seq<Slot>, script: seq<seq<Slot>>, freePos: nat, n: nat, cap: nat): nat
    decreases |script|
  {
    if Detect(slots, freePos, n, cap, None) == None then 0
    else if script == [] then 1
    else 1 + Waits(script[0], script[1..], freePos, n, cap)
  }

  /** A write is forced through iff it was blocked on every look at the slots. */
  lemma {:induction false} ForcedExactly(slots: seq<Slot>, script: seq<seq<Slot>>, freePos: nat, n: nat, cap: nat)
    ensures Waits(slots, script, freePos, n, cap) <= |script| + 1
    ensures Waits(slots, script, freePos, n, cap) == |script| + 1
       <==> Detect(slots, freePos, n, cap, None).Some?
            && forall t :: t in script ==> Detect(t, freePos, n, cap, None).Some?
    decreases |script|
  {
    if script != [] {
      ForcedExactly(script[0], script[1..], freePos, n, cap);
      assert script == [script[0]] + script[1..];
    }
  }

  /** The slots as the k-th look finds them. */
  function Look(slots: seq<Slot>, script: seq<seq<Slot>>, k: nat): seq<Slot>
    requires k <= |script|
  {
    if k == 0 then slots else script[k - 1]
  }

  /** A write goes through at the first look that finds nobody in the way: as many waits
      as looks before. */
  lemma {:induction false} WaitsExactly(slots: seq<Slot>, script: seq<seq<Slot>>, freePos: nat, n: nat, cap: nat,
                                        k: nat)
    requires k <= |script|
    ensures Waits(slots, script, freePos, n, cap) == k
       <==> && Detect(Look(slots, script, k), freePos, n, cap, None) == None
            && forall j :: 0 <= j < k ==> Detect(Look(slots, script, j), freePos, n, cap, None).Some?
    decreases k
  {
    hide Detect;
    if k > 0 {
      WaitsExactly(script[0], script[1..], freePos, n, cap, k - 1);
      assert forall j :: 0 <= j < k ==> Look(script[0], script[1..], j) == Look(slots, script, j + 1);
      if Waits(slots, script, freePos, n, cap) == k {
        forall j | 0 <= j < k ensures Detect(Look(slots, script, j), freePos, n, cap, None).Some? {
          if j > 0 { assert Look(script[0], script[1..], j - 1) == Look(slots, script, (j - 1) + 1); }
        }
      } else if (forall j :: 0 <= j < k ==> Detect(Look(slots, script, j), freePos, n, cap, None).Some?) {
        assert Look(slots, script, 0) == slots;
      }
    }
  }

  /** Somebody is active, and everybody active is at the stream end. */
  predicate CaughtUp(slots: seq<Slot>, freePos: nat) {
    !NoneActive(slots) && forall i :: 0 <= i < |slots| && slots[i].active ==> slots[i].position == freePos
  }

  /** A message is never held up by readers that have read everything iff two
      records of its size fit into the buffer. A longer one, up to the maximum,
      can meet a stream end where no amount of reading lets it through. */
  lemma ProgressExactly(payload: seq<Byte>, cap: nat)
    requires cap > 0 && HEADER_SIZE + |payload| <= cap
    ensures (forall slots, freePos: nat :: CaughtUp(slots, freePos)
               ==> Detect(slots, freePos, BytesToWrite(payload, freePos, cap), cap, None) == None)
       <==> 2 * (HEADER_SIZE + |payload|) <= cap
  {
    forall slots, freePos: nat | CaughtUp(slots, freePos)
      ensures Detect(slots, freePos, BytesToWrite(payload, freePos, cap), cap, None) == None
              <==> BytesToWrite(payload, freePos, cap) < cap
    {
      CaughtUpBlocksExactly(slots, freePos, BytesToWrite(payload, freePos, cap), cap);
    }
    AlwaysFitsExactly(payload, cap);
    hide Detect, BytesToWrite;
    if pos: nat :| BytesToWrite(payload, pos, cap) >= cap {
      assert [Slot(None, true, pos)][0].active;
      assert CaughtUp([Slot(None, true, pos)], pos);
    }
  }

  class Writer {
    const ring: ByteRingBuffer
    const readerInfo: ReaderInfo

    ghost predicate Valid()
      reads this, ring, ring.bytes, readerInfo, readerInfo.infos
    {
      ring.Valid() && readerInfo.Valid()
    }

    constructor (ring: ByteRingBuffer, readerInfo: ReaderInfo)
      requires ring.Valid() && readerInfo.Valid()
      ensures this.ring == ring && this.readerInfo == readerInfo && Valid()
    {
      this.ring := ring;
      this.readerInfo := readerInfo;
    }

    method GetMaxMessageSize() returns (n: nat)
      requires Valid()
      ensures n + HEADER_SIZE == ring.configBufSizeBytes
      ensures forall payload: seq<Byte> :: |payload| <= n <==> HEADER_SIZE + |payload| <= ring.configBufSizeBytes
    {
      n := ring.configBufSizeBytes - HEADER_SIZE;
    }

    /** Scans the range of active slots for one that the write would expire. */
    method DetectReaderBackpressure(n: nat, skip: Option<nat>) returns (bp: Option<nat>)
      requires Valid()
      ensures bp == Detect(readerInfo.infos[..], ring.freePos, n, ring.configBufSizeBytes, skip)
    {
      var min, max := readerInfo.GetActiveRange();
      ghost var slots := readerInfo.infos[..];
      DetectExact(slots, ring.freePos, n, ring.configBufSizeBytes, skip);
      var i := min;
      while i < max
        invariant min <= i
        invariant forall k :: 0 <= k < i && k < |slots| ==>
                    !SlotBlocks(slots[k], ring.freePos, n, ring.configBufSizeBytes, skip)
      {
        var info := readerInfo.infos[i];
        assert info == slots[i];
        if info.active && !Expired(info.position, ring.freePos, ring.configBufSizeBytes) {
          if skip.None? || info.position > skip.value {
            if Expired(info.position, ring.freePos + n, ring.configBufSizeBytes) {
              return Some(info.position);
            }
          }
        }
        i := i + 1;
      }
      return None;
    }

    /** Lays filler and message onto the buffer unless a reader is in the way. */
    method Write(data: seq<Byte>, readerBP: bool, skip: Option<nat>) returns (bp: Option<nat>)
      requires Valid() && HEADER_SIZE + |data| <= ring.configBufSizeBytes
      modifies ring`freePos, ring`log, ring`dirty, ring.bytes
      ensures Valid()
      ensures bp == if readerBP then Detect(readerInfo.infos[..], old(ring.freePos),
                                            BytesToWrite(data, old(ring.freePos), ring.configBufSizeBytes),
                                            ring.configBufSizeBytes, skip)
                    else None
      ensures bp.Some? ==> ring.freePos == old(ring.freePos) && ring.log == old(ring.log)
                           && ring.dirty == old(ring.dirty) && ring.bytes[..] == old(ring.bytes[..])
      ensures bp.None? ==>
                && ring.log == old(ring.log) + WriteEntries(data, old(ring.freePos), ring.configBufSizeBytes)
                && ring.freePos == old(ring.freePos) + BytesToWrite(data, old(ring.freePos), ring.configBufSizeBytes)
                && ring.dirty == Max(old(ring.dirty), ring.freePos)
    {
      var bufIndex := ring.freePos % ring.configBufSizeBytes;
      var lengthToBufEnd := ring.configBufSizeBytes - bufIndex;
      var bytesToWrite := HEADER_SIZE + |data|;
      var addPadding, addBlank := false, false;
      if lengthToBufEnd < HEADER_SIZE {
        addBlank := true;
        bytesToWrite := bytesToWrite + lengthToBufEnd;
      } else if lengthToBufEnd < |data| + HEADER_SIZE {
        addPadding := true;
        bytesToWrite := bytesToWrite + lengthToBufEnd;
      }

      assert bytesToWrite == BytesToWrite(data, ring.freePos, ring.configBufSizeBytes);
      hide EncodeHeader, Holds, RangeCurrent, Detect, Expired;
      bp := None;
      if readerBP {
        bp := DetectReaderBackpressure(bytesToWrite, skip);
        if bp.Some? { return; }
      }

      if addPadding || addBlank {
        AfterFiller(data, ring.freePos, ring.configBufSizeBytes);
        WriteFiller(bufIndex, lengthToBufEnd, addPadding);
        bufIndex := 0;
      }
      WriteMessage(bufIndex, data);
    }

    /** Padding with a header, or a blank without one, up to the end of the buffer. */
    method WriteFiller(bufIndex: nat, lengthToBufEnd: nat, padding: bool)
      requires Valid() && bufIndex == ring.freePos % ring.configBufSizeBytes
      requires lengthToBufEnd == ring.configBufSizeBytes - bufIndex
      requires padding <==> lengthToBufEnd >= HEADER_SIZE
      modifies ring`freePos, ring`log, ring`dirty, ring.bytes
      ensures Valid()
      ensures ring.log == old(ring.log)
              + [Entry(old(ring.freePos), if padding then Pad(lengthToBufEnd - HEADER_SIZE) else Blank(lengthToBufEnd))]
      ensures ring.freePos == old(ring.freePos) + lengthToBufEnd && ring.dirty == Max(old(ring.dirty), ring.freePos)
    {
      if padding {
        ring.Store(bufIndex, EncodeHeader(Header(PADDING, lengthToBufEnd - HEADER_SIZE)), 0);
        ring.Publish(lengthToBufEnd, Pad(lengthToBufEnd - HEADER_SIZE));
      } else {
        ring.Publish(lengthToBufEnd, Blank(lengthToBufEnd));
      }
    }

    /** Header, payload, and only then the new stream end. */
    method WriteMessage(bufIndex: nat, data: seq<Byte>)
      requires Valid() && bufIndex == ring.freePos % ring.configBufSizeBytes
      requires bufIndex + HEADER_SIZE + |data| <= ring.configBufSizeBytes
      modifies ring`freePos, ring`log, ring`dirty, ring.bytes
      ensures Valid()
      ensures ring.log == old(ring.log) + [Entry(old(ring.freePos), Msg(data))]
      ensures ring.freePos == old(ring.freePos) + HEADER_SIZE + |data|
      ensures ring.dirty == Max(old(ring.dirty), ring.freePos)
    {
      assert ring.bytes.Length == ring.configBufSizeBytes;
      hide EncodeHeader, Holds;
      ring.Store(bufIndex, EncodeHeader(Header(MSG, |data|)), 0);
      ring.Store(bufIndex + HEADER_SIZE, data, HEADER_SIZE);
      MessageStored(ring.bytes[..], ring.configBufSizeBytes, ring.freePos, data);
      hide Stored;
      ring.Publish(HEADER_SIZE + |data|, Msg(data));
    }

    /** Writes a message exactly once, waiting as the handler says. */
    method WriteEx(data: seq<Byte>, handler: BackPressureHandler)
      requires Valid() && HEADER_SIZE + |data| <= ring.configBufSizeBytes
      requires WellSized(handler.script, readerInfo.configMaxReaders)
      modifies ring`freePos, ring`log, ring`dirty, ring`backPressureCount, ring.bytes
      modifies handler, readerInfo`readersMinMax, readerInfo.infos
      ensures Valid() && WellSized(handler.script, readerInfo.configMaxReaders)
      ensures ring.log == old(ring.log) + WriteEntries(data, old(ring.freePos), ring.configBufSizeBytes)
      ensures ring.freePos == old(ring.freePos) + BytesToWrite(data, old(ring.freePos), ring.configBufSizeBytes)
      ensures ring.dirty == Max(old(ring.dirty), ring.freePos)
      ensures ring.backPressureCount == old(ring.backPressureCount)
              + Waits(old(readerInfo.infos[..]), old(handler.script), old(ring.freePos),
                      BytesToWrite(data, old(ring.freePos), ring.configBufSizeBytes), ring.configBufSizeBytes)
      ensures handler.calls - old(handler.calls) == ring.backPressureCount - old(ring.backPressureCount)
      ensures old(handler.script) == [] ==> handler.script == [] && readerInfo.infos[..] == old(readerInfo.infos[..])
    {
      ghost var n := BytesToWrite(data, ring.freePos, ring.configBufSizeBytes);
      ghost var total := Waits(readerInfo.infos[..], handler.script, ring.freePos, n, ring.configBufSizeBytes);
      var readBp := Write(data, true, None);
      while readBp.Some?
        invariant Valid()
        invariant WellSized(handler.script, readerInfo.configMaxReaders)
        invariant handler.calls - old(handler.calls) == ring.backPressureCount - old(ring.backPressureCount)
        invariant old(handler.script) == [] ==>
                    handler.script == [] && readerInfo.infos[..] == old(readerInfo.infos[..])
        invariant readBp.Some? ==>
                    && ring.freePos == old(ring.freePos) && ring.log == old(ring.log) && ring.dirty == old(ring.dirty)
                    && Detect(readerInfo.infos[..], ring.freePos, n, ring.configBufSizeBytes, None).Some?
                    && ring.backPressureCount
                       + Waits(readerInfo.infos[..], handler.script, ring.freePos, n, ring.configBufSizeBytes)
                       == old(ring.backPressureCount) + total
        invariant readBp.None? ==>
                    && ring.log == old(ring.log) + WriteEntries(data, old(ring.freePos), ring.configBufSizeBytes)
                    && ring.freePos == old(ring.freePos) + n && ring.dirty == Max(old(ring.dirty), ring.freePos)
                    && ring.backPressureCount == old(ring.backPressureCount) + total
        decreases readBp.Some?, |handler.script|
      {
        ring.backPressureCount := ring.backPressureCount + 1;
        var continueRunning := handler.Call(readerInfo);
        if !continueRunning {
          readBp := Write(data, false, None);
          break;
        }
        readBp := Write(data, true, None);
      }
    }
  }
}
