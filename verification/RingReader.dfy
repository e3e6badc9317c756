/** The reader of the circular buffer, in place, while no writer is at work. */
module RingReader {
  import opened Bytes
  import opened Positions
  import opened Records
  import opened Slots
  import opened ReaderInfoTable
  import opened Ring
  import opened QuiescentRead

  /** Copies every message, declines the payloads it was told to, and keeps the
      confirmed ones in order. */
  class CopyConfirmHandler {
    const declined: set<seq<Byte>>
    var data: seq<Byte>
    var confirmed: seq<seq<Byte>>

    constructor (declined: set<seq<Byte>>)
      ensures this.declined == declined && confirmed == []
    {
      this.declined := declined;
      data, confirmed := [], [];
    }

    method Copy(payload: seq<Byte>) returns (ok: bool)
      modifies this`data
      ensures data == payload && (ok <==> payload !in declined)
    {
      data := payload;
      ok := payload !in declined;
    }

    method Confirm()
      modifies this`confirmed
      ensures confirmed == old(confirmed) + [data]
    {
      confirmed := confirmed + [data];
    }
  }

  /** The messages a handler accepts, in order. */
  function Undeclined(ms: seq<seq<Byte>>, declined: set<seq<Byte>>): seq<seq<Byte>> {
    if ms == [] then []
    else
      var last := ms[|ms| - 1];
      Undeclined(ms[..|ms| - 1], declined) + (if last !in declined then [last] else [])
  }

  lemma {:induction false} UndeclinedAll(ms: seq<seq<Byte>>, declined: set<seq<Byte>>)
    requires forall m :: m in ms ==> m !in declined
    ensures Undeclined(ms, declined) == ms
  {
    if ms != [] { UndeclinedAll(ms[..|ms| - 1], declined); }
  }

  /** What was not declined is kept, as often as it came, and nothing else. */
  lemma {:induction false} UndeclinedExactly(ms: seq<seq<Byte>>, declined: set<seq<Byte>>, m: seq<Byte>)
    ensures multiset(Undeclined(ms, declined))[m] == if m in declined then 0 else multiset(ms)[m]
  {
    if ms != [] {
      var n := |ms| - 1;
      UndeclinedExactly(ms[..n], declined, m);
      assert ms == ms[..n] + [ms[n]];
    }
  }

  /** `pos` is the boundary of log record `i`, and its bytes can be trusted unless
      they are seen as expired. */
  ghost predicate Boundary(ring: ByteRingBuffer, pos: nat, i: nat)
    reads ring
  {
    i <= |ring.log| && pos == PosOf(ring.log, ring.freePos, i)
    && Sound(pos, ring.freePos, ring.dirty, ring.configBufSizeBytes)
  }

  class Reader {
    const ring: ByteRingBuffer

    constructor (ring: ByteRingBuffer)
      ensures this.ring == ring
    {
      this.ring := ring;
    }

    method LoadHeader(bufIndex: nat) returns (h: Header)
      requires bufIndex + HEADER_SIZE <= ring.bytes.Length
      ensures h == DecodeHeader(ring.bytes[..][bufIndex..bufIndex + HEADER_SIZE])
    {
      assert ring.bytes[bufIndex..bufIndex + HEADER_SIZE] == ring.bytes[..][bufIndex..bufIndex + HEADER_SIZE];
      h := DecodeHeader(ring.bytes[bufIndex..bufIndex + HEADER_SIZE]);
    }

    /** Copies a message; confirms it unless it is declined or has expired. */
    method Deliver(pos: nat, bufIndex: nat, length: nat, handler: CopyConfirmHandler) returns (expired: bool)
      requires bufIndex + HEADER_SIZE + length <= ring.bytes.Length
      modifies handler
      ensures expired ==> Expired(pos, ring.freePos, ring.configBufSizeBytes)
      ensures expired ==> handler.confirmed == old(handler.confirmed)
      ensures !expired ==> handler.confirmed == old(handler.confirmed)
                           + Undeclined([MessageAt(ring.bytes[..], bufIndex, length)], handler.declined)
    {
      var payload := ring.bytes[bufIndex + HEADER_SIZE..bufIndex + HEADER_SIZE + length];
      assert payload == MessageAt(ring.bytes[..], bufIndex, length);
      UndeclinedOne(payload, handler.declined);
      expired := false;
      var ok := handler.Copy(payload);
      if ok {
        expired := Expired(pos, ring.freePos, ring.configBufSizeBytes);
        if !expired { handler.Confirm(); }
      }
    }

    /** One record with a header: check, load, check again, copy, check, confirm. */
    method ReadRecord(pos: nat, bufIndex: nat, handler: CopyConfirmHandler)
      returns (expired: bool, next: nat, ghost passed: seq<seq<Byte>>)
      requires HEADER_SIZE <= ring.configBufSizeBytes == ring.bytes.Length && pos < ring.freePos
      requires bufIndex == BufIndex(pos, ring.configBufSizeBytes) && bufIndex + HEADER_SIZE <= ring.configBufSizeBytes
      requires Regular(ReadFrom(ring.bytes[..], ring.configBufSizeBytes, pos, ring.freePos))
      modifies handler
      ensures Step(ring.bytes[..], ring.configBufSizeBytes, pos, ring.freePos, expired, next, passed)
      ensures handler.confirmed == old(handler.confirmed) + Undeclined(passed, handler.declined)
    {
      var cap := ring.configBufSizeBytes;
      ghost var buf := ring.bytes[..];
      hide ReadFrom, DecodeHeader, Continues;
      ReadTurn(buf, cap, pos, bufIndex, ring.freePos);
      hide *;
      next, passed := pos, [];
      UndeclinedNone(handler.declined);
      if Expired(pos, ring.freePos, cap) { return true, next, passed; }
      var hdrCopy := LoadHeader(bufIndex);
      if !hdrCopy.Valid() || Expired(pos, ring.freePos, cap) { return true, next, passed; }
      assert bufIndex + HEADER_SIZE + hdrCopy.length <= cap;
      if hdrCopy.kind == MSG {
        expired := Deliver(pos, bufIndex, hdrCopy.length, handler);
        if expired { return true, next, passed; }
        passed := [MessageAt(buf, bufIndex, hdrCopy.length)];
      }
      expired, next := false, pos + HEADER_SIZE + hdrCopy.length;
    }

    /** Reads from `from` to the stream end; `published` is the shared position. */
    method ReadEx(from: nat, published: nat, handler: CopyConfirmHandler, ghost i: nat)
      returns (result: Result, pos: nat, bpos: nat)
      requires ring.Valid() && (from > ring.freePos || Boundary(ring, from, i))
      modifies handler
      ensures var r := ReadFrom(ring.bytes[..], ring.configBufSizeBytes, from, ring.freePos);
              && result == r.result && pos == r.stop
              && handler.confirmed == old(handler.confirmed) + Undeclined(r.messages, handler.declined)
      ensures result != Fault && (result == Invalid <==> from > ring.freePos)
      ensures result == Success ==> pos == bpos == ring.freePos
      ensures Near(published, from, ring.configBufSizeBytes) ==> Near(bpos, pos, ring.configBufSizeBytes)
    {
      pos, bpos := from, published;
      if pos > ring.freePos { return Invalid, pos, bpos; }
      var cap := ring.configBufSizeBytes;
      var bposMaxLag := cap / 2;
      ghost var buf, end := ring.bytes[..], ring.freePos;
      ghost var done: seq<seq<Byte>> := [];
      ReadIsRegular(buf, cap, ring.log, end, ring.dirty, from, i);
      Started(buf, cap, end, from, published);
      UndeclinedNone(handler.declined);
      assert cap > 0;
      hide *;
      while pos != ring.freePos
        invariant end == ring.freePos && buf == ring.bytes[..] && ring.bytes.Length == cap >= HEADER_SIZE
        invariant Progress(buf, cap, end, from, published, pos, bpos, done)
        invariant handler.confirmed == old(handler.confirmed) + Undeclined(done, handler.declined)
        decreases end - pos
      {
        Underway(buf, cap, end, from, published, pos, bpos, done);
        var bufIndex := BufIndex(pos, cap);
        if cap - bufIndex < HEADER_SIZE {
          Skipped(buf, cap, end, from, published, pos, bpos, done);
          pos := pos + (cap - bufIndex);
          continue;
        }
        var expired, next;
        ghost var passed;
        expired, next, passed := ReadRecord(pos, bufIndex, handler);
        Stepped(buf, cap, end, from, published, pos, bpos, done, expired, next, passed);
        KeptNext(old(handler.confirmed), done, passed, handler.declined);
        if expired { return Expiry, pos, bpos; }
        done := done + passed;
        pos := next;
        if pos >= bpos + bposMaxLag { bpos := pos; }
      }
      Finished(buf, cap, end, from, published, bpos, done);
      bpos := pos;
      result := Success;
    }
  }

  lemma ReadIsRegular(buf: seq<Byte>, cap: nat, log: Log, freePos: nat, dirty: nat, from: nat, i: nat)
    requires Holds(buf, cap, log, freePos, dirty) && i <= |log| && from == PosOf(log, freePos, i)
    requires Sound(from, freePos, dirty, cap)
    ensures Regular(ReadFrom(buf, cap, from, freePos))
  {
    ReadFollowsLog(buf, cap, log, freePos, dirty, i);
    hide ReadFrom, Holds, StopAt, Messages;
  }

  /** The loop invariant: `done` was read so far, `pos` is where the rest begins,
      and the published position has not fallen behind. */
  predicate Progress(buf: seq<Byte>, cap: nat, end: nat, from: nat, published: nat, pos: nat, bpos: nat,
                     done: seq<seq<Byte>>)
    requires HEADER_SIZE <= cap && |buf| == cap
  {
    && pos <= end
    && Continues(ReadFrom(buf, cap, from, end), done, ReadFrom(buf, cap, pos, end))
    && (Near(published, from, cap) ==> Near(bpos, pos, cap))
  }

  lemma Started(buf: seq<Byte>, cap: nat, end: nat, from: nat, published: nat)
    requires HEADER_SIZE <= cap && |buf| == cap && from <= end && Regular(ReadFrom(buf, cap, from, end))
    ensures Progress(buf, cap, end, from, published, from, published, [])
  {
    ContinuesFrom(ReadFrom(buf, cap, from, end));
  }

  lemma Underway(buf: seq<Byte>, cap: nat, end: nat, from: nat, published: nat, pos: nat, bpos: nat,
                 done: seq<seq<Byte>>)
    requires HEADER_SIZE <= cap && |buf| == cap && Progress(buf, cap, end, from, published, pos, bpos, done)
    ensures pos <= end && Regular(ReadFrom(buf, cap, pos, end))
  {
  }

  lemma Skipped(buf: seq<Byte>, cap: nat, end: nat, from: nat, published: nat, pos: nat, bpos: nat,
                done: seq<seq<Byte>>)
    requires HEADER_SIZE <= cap && |buf| == cap && Progress(buf, cap, end, from, published, pos, bpos, done)
    requires pos < end && cap - BufIndex(pos, cap) < HEADER_SIZE
    ensures pos + (cap - BufIndex(pos, cap)) <= end
    ensures Progress(buf, cap, end, from, published, pos + (cap - BufIndex(pos, cap)), bpos, done)
  {
    hide ReadFrom, Near;
    ReadSkip(buf, cap, pos, end);
    NearSkip(bpos, pos, cap);
  }

  lemma Stepped(buf: seq<Byte>, cap: nat, end: nat, from: nat, published: nat, pos: nat, bpos: nat,
                done: seq<seq<Byte>>,
                expired: bool, next: nat, passed: seq<seq<Byte>>)
    requires HEADER_SIZE <= cap && |buf| == cap && Progress(buf, cap, end, from, published, pos, bpos, done)
    requires Step(buf, cap, pos, end, expired, next, passed)
    ensures |passed| <= 1
    ensures expired ==> ReadFrom(buf, cap, from, end) == Reading(done, pos, Expiry) && passed == []
                        && (Near(published, from, cap) ==> Near(bpos, pos, cap))
    ensures !expired ==> pos < next <= end
    ensures !expired ==> Progress(buf, cap, end, from, published, next,
                                  if next >= bpos + cap / 2 then next else bpos, done + passed)
  {
    hide ReadFrom, Near;
    if !expired {
      ContinuesOn(ReadFrom(buf, cap, from, end), done, ReadFrom(buf, cap, pos, end),
                  passed, ReadFrom(buf, cap, next, end));
      NearAdvance(bpos, pos, next - pos, cap);
    }
  }

  lemma Finished(buf: seq<Byte>, cap: nat, end: nat, from: nat, published: nat, bpos: nat, done: seq<seq<Byte>>)
    requires HEADER_SIZE <= cap && |buf| == cap && Progress(buf, cap, end, from, published, end, bpos, done)
    ensures ReadFrom(buf, cap, from, end) == Reading(done, end, Success) && Near(end, end, cap)
  {
    ContinuesInto(ReadFrom(buf, cap, from, end), done, ReadFrom(buf, cap, end, end));
  }

  function MessageAt(buf: seq<Byte>, ix: nat, length: nat): seq<Byte>
    requires ix + HEADER_SIZE + length <= |buf|
  {
    buf[ix + HEADER_SIZE..ix + HEADER_SIZE + length]
  }

  predicate Regular(r: Reading) {
    r.result != Fault && r.result != Invalid
  }

  /** What remains to be read continues what was read so far. */
  predicate Continues(all: Reading, done: seq<seq<Byte>>, rest: Reading) {
    all == rest.(messages := done + rest.messages) && Regular(rest)
  }

  lemma ContinuesFrom(all: Reading)
    requires Regular(all)
    ensures Continues(all, [], all)
  {
  }

  lemma ContinuesInto(all: Reading, done: seq<seq<Byte>>, rest: Reading)
    requires Continues(all, done, rest)
    ensures Regular(rest)
    ensures rest.messages == [] ==> all == rest.(messages := done)
  {
  }

  lemma ContinuesOn(all: Reading, done: seq<seq<Byte>>, r: Reading, passed: seq<seq<Byte>>, rest: Reading)
    requires Continues(all, done, r) && Continues(r, passed, rest)
    ensures Continues(all, done + passed, rest)
  {
    assert done + (passed + rest.messages) == (done + passed) + rest.messages;
  }

  /** A blank is skipped. */
  lemma ReadSkip(buf: seq<Byte>, cap: nat, pos: nat, freePos: nat)
    requires HEADER_SIZE <= cap && |buf| == cap && pos < freePos
    requires Regular(ReadFrom(buf, cap, pos, freePos)) && cap - BufIndex(pos, cap) < HEADER_SIZE
    ensures pos + (cap - BufIndex(pos, cap)) <= freePos
    ensures ReadFrom(buf, cap, pos, freePos) == ReadFrom(buf, cap, pos + (cap - BufIndex(pos, cap)), freePos)
  {
    hide DecodeHeader;
  }

  /** What one turn at a record with a header amounts to. */
  predicate Step(buf: seq<Byte>, cap: nat, pos: nat, freePos: nat, expired: bool, next: nat, passed: seq<seq<Byte>>)
    requires HEADER_SIZE <= cap && |buf| == cap
  {
    var r := ReadFrom(buf, cap, pos, freePos);
    && |passed| <= 1
    && (if expired then r == Reading([], pos, Expiry) && passed == [] && next == pos
        else pos + HEADER_SIZE <= next <= freePos && Continues(r, passed, ReadFrom(buf, cap, next, freePos)))
  }

  lemma UndeclinedNone(declined: set<seq<Byte>>)
    ensures Undeclined([], declined) == []
  {
  }

  lemma UndeclinedOne(m: seq<Byte>, declined: set<seq<Byte>>)
    ensures Undeclined([m], declined) == if m !in declined then [m] else []
  {
    assert [m][..0] == [];
  }

  /** A record with a header, in a read that neither faults nor overruns. */
  lemma ReadTurn(buf: seq<Byte>, cap: nat, pos: nat, ix: nat, freePos: nat)
    requires HEADER_SIZE <= cap && |buf| == cap && pos < freePos
    requires Regular(ReadFrom(buf, cap, pos, freePos)) && ix == BufIndex(pos, cap) && ix + HEADER_SIZE <= cap
    ensures var r, h := ReadFrom(buf, cap, pos, freePos), DecodeHeader(buf[ix..ix + HEADER_SIZE]);
            if Expired(pos, freePos, cap) || !h.Valid() then Step(buf, cap, pos, freePos, true, pos, [])
            else
              && ix + HEADER_SIZE + h.length <= cap
              && Step(buf, cap, pos, freePos, false, pos + HEADER_SIZE + h.length,
                      if h.kind == MSG then [MessageAt(buf, ix, h.length)] else [])
  {
    hide DecodeHeader;
    var r, h := ReadFrom(buf, cap, pos, freePos), DecodeHeader(buf[ix..ix + HEADER_SIZE]);
    if !Expired(pos, freePos, cap) && h.Valid() {
      var rest := ReadFrom(buf, cap, pos + HEADER_SIZE + h.length, freePos);
      assert [] + rest.messages == rest.messages;
    }
  }

  lemma NearSkip(bpos: nat, pos: nat, cap: nat)
    requires cap >= HEADER_SIZE && cap - BufIndex(pos, cap) < HEADER_SIZE
    ensures Near(bpos, pos, cap) ==> Near(bpos, pos + (cap - BufIndex(pos, cap)), cap)
  {
    WrapToZero(pos, cap);
  }

  lemma NearAdvance(bpos: nat, pos: nat, size: nat, cap: nat)
    requires cap >= HEADER_SIZE
    ensures Near(bpos, pos, cap) ==>
              Near(if pos + size >= bpos + cap / 2 then pos + size else bpos, pos + size, cap)
  {
  }

  lemma UndeclinedNext(ms: seq<seq<Byte>>, next: seq<seq<Byte>>, declined: set<seq<Byte>>)
    requires |next| <= 1
    ensures Undeclined(ms + next, declined) == Undeclined(ms, declined) + Undeclined(next, declined)
  {
    if next == [] {
      assert ms + next == ms;
    } else {
      assert (ms + next)[..|ms|] == ms;
      assert next[..0] == [];
    }
  }

  lemma KeptNext(before: seq<seq<Byte>>, ms: seq<seq<Byte>>, next: seq<seq<Byte>>, declined: set<seq<Byte>>)
    requires |next| <= 1
    ensures var kept := (before + Undeclined(ms, declined)) + Undeclined(next, declined);
            && kept == before + Undeclined(ms + next, declined)
            && (next == [] ==> kept == before + Undeclined(ms, declined))
  {
    UndeclinedNext(ms, next, declined);
    UndeclinedNone(declined);
    hide Undeclined;
    assert ms + [] == ms;
  }

  /** A reader with a slot of its own. */
  class ReaderWithBackpressure {
    const ring: ByteRingBuffer
    const readerInfo: ReaderInfo
    const reader: Reader
    var procReaderId: int
    var readerPos: nat

    ghost predicate Valid()
      reads this, ring, ring.bytes, readerInfo, readerInfo.infos
    {
      && ring.Valid() && readerInfo.Valid() && reader.ring == ring
      && 0 <= procReaderId < readerInfo.configMaxReaders
    }

    constructor (ring: ByteRingBuffer, readerInfo: ReaderInfo, id: int)
      requires ring.Valid() && readerInfo.Valid() && 0 <= id < readerInfo.configMaxReaders
      ensures Valid() && this.ring == ring && this.readerInfo == readerInfo && procReaderId == id
    {
      this.ring := ring;
      this.readerInfo := readerInfo;
      this.procReaderId := id;
      this.readerPos := 0;
      var r := new Reader(ring);
      this.reader := r;
    }

    /** Takes a slot; none is left iff live processes hold them all. */
    static method Create(ring: ByteRingBuffer, readerInfo: ReaderInfo, process: nat, dead: set<nat>)
      returns (created: Option<ReaderWithBackpressure>)
      requires ring.Valid() && readerInfo.Valid()
      modifies readerInfo`readersMinMax, readerInfo.infos
      ensures readerInfo.Valid()
      ensures created == None <==>
                forall k :: 0 <= k < readerInfo.configMaxReaders ==> !Available(old(readerInfo.infos[k]), dead)
      ensures created.Some? ==>
                && fresh(created.value) && created.value.Valid()
                && created.value.ring == ring && created.value.readerInfo == readerInfo
                && readerInfo.infos[created.value.procReaderId].owner == Some(process) && !created.value.IsActive()
    {
      var id := readerInfo.Alloc(process, dead);
      if id == INVALID_READER_ID { return None; }
      assert readerInfo.infos[..][id] == readerInfo.infos[id];
      var reader := new ReaderWithBackpressure(ring, readerInfo, id);
      created := Some(reader);
    }

    predicate IsActive()
      reads this, readerInfo, readerInfo.infos
      requires 0 <= procReaderId < readerInfo.infos.Length
    {
      readerInfo.infos[procReaderId].active
    }

    method Activate()
      requires Valid()
      modifies this`readerPos, readerInfo`readersMinMax, readerInfo.infos
      ensures Valid() && IsActive()
      ensures readerPos == ring.freePos == readerInfo.infos[procReaderId].position
      ensures forall k :: 0 <= k < readerInfo.configMaxReaders && k != procReaderId ==>
                readerInfo.infos[k] == old(readerInfo.infos[k])
    {
      readerPos := ring.freePos;
      readerInfo.Activate(procReaderId, readerPos);
      assert forall k :: 0 <= k < readerInfo.configMaxReaders ==> readerInfo.infos[k] == readerInfo.infos[..][k];
    }

    method Deactivate()
      requires Valid()
      modifies readerInfo`readersMinMax, readerInfo.infos
      ensures Valid() && !IsActive()
      ensures forall k :: 0 <= k < readerInfo.configMaxReaders && k != procReaderId ==>
                readerInfo.infos[k] == old(readerInfo.infos[k])
    {
      readerInfo.Deactivate(procReaderId);
      assert forall k :: 0 <= k < readerInfo.configMaxReaders ==> readerInfo.infos[k] == readerInfo.infos[..][k];
    }

    /** Delivers what was logged since the last read, in order. */
    method ReadEx(handler: CopyConfirmHandler, ghost i: nat) returns (result: Result)
      requires Valid() && IsActive() && Boundary(ring, readerPos, i)
      modifies this`readerPos, handler, readerInfo`expiredReaders, readerInfo.infos
      ensures Valid() && IsActive() && result in {Success, Expiry}
      ensures var j := StopAt(ring.log, ring.freePos, ring.configBufSizeBytes, i);
              && handler.confirmed == old(handler.confirmed) + Undeclined(Messages(ring.log[i..j]), handler.declined)
              && readerPos == PosOf(ring.log, ring.freePos, j)
              && (result == Success <==> j == |ring.log|)
      ensures readerInfo.expiredReaders == old(readerInfo.expiredReaders) + (if result == Expiry then 1 else 0)
      ensures result == Success ==> readerInfo.infos[procReaderId].position == readerPos
      ensures Near(old(readerInfo.infos[procReaderId].position), old(readerPos), ring.configBufSizeBytes)
              ==> Near(readerInfo.infos[procReaderId].position, readerPos, ring.configBufSizeBytes)
      ensures forall k :: 0 <= k < readerInfo.configMaxReaders ==>
                readerInfo.infos[k] == old(readerInfo.infos[k]).(position := readerInfo.infos[k].position)
                && (k != procReaderId ==> readerInfo.infos[k] == old(readerInfo.infos[k]))
    {
      assert i < |ring.log| ==> Link(ring.log, ring.freePos, ring.configBufSizeBytes, i);
      ReadFollowsLog(ring.bytes[..], ring.configBufSizeBytes, ring.log, ring.freePos, ring.dirty, i);
      var pos, bpos;
      result, pos, bpos := reader.ReadEx(readerPos, readerInfo.infos[procReaderId].position, handler, i);
      readerPos := pos;
      readerInfo.infos[procReaderId] := readerInfo.infos[procReaderId].(position := bpos);
      SameActivity(old(readerInfo.infos[..]), readerInfo.infos[..]);
      if result == Expiry {
        readerInfo.expiredReaders := readerInfo.expiredReaders + 1;
      }
    }
  }
}
