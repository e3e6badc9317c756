/** One read of a buffer that nobody writes to meanwhile, as a function of the
    buffer's bytes, and what it delivers in terms of the log. */
module QuiescentRead {
  import opened Bytes
  import opened Positions
  import opened Records

  /** The messages met, where the read stopped, and why. */
  datatype Reading = Reading(messages: seq<seq<Byte>>, stop: nat, result: Result)

  /** The read loop, from position `pos` on. */
  function ReadFrom(buf: seq<Byte>, cap: nat, pos: nat, freePos: nat): (r: Reading)
    requires cap >= HEADER_SIZE && |buf| == cap
    ensures r.stop >= pos
    ensures r.result == Success ==> r.stop == freePos
    decreases freePos - pos
  {
    var ix := pos % cap;
    if pos > freePos then Reading([], pos, Invalid)
    else if pos == freePos then Reading([], pos, Success)
    else if cap - ix < HEADER_SIZE then ReadFrom(buf, cap, pos + (cap - ix), freePos)
    else if Expired(pos, freePos, cap) then Reading([], pos, Expiry)
    else
      var h := DecodeHeader(buf[ix..ix + HEADER_SIZE]);
      if !h.Valid() then Reading([], pos, Expiry)
      else if ix + HEADER_SIZE + h.length > cap then Reading([], pos, Fault)
      else
        var rest := ReadFrom(buf, cap, pos + HEADER_SIZE + h.length, freePos);
        var message := buf[ix + HEADER_SIZE..ix + HEADER_SIZE + h.length];
        if h.kind == MSG then rest.(messages := [message] + rest.messages) else rest
  }

  /** Nothing is stored beyond the stream end, or not far enough to reach the
      record at `pos`. */
  predicate Sound(pos: nat, freePos: nat, dirty: nat, cap: nat) {
    dirty == freePos || dirty <= pos + cap
  }

  /** The log index at which a read from record `i` stops. */
  function StopAt(log: Log, freePos: nat, cap: nat, i: nat): (j: nat)
    requires i <= |log|
    ensures i <= j <= |log|
    decreases |log| - i
  {
    if i == |log| then i
    else if log[i].rec.Blank? then StopAt(log, freePos, cap, i + 1)
    else if Expired(log[i].pos, freePos, cap) || Unreadable(log[i].rec) then i
    else StopAt(log, freePos, cap, i + 1)
  }

  /** Reading the bytes of one intact record. */
  lemma RecordBytes(buf: seq<Byte>, cap: nat, e: Entry)
    requires 0 < cap <= LENGTH_LIMIT && |buf| == cap && Stored(buf, cap, e) && !e.rec.Blank?
    ensures var ix := e.pos % cap;
            ix + HEADER_SIZE <= cap
            && DecodeHeader(buf[ix..ix + HEADER_SIZE]) == HeaderOf(e.rec)
            && (e.rec.Msg? ==> ix + HEADER_SIZE + |e.rec.payload| <= cap
                               && buf[ix + HEADER_SIZE..ix + HEADER_SIZE + |e.rec.payload|] == e.rec.payload)
  {
    var ix := e.pos % cap;
    var h := EncodeHeader(HeaderOf(e.rec));
    DecodeEncodeHeader(HeaderOf(e.rec));
    hide EncodeHeader, DecodeHeader;
    forall k | 0 <= k < HEADER_SIZE
      ensures buf[ix + k] == h[k]
    {
      assert Image(e.rec)[k] == h[k];
    }
    assert buf[ix..ix + HEADER_SIZE] == h;
    if e.rec.Msg? {
      forall k | 0 <= k < |e.rec.payload|
        ensures buf[ix + HEADER_SIZE + k] == e.rec.payload[k]
      {
        assert Image(e.rec)[HEADER_SIZE + k] == e.rec.payload[k];
        assert buf[ix + (HEADER_SIZE + k)] == Image(e.rec)[HEADER_SIZE + k];
      }
    }
  }

  /** One turn of the loop at a readable record. */
  lemma ReadRecord(buf: seq<Byte>, cap: nat, log: Log, freePos: nat, dirty: nat, i: nat)
    requires Holds(buf, cap, log, freePos, dirty) && i < |log|
    requires Sound(log[i].pos, freePos, dirty, cap)
    ensures var e, next := log[i], PosOf(log, freePos, i + 1);
            var r, rest := ReadFrom(buf, cap, e.pos, freePos), ReadFrom(buf, cap, next, freePos);
            if e.rec.Blank? then r == rest
            else if Expired(e.pos, freePos, cap) || Unreadable(e.rec) then r == Reading([], e.pos, Expiry)
            else if e.rec.Msg? then r == rest.(messages := [e.rec.payload] + rest.messages)
            else r == rest
  {
    var e := log[i];
    assert Link(log, freePos, cap, i);
    if !e.rec.Blank? && !Expired(e.pos, freePos, cap) {
      assert Stored(buf, cap, e);
      RecordBytes(buf, cap, e);
    }
    hide Stored, Chained, DecodeHeader, EncodeHeader, Image;
  }

  lemma MessagesFirst(log: Log, i: nat, j: nat)
    requires i < j <= |log|
    ensures Messages(log[i..j])
         == (if log[i].rec.Msg? then [log[i].rec.payload] else []) + Messages(log[i + 1..j])
  {
    assert log[i..j] == [log[i]] + log[i + 1..j];
    MessagesConcat([log[i]], log[i + 1..j]);
    assert [log[i]][..0] == [];
  }

  /** The buffer refines the log: reading its bytes from any record boundary gives
      exactly the messages logged from there on, up to the first record that is
      expired or unreadable. */
  lemma {:induction false} ReadFollowsLog(buf: seq<Byte>, cap: nat, log: Log, freePos: nat, dirty: nat, i: nat)
    requires Holds(buf, cap, log, freePos, dirty) && i <= |log|
    requires Sound(PosOf(log, freePos, i), freePos, dirty, cap)
    ensures var j := StopAt(log, freePos, cap, i);
            ReadFrom(buf, cap, PosOf(log, freePos, i), freePos)
            == Reading(Messages(log[i..j]), PosOf(log, freePos, j), if j == |log| then Success else Expiry)
    decreases |log| - i
  {
    var j := StopAt(log, freePos, cap, i);
    if i == |log| {
      assert log[i..j] == [];
    } else {
      assert Link(log, freePos, cap, i);
      ReadRecord(buf, cap, log, freePos, dirty, i);
      if j == i {
        assert log[i..j] == [];
      } else {
        ReadFollowsLog(buf, cap, log, freePos, dirty, i + 1);
        MessagesFirst(log, i, j);
      }
    }
  }

  // ----- Where reads stop -----

  /** The first record at or after `i` that is not a blank. */
  function PastBlank(log: Log, i: nat): (k: nat)
    requires i <= |log|
    ensures i <= k <= |log|
  {
    if i < |log| && log[i].rec.Blank? then i + 1 else i
  }

  lemma NoTwoBlanks(log: Log, freePos: nat, cap: nat, i: nat)
    requires cap >= HEADER_SIZE && Chained(log, freePos, cap) && i + 1 < |log|
    requires log[i].rec.Blank?
    ensures !log[i + 1].rec.Blank?
  {
    assert Link(log, freePos, cap, i) && Link(log, freePos, cap, i + 1);
    WrapToZero(log[i].pos, cap);
  }

  /** Once a record is not expired, no later one is. */
  lemma {:induction false} StopAtUnexpired(log: Log, freePos: nat, cap: nat, i: nat)
    requires cap >= HEADER_SIZE && Chained(log, freePos, cap) && i <= |log|
    requires !Expired(PosOf(log, freePos, i), freePos, cap)
    ensures var j := StopAt(log, freePos, cap, i);
            && (j < |log| ==> Unreadable(log[j].rec))
            && (forall k :: i <= k < j ==> !Unreadable(log[k].rec))
    decreases |log| - i
  {
    if i < |log| {
      assert Link(log, freePos, cap, i);
      if StopAt(log, freePos, cap, i) != i {
        StopAtUnexpired(log, freePos, cap, i + 1);
      }
    }
  }

  /** The three outcomes of a read from boundary `i`: expired at once, when the
      first record past any blank is a whole lap behind; otherwise stopped at the
      first unreadable record, with all messages before it delivered; otherwise
      everything delivered. */
  lemma ReadOutcome(log: Log, freePos: nat, cap: nat, i: nat)
    requires cap >= HEADER_SIZE && Chained(log, freePos, cap) && i <= |log|
    ensures var j, k := StopAt(log, freePos, cap, i), PastBlank(log, i);
            && (k < |log| && Expired(log[k].pos, freePos, cap) ==> j == k && Messages(log[i..j]) == [])
            && (k == |log| || !Expired(log[k].pos, freePos, cap) ==>
                  && (j < |log| ==> Unreadable(log[j].rec))
                  && (forall m :: i <= m < j ==> !Unreadable(log[m].rec)))
  {
    var j, k := StopAt(log, freePos, cap, i), PastBlank(log, i);
    if k < |log| && Expired(log[k].pos, freePos, cap) {
      if k == i {
        assert log[i..j] == [];
      } else {
        NoTwoBlanks(log, freePos, cap, i);
        assert StopAt(log, freePos, cap, i + 1) == i + 1;
        assert log[i..j] == [log[i]];
        assert [log[i]][..0] == [];
      }
    } else {
      StopAtUnexpired(log, freePos, cap, k);
    }
  }

  /** A read succeeds iff nothing it must pass is expired or unreadable. */
  lemma SuccessExactly(log: Log, freePos: nat, cap: nat, i: nat)
    requires cap >= HEADER_SIZE && Chained(log, freePos, cap) && i <= |log|
    ensures var k := PastBlank(log, i);
            StopAt(log, freePos, cap, i) == |log|
            <==> (k < |log| ==> !Expired(log[k].pos, freePos, cap))
                 && (forall m :: i <= m < |log| ==> !Unreadable(log[m].rec))
  {
    ReadOutcome(log, freePos, cap, i);
  }
}
