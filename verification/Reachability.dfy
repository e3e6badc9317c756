/** Getting from one protocol state to another: uninterrupted writes complete, and
    exactly which writes can overtake a reader without its noticing. */
module Reachability {
  import opened Arithmetic
  import opened Bytes
  import opened Positions
  import opened Records
  import opened Slots
  import opened Protocol
  import opened ProtocolInvariants
  import opened Ring

  /** Which steps a path may take: any, with the bytes of a record stored in ascending
      order; the same without forced writes; only stores and publications of the
      writer that holds the lock; no forced write and nothing by one reader; no forced
      write, nothing by readers, and messages up to a size; no forced write and nothing
      by one reader but to go on with its read, stores in order; nothing that begins,
      publishes, forces or drops a write or sets a slot. */
  datatype Kind =
    | Ordered | Gentle | StoresOnly | Between
    | Around(reader: nat) | Writers(size: nat) | Within(reader: nat)

  predicate Permitted(kind: Kind, s: State, a: Action)
    requires Shape(s)
  {
    match kind
    case Ordered => InOrder(s, a)
    case Gentle => InOrder(s, a) && !a.Force?
    case StoresOnly => a.StoreByte? || a.Publish?
    case Around(r) => !a.Force? && !By(r, a)
    case Writers(size) => OfWriter(a) && !a.Force? && (a.Begin? ==> |a.data| <= size)
    case Between => if OfWriter(a) then a.StoreByte? || a.Inspect? || a.Wait? else !a.Enter?
    case Within(r) => InOrder(s, a) && !a.Force? && (By(r, a) ==> GoesOn(a))
  }

  predicate GoesOn(a: Action) {
    a.Step? || a.Answer?
  }

  predicate InOrder(s: State, a: Action) {
    a.StoreByte? ==> s.writer.Storing? && forall k :: 0 <= k < a.offset ==> k in s.writer.stored
  }

  predicate By(r: nat, a: Action) {
    !OfWriter(a) && a.r == r
  }

  predicate IsPath(states: seq<State>, acts: seq<Action>, kind: Kind) {
    && |states| == |acts| + 1
    && (forall i :: 0 <= i < |states| ==> Shape(states[i]))
    && (forall i :: 0 <= i < |acts| ==>
          && Enabled(states[i], acts[i]) && Permitted(kind, states[i], acts[i])
          && states[i + 1] == Apply(states[i], acts[i]))
  }

  ghost predicate Leads(s: State, t: State, kind: Kind) {
    exists states: seq<State>, acts: seq<Action> ::
      IsPath(states, acts, kind) && states[0] == s && states[|acts|] == t
  }

  lemma LeadsHere(s: State, kind: Kind)
    requires Shape(s)
    ensures Leads(s, s, kind)
  {
    assert IsPath([s], [], kind);
  }

  lemma LeadsOn(s: State, t: State, kind: Kind, a: Action)
    requires Leads(s, t, kind) && Shape(t) && Enabled(t, a) && Permitted(kind, t, a)
    ensures Leads(s, Apply(t, a), kind)
  {
    var states, acts :| IsPath(states, acts, kind) && states[0] == s && states[|acts|] == t;
    var states', acts' := states + [Apply(t, a)], acts + [a];
    forall i | 0 <= i < |acts'|
      ensures Enabled(states'[i], acts'[i]) && Permitted(kind, states'[i], acts'[i])
      ensures states'[i + 1] == Apply(states'[i], acts'[i])
    {
      if i < |acts| { assert states'[i + 1] == states[i + 1] && acts'[i] == acts[i]; }
    }
    assert IsPath(states', acts', kind);
  }

  /** A run of the kind that ends in `s`. */
  ghost predicate HasRun(s: State, kind: Kind) {
    exists states: seq<State>, acts: seq<Action> ::
      IsRun(states, acts) && IsPath(states, acts, kind) && states[|acts|] == s
  }

  /** A path from an initial state is a run. */
  lemma LeadsIsRun(s: State, t: State, kind: Kind)
    requires Init(s) && Leads(s, t, kind)
    ensures HasRun(t, kind)
  {
    var states, acts :| IsPath(states, acts, kind) && states[0] == s && states[|acts|] == t;
    assert IsRun(states, acts);
  }

  lemma ShapeOfLed(s: State, t: State, kind: Kind)
    requires Leads(s, t, kind)
    ensures Shape(t)
  {
  }

  lemma {:induction false} PathKeepsRing(states: seq<State>, acts: seq<Action>, kind: Kind, i: nat)
    requires IsPath(states, acts, kind) && RingInv(states[0]) && i < |states|
    ensures RingInv(states[i])
  {
    if i > 0 {
      PathKeepsRing(states, acts, kind, i - 1);
      StepKeepsRing(states[i - 1], acts[i - 1]);
    }
  }

  lemma LeadsKeepsRing(s: State, t: State, kind: Kind)
    requires Leads(s, t, kind) && RingInv(s)
    ensures RingInv(t)
  {
    var states, acts :| IsPath(states, acts, kind) && states[0] == s && states[|acts|] == t;
    PathKeepsRing(states, acts, kind, |acts|);
  }

  // ----- Uninterrupted stores -----

  function UpTo(n: nat): (ks: set<nat>)
    ensures forall k: nat :: k in ks <==> k < n
  {
    if n == 0 then {} else UpTo(n - 1) + {n - 1}
  }

  /** A writer past its scan, with any part of its record stored so far and any
      residue of dead writers around. */
  predicate PastScan(s: State) {
    Shape(s) && s.writer.Storing? && s.freePos <= s.dirty && StoredSoFar(s)
  }

  /** The state after the first `n` bytes of the current record were stored. */
  function AfterStores(s: State, n: nat): (s': State)
    requires PastScan(s) && n <= |Image(Current(s))|
    ensures Shape(s')
  {
    s.(buf := Overlay(s.buf, s.freePos % s.cap, Image(Current(s)), n),
       dirty := Max(s.dirty, s.freePos + n),
       writer := Storing(s.writer.data, s.writer.stored + UpTo(n)))
  }

  function Overlay(buf: seq<Byte>, ix: nat, bs: seq<Byte>, n: nat): (r: seq<Byte>)
    requires n <= |bs| && ix + |bs| <= |buf|
    ensures |r| == |buf|
  {
    buf[..ix] + bs[..n] + buf[ix + n..]
  }

  lemma {:induction false} OverlayNext(buf: seq<Byte>, ix: nat, bs: seq<Byte>, n: nat)
    requires n < |bs| && ix + |bs| <= |buf|
    ensures Overlay(buf, ix, bs, n + 1) == Overlay(buf, ix, bs, n)[ix + n := bs[n]]
    ensures buf[ix + n] == bs[n] ==> Overlay(buf, ix, bs, n + 1) == Overlay(buf, ix, bs, n)
  {
  }

  lemma UpToNext(stored: set<nat>, n: nat)
    ensures stored + UpTo(n + 1) == stored + UpTo(n) + {n}
    ensures n in stored ==> stored + UpTo(n + 1) == stored + UpTo(n)
  {
  }

  lemma OneMoreStore(s: State, n: nat)
    requires PastScan(s) && n < |Image(Current(s))|
    ensures if n in s.writer.stored then AfterStores(s, n + 1) == AfterStores(s, n)
            else Enabled(AfterStores(s, n), StoreByte(n))
                 && Apply(AfterStores(s, n), StoreByte(n)) == AfterStores(s, n + 1)
  {
    hide Image, NextRecord;
    OverlayNext(s.buf, s.freePos % s.cap, Image(Current(s)), n);
    UpToNext(s.writer.stored, n);
    IndexOffset(s.freePos, n, s.cap);
    hide UpTo, Overlay;
  }

  lemma NoStores(s: State)
    requires PastScan(s)
    ensures AfterStores(s, 0) == s
  {
    var ix := s.freePos % s.cap;
    assert s.buf[..ix] + [] + s.buf[ix..] == s.buf;
    assert s.writer.stored + {} == s.writer.stored;
  }

  lemma StorePermitted(s: State, n: nat, kind: Kind)
    requires PastScan(s) && 0 < n <= |Image(Current(s))|
    ensures Permitted(kind, AfterStores(s, n - 1), StoreByte(n - 1))
  {
    hide Image, NextRecord, Overlay;
  }

  lemma {:induction false} StoresLead(from: State, s: State, kind: Kind, n: nat)
    requires Leads(from, s, kind) && PastScan(s) && n <= |Image(Current(s))|
    ensures Leads(from, AfterStores(s, n), kind)
  {
    if n == 0 {
      NoStores(s);
    } else {
      StoresLead(from, s, kind, n - 1);
      OneMoreStore(s, n - 1);
      StorePermitted(s, n, kind);
      hide Leads, AfterStores, Apply, Enabled, Permitted, Image, NextRecord, PastScan, Shape;
      if n - 1 !in s.writer.stored {
        LeadsOn(from, AfterStores(s, n - 1), kind, StoreByte(n - 1));
      }
    }
  }

  /** The current record stored and published. */
  function AfterRecord(s: State): (s': State)
    requires PastScan(s)
    ensures Shape(s')
  {
    var n, size := |Image(Current(s))|, Size(Current(s));
    AfterStores(s, n).(log := s.log + [Entry(s.freePos, Current(s))],
                       freePos := s.freePos + size,
                       dirty := Max(s.dirty, s.freePos + size),
                       writer := if Current(s).Msg? then Idle else Storing(s.writer.data, {}))
  }

  lemma CompleteIsPublished(s: State)
    requires PastScan(s)
    ensures var t := AfterStores(s, |Image(Current(s))|);
            Enabled(t, Publish) && Apply(t, Publish) == AfterRecord(s)
  {
    hide Image, NextRecord, Overlay;
  }

  lemma FillerIsFollowed(s: State)
    requires PastScan(s) && !Current(s).Msg?
    ensures PastScan(AfterRecord(s)) && Current(AfterRecord(s)) == Msg(s.writer.data)
  {
    AfterFiller(s.writer.data, s.freePos, s.cap);
    hide Image, NextRecord, Overlay, UpTo;
  }

  lemma RecordLeads(from: State, s: State, kind: Kind)
    requires Leads(from, s, kind) && PastScan(s) && !kind.Between?
    ensures Leads(from, AfterRecord(s), kind)
    ensures !Current(s).Msg? ==> PastScan(AfterRecord(s)) && Current(AfterRecord(s)) == Msg(s.writer.data)
  {
    var n := |Image(Current(s))|;
    hide Leads, Apply, Enabled, AfterStores, AfterRecord, PastScan, Image, NextRecord;
    StoresLead(from, s, kind, n);
    if !Current(s).Msg? { FillerIsFollowed(s); }
    CompleteIsPublished(s);
    LeadsOn(from, AfterStores(s, n), kind, Publish);
  }

  /** The state after the writer went on alone to the end of its write. */
  function AfterWrite(s: State): State
    requires PastScan(s)
  {
    if Current(s).Msg? then AfterRecord(s)
    else
      AfterFiller(s.writer.data, s.freePos, s.cap);
      AfterRecord(AfterRecord(s))
  }

  lemma WriteLeads(from: State, s: State, kind: Kind)
    requires Leads(from, s, kind) && PastScan(s) && !kind.Between?
    ensures Leads(from, AfterWrite(s), kind)
  {
    hide Leads, Image;
    RecordLeads(from, s, kind);
    if !Current(s).Msg? { RecordLeads(from, AfterRecord(s), kind); }
  }

  /** A writer past its scan can always complete, by stores and publications alone.
      It then has appended exactly the records of one write, and released the lock. */
  lemma WriteCompletes(s: State)
    requires PastScan(s)
    ensures Leads(s, AfterWrite(s), StoresOnly)
    ensures AfterWrite(s).log == s.log + WriteEntries(s.writer.data, s.freePos, s.cap)
    ensures AfterWrite(s).freePos == s.freePos + BytesToWrite(s.writer.data, s.freePos, s.cap)
    ensures AfterWrite(s).dirty == Max(s.dirty, AfterWrite(s).freePos)
    ensures AfterWrite(s).writer.Idle? && AfterWrite(s).readers == s.readers && AfterWrite(s).cap == s.cap
  {
    hide Leads, Image;
    LeadsHere(s, StoresOnly);
    WriteLeads(s, s, StoresOnly);
    if !Current(s).Msg? { RecordLeads(s, s, StoresOnly); }
  }

  // ----- Writes before a single reader -----

  const OUTSIDER: Reader := Reader(false, 0, 0, Resting, 0, 0, [])

  /** A new buffer and one reader that has not activated. */
  function Start(cap: nat): State {
    State(cap, seq(cap, _ => 0), 0, Idle, [OUTSIDER], [], 0)
  }

  /** Without backpressure a write starts, inspects the one slot and goes ahead. */
  lemma {:induction false} StartWrite(from: State, s: State, kind: Kind, data: seq<Byte>)
    requires Leads(from, s, kind) && Shape(s) && s.writer.Idle? && |s.readers| == 1
    requires HEADER_SIZE + |data| <= s.cap && !kind.StoresOnly? && Permitted(kind, s, Begin(data))
    requires !Blocks(s.readers[0].active, s.readers[0].bpos, s.freePos, BytesToWrite(data, s.freePos, s.cap), s.cap)
    ensures Leads(from, s.(writer := Storing(data, {})), kind)
  {
    hide Leads;
    LeadsOn(from, s, kind, Begin(data));
    LeadsOn(from, s.(writer := Scanning(data, 0)), kind, Inspect);
    LeadsOn(from, s.(writer := Scanning(data, 1)), kind, Inspect);
  }

  /** The first message ever written stands at the start of the buffer. */
  lemma {:induction false} FirstWrite(cap: nat, data: seq<Byte>, kind: Kind)
    requires HEADER_SIZE + |data| <= cap <= LENGTH_LIMIT && !kind.StoresOnly?
    requires Permitted(kind, Start(cap), Begin(data))
    ensures exists s :: && Leads(Start(cap), s, kind) && Shape(s) && s.cap == cap && s.writer.Idle?
                        && s.readers == [OUTSIDER] && s.log == [Entry(0, Msg(data))]
                        && s.freePos == s.dirty == HEADER_SIZE + |data|
  {
    var s := Start(cap);
    LeadsHere(s, kind);
    StartWrite(s, s, kind, data);
    var t := s.(writer := Storing(data, {}));
    assert PastScan(t);
    WriteLeads(s, t, kind);
    assert Current(t) == Msg(data);
    hide Leads;
    assert AfterWrite(t).log == [] + [Entry(0, Msg(data))];
  }

  // ----- Overtaking a reader unnoticed -----

  /** A record at `pos` was stored over, yet its reader's check would still pass. */
  predicate Overtaken(t: State, pos: nat) {
    !Expired(pos, t.freePos, t.cap) && !Intact(pos, t.dirty, t.cap)
  }

  /** The stores of the first record of the write, or those of the message behind
      filler, run past `pos + cap` while the stream end is still short of it. */
  predicate CanOvertake(data: seq<Byte>, freePos: nat, pos: nat, cap: nat)
    requires cap > 0 && HEADER_SIZE + |data| <= cap
  {
    var first := NextRecord(data, freePos, cap);
    || freePos < pos + cap < freePos + |Image(first)|
    || (!first.Msg? && freePos + Size(first) < pos + cap < freePos + Size(first) + HEADER_SIZE + |data|)
  }

  /** Where a write of `data` stands that had `f` as stream end and `d` as high-water
      mark: in its first record, in the message behind filler, or done. */
  predicate UnderWay(t: State, data: seq<Byte>, f: nat, d: nat)
    requires HEADER_SIZE + |data| <= t.cap
  {
    && Shape(t)
    && var first := NextRecord(data, f, t.cap);
    || (t.writer.Storing? && t.writer.data == data && t.freePos == f && t.dirty <= Max(d, f + |Image(first)|))
    || (!first.Msg? && t.writer.Storing? && t.writer.data == data && t.freePos == f + Size(first)
        && t.dirty <= Max(d, t.freePos + HEADER_SIZE + |data|))
    || (t.writer.Idle? && t.dirty <= Max(d, t.freePos))
  }

  lemma UnderWayStep(t: State, a: Action, data: seq<Byte>, f: nat, d: nat)
    requires HEADER_SIZE + |data| <= t.cap && UnderWay(t, data, f, d)
    requires Enabled(t, a) && Permitted(StoresOnly, t, a)
    ensures Apply(t, a).cap == t.cap && UnderWay(Apply(t, a), data, f, d)
  {
    if !NextRecord(data, f, t.cap).Msg? { AfterFiller(data, f, t.cap); }
    hide EncodeHeader;
  }

  lemma {:induction false} UnderWayAlong(states: seq<State>, acts: seq<Action>, i: nat)
    requires IsPath(states, acts, StoresOnly) && i < |states| && PastScan(states[0])
    ensures states[i].cap == states[0].cap
    ensures UnderWay(states[i], states[0].writer.data, states[0].freePos, states[0].dirty)
  {
    if i > 0 {
      UnderWayAlong(states, acts, i - 1);
      UnderWayStep(states[i - 1], acts[i - 1], states[0].writer.data, states[0].freePos, states[0].dirty);
    }
  }

  lemma {:induction false} OvertakenOnlyIf(s: State, t: State, pos: nat)
    requires PastScan(s) && Leads(s, t, StoresOnly) && Overtaken(t, pos)
    ensures s.dirty > pos + s.cap || CanOvertake(s.writer.data, s.freePos, pos, s.cap)
  {
    var states, acts :| IsPath(states, acts, StoresOnly) && states[0] == s && states[|acts|] == t;
    UnderWayAlong(states, acts, |acts|);
    hide IsPath, Leads, EncodeHeader;
  }

  lemma {:induction false} OvertakenIf(s: State, pos: nat)
    requires PastScan(s) && !Expired(pos, s.freePos, s.cap)
    requires CanOvertake(s.writer.data, s.freePos, pos, s.cap)
    ensures exists t :: Leads(s, t, StoresOnly) && Overtaken(t, pos)
  {
    LeadsHere(s, StoresOnly);
    var first := Current(s);
    if pos + s.cap < s.freePos + |Image(first)| {
      StoresLead(s, s, StoresOnly, |Image(first)|);
      assert Overtaken(AfterStores(s, |Image(first)|), pos);
    } else {
      RecordLeads(s, s, StoresOnly);
      var u := AfterRecord(s);
      StoresLead(s, u, StoresOnly, |Image(Current(u))|);
      assert Overtaken(AfterStores(u, |Image(Current(u))|), pos);
    }
  }

  /** A writer going on from `s` can overtake an unexpired reader at `pos` unnoticed,
      at some moment between its stores and its publications, iff residue reaches
      past the record already or `CanOvertake` says so. */
  lemma {:induction false} OvertakesExactly(s: State, pos: nat)
    requires PastScan(s) && !Expired(pos, s.freePos, s.cap)
    ensures (exists t :: Leads(s, t, StoresOnly) && Overtaken(t, pos))
       <==> s.dirty > pos + s.cap || CanOvertake(s.writer.data, s.freePos, pos, s.cap)
  {
    if t :| Leads(s, t, StoresOnly) && Overtaken(t, pos) { OvertakenOnlyIf(s, t, pos); }
    if s.dirty > pos + s.cap {
      LeadsHere(s, StoresOnly);
      assert Overtaken(s, pos);
    } else if CanOvertake(s.writer.data, s.freePos, pos, s.cap) {
      OvertakenIf(s, pos);
    }
  }

  /** A write the scan let through, at a reader's position, can never overtake it. */
  lemma UnblockedNeverOvertakes(data: seq<Byte>, freePos: nat, pos: nat, cap: nat)
    requires cap > 0 && HEADER_SIZE + |data| <= cap
    requires !Expired(pos, freePos + BytesToWrite(data, freePos, cap), cap)
    ensures !CanOvertake(data, freePos, pos, cap)
  {
  }
}
