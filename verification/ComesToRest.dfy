/** Posting is worth it: whatever has happened so far, processes, drainers, writers and
    readers can always go on so that every living process gets all its messages into
    the ring, without a forced write. */
module ComesToRest {
  import opened Records
  import opened Protocol
  import opened ProtocolInvariants
  import opened ProtocolBackpressure
  import opened Reachability
  import opened TimelyEntry
  import X = Delivery
  import D = Drainer

  // ----- Readers step aside -----

  /** Nobody's slot is active up to `n`. */
  predicate InactiveTo(s: State, n: nat)
    requires n <= |s.readers|
  {
    forall q :: 0 <= q < n ==> !s.readers[q].active
  }

  /** Nothing but readers differs. */
  predicate SameButReaders(s: State, t: State) {
    t == s.(readers := t.readers) && |t.readers| == |s.readers|
  }

  lemma AsideKeeps(s: State, q: nat, rd: Reader)
    requires AllProtected(s) && q < |s.readers| && Quiescent(rd) && !rd.active
    requires ReaderInv(rd, s.log, s.freePos, s.dirty, s.cap)
    ensures AllProtected(WithReader(s, q, rd))
  {
    var t := WithReader(s, q, rd);
    hide Holds, ReaderInv, StoredSoFar, BytesToWrite;
    assert RingInv(t);
    forall r | 0 <= r < |t.readers|
      ensures Protected(t, r) && ReaderInv(t.readers[r], t.log, t.freePos, t.dirty, t.cap)
    {
      assert r != q ==> Protected(s, r) && ReaderInv(s.readers[r], s.log, s.freePos, s.dirty, s.cap);
    }
  }

  /** One reader more is inactive. */
  lemma OneAside(from: State, s: State, q: nat)
    requires Leads(from, s, Between) && AllProtected(s) && q < |s.readers| && InactiveTo(s, q)
    ensures exists t :: Leads(from, t, Between) && AllProtected(t) && SameButReaders(s, t) && InactiveTo(t, q + 1)
  {
    if s.readers[q].active {
      assert Protected(s, q) && ReaderInv(s.readers[q], s.log, s.freePos, s.dirty, s.cap);
      StepsAside(from, s, Between, q);
      hide Leads, AllProtected, ReaderInv, Protected;
      var rd :| && Quiescent(rd) && !rd.active && Leads(from, WithReader(s, q, rd), Between)
                && ReaderInv(rd, s.log, s.freePos, s.dirty, s.cap);
      AsideKeeps(s, q, rd);
      assert SameButReaders(s, WithReader(s, q, rd));
    } else {
      hide Leads, AllProtected, Shape;
      assert SameButReaders(s, s) && InactiveTo(s, q + 1);
    }
  }

  lemma {:induction false} AllAside(from: State, s: State, n: nat)
    requires Leads(from, s, Between) && AllProtected(s) && n <= |s.readers|
    ensures exists t :: Leads(from, t, Between) && AllProtected(t) && SameButReaders(s, t) && InactiveTo(t, n)
  {
    hide Leads, AllProtected;
    if n == 0 {
      assert SameButReaders(s, s);
    } else {
      AllAside(from, s, n - 1);
      var t :| Leads(from, t, Between) && AllProtected(t) && SameButReaders(s, t) && InactiveTo(t, n - 1);
      OneAside(from, t, n - 1);
    }
  }

  /** With nobody active a writer gets through its scan. */
  lemma {:induction false} ScansFreely(from: State, s: State)
    requires Leads(from, s, Between) && Shape(s) && InactiveTo(s, |s.readers|) && s.writer.Scanning?
    ensures Leads(from, s.(writer := Storing(s.writer.data, {})), Between)
    decreases |s.readers| - s.writer.slot
  {
    hide Leads;
    LeadsOn(from, s, Between, Inspect);
    var slot := s.writer.slot;
    if slot < |s.readers| {
      var t := s.(writer := Scanning(s.writer.data, slot + 1));
      assert Apply(s, Inspect) == t;
      ScansFreely(from, t);
    }
  }

  // ----- Going on without new posts -----

  /** A move that posts nothing, kills nobody, forces no write and sets no slot. */
  predicate Working(m: X.Move) {
    match m
    case Process(_, a) => !a.Enqueue?
    case Begin(_, _) => true
    case Finish(_) => true
    case Ring(a) => !a.Force? && !a.Enter?
    case Die => false
  }

  predicate IsPath(xs: seq<X.Suite>, moves: seq<X.Move>) {
    && |xs| == |moves| + 1
    && (forall i :: 0 <= i < |xs| ==> Shape(xs[i].ring))
    && (forall i :: 0 <= i < |moves| ==>
          X.Enabled(xs[i], moves[i]) && Working(moves[i]) && xs[i + 1] == X.Apply(xs[i], moves[i]))
  }

  ghost predicate GoesOnTo(x: X.Suite, y: X.Suite) {
    exists xs: seq<X.Suite>, moves: seq<X.Move> :: IsPath(xs, moves) && xs[0] == x && xs[|moves|] == y
  }

  lemma GoesHere(x: X.Suite)
    requires Shape(x.ring)
    ensures GoesOnTo(x, x)
  {
    assert IsPath([x], []);
  }

  lemma GoesOn(x: X.Suite, y: X.Suite, m: X.Move)
    requires GoesOnTo(x, y) && Shape(y.ring) && X.Enabled(y, m) && Working(m)
    ensures GoesOnTo(x, X.Apply(y, m))
  {
    var xs, moves :| IsPath(xs, moves) && xs[0] == x && xs[|moves|] == y;
    var xs', moves' := xs + [X.Apply(y, m)], moves + [m];
    forall i | 0 <= i < |moves'|
      ensures X.Enabled(xs'[i], moves'[i]) && Working(moves'[i]) && xs'[i + 1] == X.Apply(xs'[i], moves'[i])
    {
      if i < |moves| { assert xs'[i + 1] == xs[i + 1] && moves'[i] == moves[i]; }
    }
    assert IsPath(xs', moves');
  }

  /** A path of the ring is one of the suite. */
  lemma {:induction false} RingGoesAlong(x: X.Suite, y: X.Suite, states: seq<State>, acts: seq<Action>, i: nat)
    requires GoesOnTo(x, y) && Reachability.IsPath(states, acts, Between) && states[0] == y.ring && i < |states|
    ensures GoesOnTo(x, y.(ring := states[i]))
  {
    if i == 0 {
      assert y.(ring := states[0]) == y;
    } else {
      RingGoesAlong(x, y, states, acts, i - 1);
      var z, a := y.(ring := states[i - 1]), acts[i - 1];
      hide GoesOnTo;
      assert X.Enabled(z, X.Ring(a)) && Working(X.Ring(a)) by { hide Apply; }
      GoesOn(x, z, X.Ring(a));
      assert X.Apply(z, X.Ring(a)) == y.(ring := states[i]) by { hide Apply; }
    }
  }

  lemma RingGoesOn(x: X.Suite, y: X.Suite, t: State)
    requires GoesOnTo(x, y) && Leads(y.ring, t, Between)
    ensures GoesOnTo(x, y.(ring := t)) && Shape(t)
  {
    var states, acts :| Reachability.IsPath(states, acts, Between) && states[0] == y.ring && states[|acts|] == t;
    RingGoesAlong(x, y, states, acts, |acts|);
  }

  // ----- What going on keeps -----

  /** Everything waiting in a process is small enough for the ring. */
  predicate AllFit(h: D.Hub, cap: nat) {
    && (forall m :: m in h.queue ==> HEADER_SIZE + |m| <= cap)
    && (forall w, m :: 0 <= w < |h.workers| && h.workers[w].Writing? && m in h.workers[w].batch ==>
          HEADER_SIZE + |m| <= cap)
  }

  /** Where runs with honoured backpressure and messages that fit get to. */
  ghost predicate Good(x: X.Suite) {
    && AllProtected(x.ring) && X.Attributed(x) && X.Occupied(x)
    && (forall p :: 0 <= p < |x.hubs| ==> AllFit(x.hubs[p], x.ring.cap))
  }

  lemma HubKeepsFit(h: D.Hub, a: D.Action, cap: nat)
    requires AllFit(h, cap) && D.Enabled(h, a) && !a.Enqueue?
    ensures AllFit(D.Apply(h, a), cap)
  {
  }

  lemma RingKeepsProtected(s: State, a: Action)
    requires AllProtected(s) && Enabled(s, a) && Honours(s, a)
    ensures AllProtected(Apply(s, a)) && CleanCheck(s, a) && Apply(s, a).cap == s.cap
  {
    X.HonouredStep(s, a);
    StepKeepsReaders(s, a);
    StepKeepsRing(s, a);
    hide RingInv, ReadersInv, Apply, Enabled, Protected;
  }

  lemma MoveKeepsGood(x: X.Suite, m: X.Move)
    requires Good(x) && Shape(x.ring) && X.Enabled(x, m) && Working(m)
    ensures Good(X.Apply(x, m))
  {
    X.MoveKeepsAttributed(x, m);
    X.MoveKeepsOccupied(x, m);
    if !m.Process? {
      assert Honours(x.ring, X.RingStep(x, m));
      RingKeepsProtected(x.ring, X.RingStep(x, m));
    }
    hide AllProtected, X.Attributed, X.Occupied, Apply, Enabled, AllFit;
    match m
    case Process(p, a) => HubKeepsFit(x.hubs[p], a, x.ring.cap);
    case Finish(w) => HubKeepsFit(x.hubs[x.holder], D.Write(w), x.ring.cap);
    case _ =>
  }

  lemma {:induction false} GoodAlong(xs: seq<X.Suite>, moves: seq<X.Move>, i: nat)
    requires IsPath(xs, moves) && Good(xs[0]) && i < |xs|
    ensures Good(xs[i])
  {
    if i > 0 {
      GoodAlong(xs, moves, i - 1);
      hide Good, X.Apply, X.Enabled;
      MoveKeepsGood(xs[i - 1], moves[i - 1]);
    }
  }

  lemma StaysGood(x: X.Suite, y: X.Suite)
    requires GoesOnTo(x, y) && Good(x)
    ensures Good(y) && Shape(y.ring)
  {
    var xs, moves :| IsPath(xs, moves) && xs[0] == x && xs[|moves|] == y;
    GoodAlong(xs, moves, |moves|);
    hide Good;
  }

  // ----- One message more -----

  /** A busy writer gets past its scan. */
  lemma GetsStoring(s: State)
    requires AllProtected(s) && !s.writer.Idle?
    ensures exists t :: Leads(s, t, Between) && PastScan(t) && t.writer.data == s.writer.data
  {
    LeadsHere(s, Between);
    AllAside(s, s, |s.readers|);
    var t :| Leads(s, t, Between) && AllProtected(t) && SameButReaders(s, t) && InactiveTo(t, |s.readers|);
    assert Shape(t) && t.freePos <= t.dirty && (t.writer.Storing? ==> PastScan(t));
    hide Leads, AllProtected;
    var u := t;
    if t.writer.Blocked? {
      LeadsOn(s, t, Between, Wait);
      u := Apply(t, Wait);
    }
    if u.writer.Scanning? {
      ScansFreely(s, u);
      u := u.(writer := Storing(u.writer.data, {}));
    }
    assert PastScan(u);
  }

  /** All bytes of the current record are stored. */
  function Complete(s: State): State
    requires PastScan(s)
  {
    AfterStores(s, |Image(Current(s))|)
  }

  lemma CompleteCanPublish(s: State)
    requires PastScan(s)
    ensures var t := Complete(s);
            && Shape(t) && Enabled(t, Publish) && t.writer.Storing? && t.writer.data == s.writer.data
            && Current(t) == Current(s) && Apply(t, Publish) == AfterRecord(s)
            && Leads(s, t, Between)
  {
    LeadsHere(s, Between);
    hide Leads;
    StoresLead(s, s, Between, |Image(Current(s))|);
    hide Image, NextRecord;
  }

  /** The holder's message gets into the ring. */
  lemma FinishesRecord(x0: X.Suite, x: X.Suite, w: nat)
    requires GoesOnTo(x0, x) && PastScan(x.ring) && Current(x.ring).Msg? && X.InHand(x, w, x.ring.writer.data)
    ensures exists y :: GoesOnTo(x0, y) && y.dead == x.dead
                        && y.hubs == x.hubs[x.holder := D.Apply(x.hubs[x.holder], D.Write(w))]
  {
    CompleteCanPublish(x.ring);
    hide GoesOnTo, Leads, PastScan, Complete, Apply;
    RingGoesOn(x0, x, Complete(x.ring));
    var y := x.(ring := Complete(x.ring));
    assert X.InHand(y, w, y.ring.writer.data);
    assert X.Enabled(y, X.Finish(w)) by { hide D.Enabled; }
    GoesOn(x0, y, X.Finish(w));
    hide D.Apply;
    assert X.Apply(y, X.Finish(w)).hubs == x.hubs[x.holder := D.Apply(x.hubs[x.holder], D.Write(w))];
  }

  lemma FillerGoesBy(x0: X.Suite, x: X.Suite)
    requires GoesOnTo(x0, x) && PastScan(x.ring) && !Current(x.ring).Msg?
    ensures PastScan(AfterRecord(x.ring)) && Current(AfterRecord(x.ring)) == Msg(x.ring.writer.data)
    ensures GoesOnTo(x0, x.(ring := AfterRecord(x.ring))) && AfterRecord(x.ring).writer.data == x.ring.writer.data
  {
    CompleteCanPublish(x.ring);
    LeadsHere(x.ring, StoresOnly);
    RecordLeads(x.ring, x.ring, StoresOnly);
    hide GoesOnTo, Leads, PastScan, Complete, Apply;
    RingGoesOn(x0, x, Complete(x.ring));
    var y := x.(ring := Complete(x.ring));
    assert X.Enabled(y, X.Ring(Publish));
    GoesOn(x0, y, X.Ring(Publish));
    assert X.Apply(y, X.Ring(Publish)) == x.(ring := AfterRecord(x.ring));
  }

  lemma WriteFinishes(x0: X.Suite, x: X.Suite)
    requires GoesOnTo(x0, x) && Good(x) && !x.ring.writer.Idle?
    ensures exists y, w :: && GoesOnTo(x0, y) && X.InHand(x, w, x.ring.writer.data) && y.dead == x.dead
                           && y.hubs == x.hubs[x.holder := D.Apply(x.hubs[x.holder], D.Write(w))]
  {
    var w :| X.InHand(x, w, x.ring.writer.data);
    hide GoesOnTo, X.Attributed, X.Occupied, D.Apply;
    GetsStoring(x.ring);
    hide Leads, AllProtected;
    var t :| Leads(x.ring, t, Between) && PastScan(t) && t.writer.data == x.ring.writer.data;
    RingGoesOn(x0, x, t);
    var x1 := x.(ring := t);
    assert X.InHand(x1, w, x1.ring.writer.data);
    if !Current(t).Msg? {
      FillerGoesBy(x0, x1);
      x1 := x1.(ring := AfterRecord(t));
      assert X.InHand(x1, w, x1.ring.writer.data);
    }
    hide PastScan, AfterRecord, Current, X.InHand;
    FinishesRecord(x0, x1, w);
  }

  // ----- Until everybody is at rest -----

  /** What is left to do in the living processes among the first `n`. */
  function Work(hubs: seq<D.Hub>, dead: set<nat>, n: nat): nat
    requires n <= |hubs|
  {
    if n == 0 then 0
    else Work(hubs, dead, n - 1) + (if n - 1 in dead then 0 else D.Remaining(hubs[n - 1]))
  }

  lemma {:induction false} WorkDrops(hubs: seq<D.Hub>, dead: set<nat>, n: nat, p: nat, h: D.Hub)
    requires n <= |hubs| && p < |hubs| && p !in dead && D.Remaining(h) < D.Remaining(hubs[p])
    ensures Work(hubs[p := h], dead, n) <= Work(hubs, dead, n)
    ensures p < n ==> Work(hubs[p := h], dead, n) < Work(hubs, dead, n)
  {
    hide D.Remaining;
    if n > 0 { WorkDrops(hubs, dead, n - 1, p, h); }
  }

  /** The next thing to do in a process that is not at rest. */
  function NextWork(h: D.Hub): (a: D.Action)
    requires D.Inv(h) && !X.AtRest(h)
    ensures D.Enabled(h, a) && !a.Enqueue? && !a.NotifyBlocked?
  {
    if h.holders > 0 then D.Schedule
    else if h.scheduled > 0 then D.Start
    else if h.workers[0].Fetching? then D.Drain(0)
    else if h.workers[0].Writing? then D.Write(0)
    else D.NotifyLast(0)
  }

  /** A process takes the lock for its next message. */
  lemma TakesLock(x0: X.Suite, x: X.Suite, p: nat, w: nat)
    requires GoesOnTo(x0, x) && Good(x) && x.ring.writer.Idle? && p < |x.hubs| && p !in x.dead
    requires D.Enabled(x.hubs[p], D.Write(w))
    ensures exists y :: && GoesOnTo(x0, y) && Good(y) && !y.ring.writer.Idle? && y.holder == p
                        && y.hubs == x.hubs && y.dead == x.dead
  {
    var m := x.hubs[p].workers[w].batch[0];
    assert m in x.hubs[p].workers[w].batch;
    assert AllFit(x.hubs[p], x.ring.cap);
    assert Shape(x.ring);
    hide GoesOnTo, AllProtected, X.Attributed, X.Occupied, Shape;
    assert X.Enabled(x, X.Begin(p, w));
    GoesOn(x0, x, X.Begin(p, w));
    MoveKeepsGood(x, X.Begin(p, w));
  }

  /** Something gets done. */
  lemma LessToDo(x0: X.Suite, x: X.Suite, p: nat)
    requires GoesOnTo(x0, x) && Good(x0) && Good(x) && p < |x.hubs| && p !in x.dead && !X.AtRest(x.hubs[p])
    ensures exists y :: GoesOnTo(x0, y) && Good(y) && y.dead == x.dead && |y.hubs| == |x.hubs|
                        && Work(y.hubs, y.dead, |y.hubs|) < Work(x.hubs, x.dead, |x.hubs|)
  {
    assert Shape(x.ring) && D.Inv(x.hubs[p]);
    var a := NextWork(x.hubs[p]);
    hide Good, GoesOnTo, D.Inv, X.AtRest;
    if !x.ring.writer.Idle? {
      WriteDone(x0, x);
    } else if a.Write? {
      TakesLock(x0, x, p, a.w);
      var y :| && GoesOnTo(x0, y) && Good(y) && !y.ring.writer.Idle? && y.holder == p
               && y.hubs == x.hubs && y.dead == x.dead;
      WriteDone(x0, y);
    } else {
      D.StepsRunOut(x.hubs[p], a);
      GoesOn(x0, x, X.Process(p, a));
      var y := X.Apply(x, X.Process(p, a));
      StaysGood(x0, y);
      hide Work, D.Apply, D.Remaining, D.Enabled;
      WorkDrops(x.hubs, x.dead, |x.hubs|, p, D.Apply(x.hubs[p], a));
    }
  }

  lemma WriteDone(x0: X.Suite, x: X.Suite)
    requires GoesOnTo(x0, x) && Good(x0) && Good(x) && !x.ring.writer.Idle?
    ensures exists y :: GoesOnTo(x0, y) && Good(y) && y.dead == x.dead && |y.hubs| == |x.hubs|
                        && Work(y.hubs, y.dead, |y.hubs|) < Work(x.hubs, x.dead, |x.hubs|)
  {
    WriteFinishes(x0, x);
    assert forall p :: 0 <= p < |x.hubs| ==> D.Inv(x.hubs[p]);
    hide Good, GoesOnTo, D.Inv;
    var y, w :| && GoesOnTo(x0, y) && X.InHand(x, w, x.ring.writer.data) && y.dead == x.dead
                && y.hubs == x.hubs[x.holder := D.Apply(x.hubs[x.holder], D.Write(w))];
    StaysGood(x0, y);
    D.StepsRunOut(x.hubs[x.holder], D.Write(w));
    hide Work, D.Apply, D.Remaining;
    WorkDrops(x.hubs, x.dead, |x.hubs|, x.holder, D.Apply(x.hubs[x.holder], D.Write(w)));
  }

  lemma {:induction false} RestIsNear(x0: X.Suite, x: X.Suite)
    requires GoesOnTo(x0, x) && Good(x0) && Good(x)
    ensures exists y :: GoesOnTo(x0, y) && Good(y) && y.dead == x.dead && |y.hubs| == |x.hubs|
                        && forall p :: 0 <= p < |y.hubs| && p !in y.dead ==> X.AtRest(y.hubs[p])
    decreases Work(x.hubs, x.dead, |x.hubs|)
  {
    hide GoesOnTo, Good, X.AtRest, Work;
    if p :| 0 <= p < |x.hubs| && p !in x.dead && !X.AtRest(x.hubs[p]) {
      LessToDo(x0, x, p);
      var y :| && GoesOnTo(x0, y) && Good(y) && y.dead == x.dead && |y.hubs| == |x.hubs|
               && Work(y.hubs, y.dead, |y.hubs|) < Work(x.hubs, x.dead, |x.hubs|);
      RestIsNear(x0, y);
    }
  }

  // ----- From every state -----

  /** Every message that is posted fits into the ring. */
  predicate FittingPosts(x: X.Suite, m: X.Move) {
    m.Process? && m.a.Enqueue? ==> HEADER_SIZE + |m.a.message| <= x.ring.cap
  }

  predicate AllPostsFit(xs: seq<X.Suite>, moves: seq<X.Move>) {
    X.IsRun(xs, moves) && forall i :: 0 <= i < |moves| ==> FittingPosts(xs[i], moves[i])
  }

  lemma HubTakesFitting(h: D.Hub, a: D.Action, cap: nat)
    requires AllFit(h, cap) && D.Enabled(h, a) && (a.Enqueue? ==> HEADER_SIZE + |a.message| <= cap)
    ensures AllFit(D.Apply(h, a), cap)
  {
    if !a.Enqueue? { HubKeepsFit(h, a, cap); }
  }

  lemma MoveKeepsFit(x: X.Suite, m: X.Move)
    requires Shape(x.ring) && X.Enabled(x, m) && FittingPosts(x, m)
    requires forall p :: 0 <= p < |x.hubs| ==> AllFit(x.hubs[p], x.ring.cap)
    ensures X.Apply(x, m).ring.cap == x.ring.cap
    ensures forall p :: 0 <= p < |x.hubs| ==> AllFit(X.Apply(x, m).hubs[p], x.ring.cap)
  {
    if !m.Process? { SameReaders(x.ring, X.RingStep(x, m)); }
    hide AllFit, Apply, Enabled, D.Apply, D.Enabled;
    match m
    case Process(p, a) => HubTakesFitting(x.hubs[p], a, x.ring.cap);
    case Finish(w) => HubTakesFitting(x.hubs[x.holder], D.Write(w), x.ring.cap);
    case _ =>
  }

  lemma {:induction false} FitOverRun(xs: seq<X.Suite>, moves: seq<X.Move>, i: nat)
    requires AllPostsFit(xs, moves) && i < |xs|
    ensures forall p :: 0 <= p < |xs[i].hubs| ==> AllFit(xs[i].hubs[p], xs[i].ring.cap)
  {
    if i > 0 {
      FitOverRun(xs, moves, i - 1);
      MoveKeepsFit(xs[i - 1], moves[i - 1]);
      hide AllFit, X.Apply, X.Enabled, X.Init;
      assert |xs[i].hubs| == |xs[i - 1].hubs| by { SameProcesses(xs[i - 1], moves[i - 1]); }
    }
  }

  lemma SameProcesses(x: X.Suite, m: X.Move)
    requires Shape(x.ring) && X.Enabled(x, m)
    ensures |X.Apply(x, m).hubs| == |x.hubs|
  {
  }

  lemma GoodOverRun(xs: seq<X.Suite>, moves: seq<X.Move>, i: nat)
    requires X.IsHonouredRun(xs, moves) && AllPostsFit(xs, moves) && i < |xs|
    ensures Good(xs[i])
  {
    FitOverRun(xs, moves, i);
    X.GuardedOverRun(xs, moves, i);
    X.HonouredIsClean(xs, moves);
    X.InvOverRun(xs, moves, i);
    var s := xs[i].ring;
    assert AllProtected(s) by {
      hide RingInv, ReaderInv, Protected, X.Attributed, X.Occupied, AllFit, X.IsCleanRun, X.IsHonouredRun, AllPostsFit;
    }
  }

  /** Nothing was posted between `x` and `y`, nobody died, and the living processes have
      all they posted in the ring, in posted order, and nothing left to do. */
  predicate AllArrived(x: X.Suite, y: X.Suite) {
    && y.dead == x.dead && |y.hubs| == |x.hubs| && |y.authors| == |Messages(y.ring.log)|
    && (forall p :: 0 <= p < |y.hubs| && p !in y.dead ==> X.AtRest(y.hubs[p]))
    && (forall p :: 0 <= p < |y.hubs| && p !in y.dead ==>
          X.From(Messages(y.ring.log), y.authors, p) == y.hubs[p].posted == x.hubs[p].posted)
  }

  /** Processes may have posted anything that fits, died anywhere, and readers may be
      anywhere in their reads: from every state of a run without forced writes and with
      slots set in time, some continuation without posts, deaths, forced writes and
      slots being set brings all messages of the living into the ring. */
  lemma EverybodyComesToRest(xs: seq<X.Suite>, moves: seq<X.Move>, i: nat)
    requires X.IsHonouredRun(xs, moves) && AllPostsFit(xs, moves) && i < |xs|
    ensures exists y :: GoesOnTo(xs[i], y) && AllArrived(xs[i], y)
  {
    GoodOverRun(xs, moves, i);
    var x := xs[i];
    assert Shape(x.ring);
    hide *;
    GoesHere(x);
    RestIsNear(x, x);
    var y :| && GoesOnTo(x, y) && Good(y) && y.dead == x.dead && |y.hubs| == |x.hubs|
             && forall p :: 0 <= p < |y.hubs| && p !in y.dead ==> X.AtRest(y.hubs[p]);
    NoNewPosts(x, y);
    RestHasArrived(x, y);
  }

  lemma RestHasArrived(x: X.Suite, y: X.Suite)
    requires Good(y) && y.dead == x.dead && |y.hubs| == |x.hubs|
    requires forall p :: 0 <= p < |y.hubs| ==> y.hubs[p].posted == x.hubs[p].posted
    requires forall p :: 0 <= p < |y.hubs| && p !in y.dead ==> X.AtRest(y.hubs[p])
    ensures AllArrived(x, y)
  {
    hide AllProtected, X.Occupied, X.AtRest, X.From, D.Inv, D.Written, Messages, AllFit;
    forall p | 0 <= p < |y.hubs| && p !in y.dead
      ensures X.From(Messages(y.ring.log), y.authors, p) == y.hubs[p].posted
    {
      RestIsSettled(y.hubs[p]);
    }
  }

  lemma RestIsSettled(h: D.Hub)
    requires D.Inv(h) && X.AtRest(h)
    ensures D.Written(h.events) == h.posted
  {
    D.Settled(h);
  }

  lemma {:induction false} PostedAlong(xs: seq<X.Suite>, moves: seq<X.Move>, i: nat)
    requires IsPath(xs, moves) && i < |xs|
    ensures |xs[i].hubs| == |xs[0].hubs|
    ensures forall p :: 0 <= p < |xs[0].hubs| ==> xs[i].hubs[p].posted == xs[0].hubs[p].posted
  {
    if i > 0 { PostedAlong(xs, moves, i - 1); }
  }

  lemma NoNewPosts(x: X.Suite, y: X.Suite)
    requires GoesOnTo(x, y)
    ensures |y.hubs| == |x.hubs| && forall p :: 0 <= p < |x.hubs| ==> y.hubs[p].posted == x.hubs[p].posted
  {
    var xs, moves :| IsPath(xs, moves) && xs[0] == x && xs[|moves|] == y;
    PostedAlong(xs, moves, |moves|);
  }
}
