/** Everything at once: writer processes hand messages to their drainers, drainers write
    them to the shared ring step by step, processes die, and readers read meanwhile. */
module Delivery {
  import opened Bytes
  import opened Records
  import opened Protocol
  import opened ProtocolInvariants
  import opened ProtocolRuns
  import B = ProtocolBackpressure
  import D = Drainer

  /** One ring, and one message queue with its drainers per process. `holder` is the
      process that holds the writer lock; `authors` tells, as history, which process wrote
      each message of the log. */
  datatype Suite = Suite(ring: State, hubs: seq<D.Hub>, dead: set<nat>, holder: nat, authors: seq<nat>)

  datatype Move =
    | Process(p: nat, a: D.Action)     // posting, scheduling, draining, notifying
    | Begin(p: nat, w: nat)            // a drainer takes the lock for its next message
    | Finish(w: nat)                   // the holder publishes that message
    | Ring(step: Action)               // any other step of writers and readers
    | Die                              // the process that holds the lock dies

  /** Worker `w` of the holder is writing `data`. */
  predicate InHand(x: Suite, w: nat, data: seq<Byte>) {
    && x.holder < |x.hubs| && x.holder !in x.dead
    && D.Enabled(x.hubs[x.holder], D.Write(w)) && x.hubs[x.holder].workers[w].batch[0] == data
  }

  predicate FinishesMessage(s: State, a: Action)
    requires Shape(s) && Protocol.Enabled(s, a)
  {
    a.Publish? && Current(s).Msg?
  }

  predicate Enabled(x: Suite, m: Move)
    requires Shape(x.ring)
  {
    match m
    case Process(p, a) => p < |x.hubs| && p !in x.dead && !a.Write? && D.Enabled(x.hubs[p], a)
    case Begin(p, w) =>
      && p < |x.hubs| && p !in x.dead && D.Enabled(x.hubs[p], D.Write(w))
      && Protocol.Enabled(x.ring, Protocol.Begin(x.hubs[p].workers[w].batch[0]))
    case Finish(w) =>
      && x.ring.writer.Storing? && Protocol.Enabled(x.ring, Publish) && Current(x.ring).Msg?
      && InHand(x, w, x.ring.writer.data)
    case Ring(a) => !a.Begin? && !a.Crash? && Protocol.Enabled(x.ring, a) && !FinishesMessage(x.ring, a)
    case Die => Protocol.Enabled(x.ring, Crash)
  }

  function Apply(x: Suite, m: Move): (x': Suite)
    requires Shape(x.ring) && Enabled(x, m)
    ensures Shape(x'.ring)
  {
    match m
    case Process(p, a) => x.(hubs := x.hubs[p := D.Apply(x.hubs[p], a)])
    case Begin(p, w) =>
      x.(ring := Protocol.Apply(x.ring, Protocol.Begin(x.hubs[p].workers[w].batch[0])), holder := p)
    case Finish(w) =>
      x.(ring := Protocol.Apply(x.ring, Publish), authors := x.authors + [x.holder],
         hubs := x.hubs[x.holder := D.Apply(x.hubs[x.holder], D.Write(w))])
    case Ring(a) => x.(ring := Protocol.Apply(x.ring, a))
    case Die => x.(ring := Protocol.Apply(x.ring, Crash), dead := x.dead + {x.holder})
  }

  predicate Init(x: Suite) {
    && Protocol.Init(x.ring) && x.authors == [] && x.dead == {}
    && (forall p :: 0 <= p < |x.hubs| ==> D.Init(x.hubs[p]))
  }

  /** As for the ring alone: expiry checks see what was stored over. */
  predicate Clean(x: Suite, m: Move) {
    m.Ring? ==> CleanCheck(x.ring, m.step)
  }

  predicate IsCleanRun(xs: seq<Suite>, moves: seq<Move>) {
    && |xs| == |moves| + 1 && Init(xs[0])
    && (forall i :: 0 <= i < |xs| ==> Shape(xs[i].ring))
    && (forall i :: 0 <= i < |moves| ==>
          Enabled(xs[i], moves[i]) && Clean(xs[i], moves[i]) && xs[i + 1] == Apply(xs[i], moves[i]))
  }

  /** The messages written by process `p`, in log order. */
  function From(ms: seq<seq<Byte>>, authors: seq<nat>, p: nat): seq<seq<Byte>>
    requires |authors| == |ms|
  {
    if ms == [] then []
    else
      var n := |ms| - 1;
      From(ms[..n], authors[..n], p) + (if authors[n] == p then [ms[n]] else [])
  }

  lemma FromNext(ms: seq<seq<Byte>>, authors: seq<nat>, m: seq<Byte>, q: nat, p: nat)
    requires |authors| == |ms|
    ensures From(ms + [m], authors + [q], p) == if q == p then From(ms, authors, p) + [m] else From(ms, authors, p)
  {
    assert (ms + [m])[..|ms|] == ms && (authors + [q])[..|authors|] == authors;
  }

  /** Each process finds what it wrote in the log, in order, once. */
  predicate Attributed(x: Suite) {
    && |x.authors| == |Messages(x.ring.log)|
    && (forall p :: 0 <= p < |x.hubs| ==>
          D.Inv(x.hubs[p]) && From(Messages(x.ring.log), x.authors, p) == D.Written(x.hubs[p].events))
  }

  /** A busy ring writer is a drainer of a live process with that message in hand. */
  ghost predicate Occupied(x: Suite) {
    !x.ring.writer.Idle? ==> exists w :: InHand(x, w, x.ring.writer.data)
  }

  ghost predicate Inv(x: Suite) {
    RingInv(x.ring) && ReadersInv(x.ring) && Attributed(x) && Occupied(x)
  }

  // ----- Every move keeps the invariant -----

  lemma MessagesAppended(log: Log, e: Entry)
    ensures Messages(log + [e]) == if e.rec.Msg? then Messages(log) + [e.rec.payload] else Messages(log)
  {
    assert (log + [e])[..|log|] == log;
  }

  /** The step of the ring in a move, if there is one. */
  function RingStep(x: Suite, m: Move): (a: Action)
    requires Shape(x.ring) && Enabled(x, m) && !m.Process?
    ensures Protocol.Enabled(x.ring, a) && Apply(x, m).ring == Protocol.Apply(x.ring, a)
  {
    match m
    case Begin(p, w) => Protocol.Begin(x.hubs[p].workers[w].batch[0])
    case Finish(_) => Publish
    case Ring(a) => a
    case Die => Crash
  }

  lemma MoveKeepsRing(x: Suite, m: Move)
    requires Shape(x.ring) && Enabled(x, m) && Clean(x, m) && RingInv(x.ring) && ReadersInv(x.ring)
    ensures RingInv(Apply(x, m).ring) && ReadersInv(Apply(x, m).ring)
  {
    if !m.Process? {
      StepKeepsReaders(x.ring, RingStep(x, m));
    }
    hide RingInv, ReadersInv;
  }

  lemma HubStep(h: D.Hub, a: D.Action)
    requires D.Inv(h) && D.Enabled(h, a) && !a.Write?
    ensures D.Inv(D.Apply(h, a)) && D.Written(D.Apply(h, a).events) == D.Written(h.events)
  {
    D.StepKeepsInv(h, a);
    D.WrittenNext(h.events, D.Notified);
    hide D.Inv, D.Written;
  }

  lemma HubWrite(h: D.Hub, w: nat)
    requires D.Inv(h) && D.Enabled(h, D.Write(w))
    ensures D.Inv(D.Apply(h, D.Write(w)))
    ensures D.Written(D.Apply(h, D.Write(w)).events) == D.Written(h.events) + [h.workers[w].batch[0]]
  {
    D.StepKeepsInv(h, D.Write(w));
    D.WrittenNext(h.events, D.Wrote(h.workers[w].batch[0]));
    hide D.Inv, D.Written;
  }

  lemma FinishKeepsAttributed(x: Suite, w: nat)
    requires Shape(x.ring) && Enabled(x, Finish(w)) && Attributed(x)
    ensures Attributed(Apply(x, Finish(w)))
  {
    var data, ms := x.ring.writer.data, Messages(x.ring.log);
    var x' := Apply(x, Finish(w));
    assert x'.ring.log == x.ring.log + [Entry(x.ring.freePos, Msg(data))] by { hide Messages; }
    MessagesAppended(x.ring.log, Entry(x.ring.freePos, Msg(data)));
    HubWrite(x.hubs[x.holder], w);
    hide Messages, D.Inv, D.Written, From, Protocol.Apply, D.Apply;
    forall p | 0 <= p < |x'.hubs|
      ensures D.Inv(x'.hubs[p]) && From(Messages(x'.ring.log), x'.authors, p) == D.Written(x'.hubs[p].events)
    {
      FromNext(ms, x.authors, data, x.holder, p);
    }
  }

  lemma RingKeepsMessages(s: State, a: Action)
    requires Shape(s) && Protocol.Enabled(s, a) && !FinishesMessage(s, a)
    ensures Messages(Protocol.Apply(s, a).log) == Messages(s.log)
  {
    if a.Publish? { MessagesAppended(s.log, Entry(s.freePos, Current(s))); }
    hide Messages, ReaderStep, AnswerCopy, NextRecord;
  }

  lemma MoveKeepsAttributed(x: Suite, m: Move)
    requires Shape(x.ring) && Enabled(x, m) && Attributed(x)
    ensures Attributed(Apply(x, m))
  {
    match m
    case Process(p, a) =>
      HubStep(x.hubs[p], a);
      hide Messages, D.Inv, D.Written, From, D.Apply, D.Enabled;
    case Finish(w) => FinishKeepsAttributed(x, w);
    case _ =>
      RingKeepsMessages(x.ring, RingStep(x, m));
      hide Messages, D.Inv, D.Written, From, Protocol.Apply, Protocol.Enabled;
  }

  /** A drainer in the middle of a batch stays there while others move. */
  lemma StillInHand(h: D.Hub, a: D.Action, w: nat, data: seq<Byte>)
    requires D.Enabled(h, a) && !a.Write? && D.Enabled(h, D.Write(w)) && h.workers[w].batch[0] == data
    ensures exists v: nat :: D.Enabled(D.Apply(h, a), D.Write(v)) && D.Apply(h, a).workers[v].batch[0] == data
  {
    var h' := D.Apply(h, a);
    var v := if a.NotifyLast? && a.w < w then w - 1 else w;
    assert h'.workers[v] == h.workers[w];
    assert D.Enabled(h', D.Write(v));
  }

  lemma WriterKeepsData(s: State, a: Action)
    requires Shape(s) && Protocol.Enabled(s, a) && !a.Begin?
    ensures var s' := Protocol.Apply(s, a);
            !s'.writer.Idle? ==> !s.writer.Idle? && s'.writer.data == s.writer.data
  {
    hide ReaderStep, AnswerCopy, NextRecord;
  }

  lemma MoveKeepsOccupied(x: Suite, m: Move)
    requires Shape(x.ring) && Enabled(x, m) && Occupied(x)
    ensures Occupied(Apply(x, m))
  {
    var x' := Apply(x, m);
    match m
    case Process(p, a) =>
      if !x.ring.writer.Idle? {
        var w :| InHand(x, w, x.ring.writer.data);
        if p == x.holder {
          StillInHand(x.hubs[p], a, w, x.ring.writer.data);
          var v: nat :| D.Enabled(x'.hubs[p], D.Write(v)) && x'.hubs[p].workers[v].batch[0] == x.ring.writer.data;
          assert InHand(x', v, x.ring.writer.data);
        } else {
          assert InHand(x', w, x.ring.writer.data);
        }
      }
    case Begin(p, w) =>
      assert InHand(x', w, x'.ring.writer.data);
    case Finish(w) =>
      assert x'.ring.writer.Idle?;
    case Ring(a) =>
      WriterKeepsData(x.ring, a);
      hide Protocol.Apply, Protocol.Enabled;
      if !x'.ring.writer.Idle? {
        var w :| InHand(x, w, x.ring.writer.data);
        assert InHand(x', w, x.ring.writer.data);
      }
    case Die =>
  }

  lemma {:induction false} InvOverRun(xs: seq<Suite>, moves: seq<Move>, i: nat)
    requires IsCleanRun(xs, moves) && i < |xs|
    ensures Inv(xs[i])
  {
    if i > 0 {
      InvOverRun(xs, moves, i - 1);
      MoveKeepsRing(xs[i - 1], moves[i - 1]);
      MoveKeepsAttributed(xs[i - 1], moves[i - 1]);
      MoveKeepsOccupied(xs[i - 1], moves[i - 1]);
      hide RingInv, ReadersInv, Attributed, Occupied, Apply, Enabled;
    } else {
      InitialReaders(xs[0].ring);
    }
  }

  /** From post to confirmation, with everything concurrent: in every state of a clean
      run, what a reader got past since its activation is a contiguous part of the log's
      messages, each confirmed unchanged or declined; and for every process the log
      holds, in order and once each, the first so many messages it posted. */
  lemma PostedToConfirmed(xs: seq<Suite>, moves: seq<Move>, i: nat, r: nat)
    requires IsCleanRun(xs, moves) && i < |xs| && r < |xs[i].ring.readers|
    ensures var x := xs[i]; var rd, log := x.ring.readers[r], x.ring.log;
            && rd.first <= rd.at <= |log|
            && Messages(log) == Messages(log[..rd.first]) + Messages(log[rd.first..rd.at]) + Messages(log[rd.at..])
            && Tally(rd.outcomes, Messages(log[rd.first..rd.at]))
            && |x.authors| == |Messages(log)|
            && (forall p :: 0 <= p < |x.hubs| ==> From(Messages(log), x.authors, p) <= x.hubs[p].posted)
  {
    InvOverRun(xs, moves, i);
    var x := xs[i];
    var rd := x.ring.readers[r];
    assert ReaderInv(rd, x.ring.log, x.ring.freePos, x.ring.dirty, x.ring.cap);
    SegmentOfMessages(x.ring.log, rd.first, rd.at);
    hide Messages, From, Tally, RingInv, IsCleanRun;
  }

  // ----- What processes post, and what death ends -----

  predicate IsRun(xs: seq<Suite>, moves: seq<Move>) {
    && |xs| == |moves| + 1 && Init(xs[0])
    && (forall i :: 0 <= i < |xs| ==> Shape(xs[i].ring))
    && (forall i :: 0 <= i < |moves| ==> Enabled(xs[i], moves[i]) && xs[i + 1] == Apply(xs[i], moves[i]))
  }

  /** The messages process `p` posted in the first `i` moves. */
  function Posted(moves: seq<Move>, p: nat, i: nat): seq<seq<Byte>>
    requires i <= |moves|
  {
    if i == 0 then []
    else
      var m := moves[i - 1];
      Posted(moves, p, i - 1) + (if m.Process? && m.p == p && m.a.Enqueue? then [m.a.message] else [])
  }

  lemma MovePosts(x: Suite, m: Move, p: nat)
    requires Shape(x.ring) && Enabled(x, m) && p < |x.hubs|
    ensures |Apply(x, m).hubs| == |x.hubs|
    ensures Apply(x, m).hubs[p].posted
         == x.hubs[p].posted + (if m.Process? && m.p == p && m.a.Enqueue? then [m.a.message] else [])
  {
    if m.Process? && m.p == p { D.Recorded(x.hubs[p], m.a); }
    if m.Finish? && p == x.holder { D.Recorded(x.hubs[p], D.Write(m.w)); }
    hide Protocol.Apply, Protocol.Enabled, D.Apply, D.Enabled;
  }

  /** What counts as posted by a process is all it ever enqueued, in that order. */
  lemma {:induction false} PostedExactly(xs: seq<Suite>, moves: seq<Move>, i: nat, p: nat)
    requires IsRun(xs, moves) && i < |xs| && p < |xs[0].hubs|
    ensures |xs[i].hubs| == |xs[0].hubs| && xs[i].hubs[p].posted == Posted(moves, p, i)
  {
    if i > 0 {
      PostedExactly(xs, moves, i - 1, p);
      hide Apply, Enabled;
      MovePosts(xs[i - 1], moves[i - 1], p);
    }
  }

  lemma MoveOfTheLiving(x: Suite, m: Move, p: nat)
    requires Shape(x.ring) && Enabled(x, m) && p < |x.hubs|
    ensures p in Apply(x, m).dead <==> p in x.dead || (m.Die? && x.holder == p)
    ensures |Apply(x, m).hubs| == |x.hubs|
    ensures p in x.dead ==> Apply(x, m).hubs[p] == x.hubs[p] && (m.Finish? ==> x.holder != p)
    ensures Apply(x, m).authors == x.authors + (if m.Finish? then [x.holder] else [])
    ensures m.Die? ==> Apply(x, m).ring.writer.Idle? && Apply(x, m).hubs == x.hubs
  {
    hide D.Apply, D.Enabled, Current, ReaderStep, AnswerCopy;
  }

  /** Processes are dead iff they died with the lock in hand. */
  lemma {:induction false} DeadExactly(xs: seq<Suite>, moves: seq<Move>, i: nat, p: nat)
    requires IsRun(xs, moves) && i < |xs| && p < |xs[0].hubs|
    ensures |xs[i].hubs| == |xs[0].hubs|
    ensures p in xs[i].dead <==> exists k :: 0 <= k < i && moves[k].Die? && xs[k].holder == p
  {
    if i > 0 {
      DeadExactly(xs, moves, i - 1, p);
      hide Apply, Enabled;
      MoveOfTheLiving(xs[i - 1], moves[i - 1], p);
    }
  }

  /** The dead do nothing any more: a process that died keeps its queue and what it had
      posted, and no message logged later is its own; the lock is free at once. */
  lemma {:induction false} DeathIsFinal(xs: seq<Suite>, moves: seq<Move>, i: nat, j: nat)
    requires IsRun(xs, moves) && i < j < |xs| && moves[i].Die? && xs[i].holder < |xs[i].hubs|
    ensures var p := xs[i].holder;
            && xs[i + 1].ring.writer.Idle? && p in xs[j].dead
            && p < |xs[j].hubs| && xs[j].hubs[p] == xs[i].hubs[p]
            && xs[i].authors <= xs[j].authors && p !in xs[j].authors[|xs[i].authors|..]
    decreases j
  {
    if i + 1 < j { DeathIsFinal(xs, moves, i, j - 1); }
    hide Apply, Enabled;
    assert i + 1 == j ==> xs[i].authors[|xs[i].authors|..] == [];
    MoveOfTheLiving(xs[j - 1], moves[j - 1], xs[i].holder);
  }

  // ----- Runs that are clean -----

  /** No forced write, and readers set their slots in time. */
  predicate IsHonouredRun(xs: seq<Suite>, moves: seq<Move>) {
    IsRun(xs, moves) && forall i :: 0 <= i < |moves| && moves[i].Ring? ==> B.Honours(xs[i].ring, moves[i].step)
  }

  predicate Guarded(s: State) {
    RingInv(s) && forall r :: 0 <= r < |s.readers| ==> B.Protected(s, r)
  }

  lemma HonouredStep(s: State, a: Action)
    requires Guarded(s) && Protocol.Enabled(s, a) && B.Honours(s, a)
    ensures Guarded(Protocol.Apply(s, a)) && CleanCheck(s, a)
  {
    StepKeepsRing(s, a);
    SameReaders(s, a);
    forall r | 0 <= r < |s.readers|
      ensures B.Protected(Protocol.Apply(s, a), r)
    {
      if OfWriter(a) { B.WriterStepProtects(s, a, r); } else { B.ReaderStepProtects(s, a, r); }
    }
    if a.Step? { assert B.Protected(s, a.r); }
    hide RingInv, Protocol.Apply, Protocol.Enabled;
  }

  lemma {:induction false} GuardedOverRun(xs: seq<Suite>, moves: seq<Move>, i: nat)
    requires IsHonouredRun(xs, moves) && i < |xs|
    ensures Guarded(xs[i].ring)
  {
    if i > 0 {
      GuardedOverRun(xs, moves, i - 1);
      var x, m := xs[i - 1], moves[i - 1];
      if !m.Process? { HonouredStep(x.ring, RingStep(x, m)); }
      hide Guarded;
    }
  }

  lemma HonouredIsClean(xs: seq<Suite>, moves: seq<Move>)
    requires IsHonouredRun(xs, moves)
    ensures IsCleanRun(xs, moves)
  {
    forall i | 0 <= i < |moves|
      ensures Clean(xs[i], moves[i])
    {
      GuardedOverRun(xs, moves, i);
      if moves[i].Ring? { HonouredStep(xs[i].ring, moves[i].step); }
    }
  }

  /** Writes are atomic to readers: from a writer's first store to its last publication
      nobody else steps on the ring and the writer's process does not die. */
  predicate IsAtomicRun(xs: seq<Suite>, moves: seq<Move>) {
    IsRun(xs, moves) && forall i :: 0 <= i < |moves| && xs[i].ring.writer.Storing? ==>
      moves[i].Process? || moves[i].Finish? || (moves[i].Ring? && (moves[i].step.StoreByte? || moves[i].step.Publish?))
  }

  lemma {:induction false} NoResidueOverSuite(xs: seq<Suite>, moves: seq<Move>, i: nat)
    requires IsAtomicRun(xs, moves) && i < |xs|
    ensures RingInv(xs[i].ring) && NoResidue(xs[i].ring)
  {
    if i > 0 {
      NoResidueOverSuite(xs, moves, i - 1);
      var x, m := xs[i - 1], moves[i - 1];
      if !m.Process? {
        StepKeepsRing(x.ring, RingStep(x, m));
        NoResidueStep(x.ring, RingStep(x, m));
      }
      hide RingInv, NoResidue;
    }
  }

  lemma AtomicIsClean(xs: seq<Suite>, moves: seq<Move>)
    requires IsAtomicRun(xs, moves)
    ensures IsCleanRun(xs, moves)
  {
    forall i | 0 <= i < |moves|
      ensures Clean(xs[i], moves[i])
    {
      NoResidueOverSuite(xs, moves, i);
    }
  }

  // ----- Everything delivered -----

  /** No producer or drainer of the process has anything left to do. */
  predicate AtRest(h: D.Hub) {
    h.holders == 0 && h.scheduled == 0 && h.workers == []
  }

  lemma {:induction false} FromConcatNext(ms: seq<seq<Byte>>, next: seq<seq<Byte>>, m: seq<Byte>, authors: seq<nat>,
                                          more: seq<nat>, q: nat, p: nat)
    requires |authors| == |ms| && |more| == |next|
    requires From(ms + next, authors + more, p) == From(ms, authors, p) + From(next, more, p)
    ensures From(ms + (next + [m]), authors + (more + [q]), p) == From(ms, authors, p) + From(next + [m], more + [q], p)
  {
    hide From;
    assert ms + (next + [m]) == (ms + next) + [m] && authors + (more + [q]) == (authors + more) + [q];
    FromNext(ms + next, authors + more, m, q, p);
    FromNext(next, more, m, q, p);
  }

  lemma NoneFrom(ms: seq<seq<Byte>>, authors: seq<nat>, p: nat)
    requires |authors| == |ms|
    ensures From(ms + [], authors + [], p) == From(ms, authors, p) + From([], [], p)
  {
    assert ms + [] == ms && authors + [] == authors;
  }

  lemma {:induction false} FromConcat(ms: seq<seq<Byte>>, next: seq<seq<Byte>>, authors: seq<nat>, more: seq<nat>,
                                      p: nat)
    requires |authors| == |ms| && |more| == |next|
    ensures From(ms + next, authors + more, p) == From(ms, authors, p) + From(next, more, p)
  {
    hide From;
    if next == [] {
      NoneFrom(ms, authors, p);
    } else {
      var n := |next| - 1;
      FromConcat(ms, next[..n], authors, more[..n], p);
      FromConcatNext(ms, next[..n], next[n], authors, more[..n], more[n], p);
      assert next == next[..n] + [next[n]] && more == more[..n] + [more[n]];
    }
  }

  /** Everything arrives: in a clean run, when a reader's read has succeeded and nothing
      was logged since, its outcomes account for all messages logged since its
      activation. With those logged before they are, for each process, dead ones
      included, exactly what it wrote, and for each that is at rest all it posted. */
  lemma EverythingDelivered(xs: seq<Suite>, moves: seq<Move>, i: nat, r: nat)
    requires IsCleanRun(xs, moves) && i < |xs| && r < |xs[i].ring.readers|
    requires var rd := xs[i].ring.readers[r]; rd.pc == Returned(Success) && rd.pos == xs[i].ring.freePos
    ensures var x := xs[i]; var rd, log := x.ring.readers[r], x.ring.log;
            rd.first <= |log| && Tally(rd.outcomes, Messages(log[rd.first..]))
    ensures var x := xs[i]; var log, first := x.ring.log, x.ring.readers[r].first;
            var n := |Messages(log[..first])|;
            && n + |Messages(log[first..])| == |x.authors|
            && (forall p :: 0 <= p < |x.hubs| ==>
                  var arrived := From(Messages(log[..first]), x.authors[..n], p)
                                 + From(Messages(log[first..]), x.authors[n..], p);
                  D.Written(x.hubs[p].events) == arrived
                  && (AtRest(x.hubs[p]) ==> x.hubs[p].posted == arrived))
  {
    PostedToConfirmed(xs, moves, i, r);
    InvOverRun(xs, moves, i);
    var x := xs[i];
    var rd, log := x.ring.readers[r], x.ring.log;
    SuccessAtEnd(x.ring, r);
    var before, after := Messages(log[..rd.first]), Messages(log[rd.first..]);
    AtActivation(log, rd.first);
    var n := |before|;
    assert x.authors == x.authors[..n] + x.authors[n..];
    hide Messages, From, Tally, RingInv, ReadersInv, IsCleanRun, Occupied;
    forall p | 0 <= p < |x.hubs|
      ensures D.Written(x.hubs[p].events) == From(before, x.authors[..n], p) + From(after, x.authors[n..], p)
      ensures AtRest(x.hubs[p]) ==> x.hubs[p].posted == D.Written(x.hubs[p].events)
    {
      if AtRest(x.hubs[p]) { D.Settled(x.hubs[p]); }
      FromConcat(before, after, x.authors[..n], x.authors[n..], p);
    }
  }

  predicate AllConfirmed(outcomes: seq<Outcome>) {
    forall k :: 0 <= k < |outcomes| ==> outcomes[k].Confirmed?
  }

  lemma StepConfirms(s: State, a: Action, r: nat)
    requires Shape(s) && Protocol.Enabled(s, a) && r < |s.readers| && a != Answer(r, false)
    requires AllConfirmed(s.readers[r].outcomes)
    ensures |Protocol.Apply(s, a).readers| == |s.readers| && AllConfirmed(Protocol.Apply(s, a).readers[r].outcomes)
  {
    hide DecodeHeader, Image, NextRecord, BytesToWrite;
  }

  /** A reader whose handler never declines has confirmed all it got past. */
  lemma {:induction false} AcceptingConfirms(xs: seq<Suite>, moves: seq<Move>, i: nat, r: nat)
    requires IsRun(xs, moves) && i < |xs| && r < |xs[i].ring.readers|
    requires forall k :: 0 <= k < i ==> moves[k] != Ring(Answer(r, false))
    ensures AllConfirmed(xs[i].ring.readers[r].outcomes)
  {
    if i > 0 {
      var x, m := xs[i - 1], moves[i - 1];
      if !m.Process? { SameReaders(x.ring, RingStep(x, m)); }
      AcceptingConfirms(xs, moves, i - 1, r);
      hide Protocol.Apply, Protocol.Enabled, AllConfirmed;
      if !m.Process? { StepConfirms(x.ring, RingStep(x, m), r); }
    }
  }

  /** End to end with the library's own handler, which never declines: when a reader's
      read has succeeded and nothing was logged since, it has confirmed exactly the
      messages logged since its activation, in log order, once each. */
  lemma EverythingConfirmed(xs: seq<Suite>, moves: seq<Move>, i: nat, r: nat)
    requires IsCleanRun(xs, moves) && i < |xs| && r < |xs[i].ring.readers|
    requires forall k :: 0 <= k < i ==> moves[k] != Ring(Answer(r, false))
    requires var rd := xs[i].ring.readers[r]; rd.pc == Returned(Success) && rd.pos == xs[i].ring.freePos
    ensures var rd, log := xs[i].ring.readers[r], xs[i].ring.log;
            && rd.first <= |log| && |rd.outcomes| == |Messages(log[rd.first..])|
            && forall k :: 0 <= k < |rd.outcomes| ==> rd.outcomes[k] == Confirmed(Messages(log[rd.first..])[k])
  {
    EverythingDelivered(xs, moves, i, r);
    AcceptingConfirms(xs, moves, i, r);
    hide Messages, IsCleanRun;
  }

  lemma AtActivation(log: Log, first: nat)
    requires first <= |log|
    ensures Messages(log) == Messages(log[..first]) + Messages(log[first..])
  {
    assert log == log[..first] + log[first..];
    MessagesConcat(log[..first], log[first..]);
    hide Messages;
  }

  lemma SuccessAtEnd(s: State, r: nat)
    requires RingInv(s) && ReadersInv(s) && r < |s.readers| && s.readers[r].pos == s.freePos
    ensures s.readers[r].first <= s.readers[r].at == |s.log|
    ensures Tally(s.readers[r].outcomes, Messages(s.log[s.readers[r].first..]))
  {
    var rd := s.readers[r];
    assert ReaderInv(rd, s.log, s.freePos, s.dirty, s.cap);
    BeforeEnd(s.log, s.freePos, s.cap, rd.at);
    assert s.log[rd.first..|s.log|] == s.log[rd.first..];
    hide Messages, Tally;
  }

  /** A drainer that has stored its message can always publish it: the model does not
      hold back any step of the ring. */
  lemma PublishIsFinish(x: Suite)
    requires Inv(x) && Protocol.Enabled(x.ring, Publish)
    ensures Enabled(x, Ring(Publish)) || exists w :: Enabled(x, Finish(w))
  {
    var w :| InHand(x, w, x.ring.writer.data);
    hide InHand, RingInv, ReadersInv, Attributed;
    if Current(x.ring).Msg? { assert Enabled(x, Finish(w)); }
  }
}
