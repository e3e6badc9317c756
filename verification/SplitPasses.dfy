/** Passes that read record by record, with everything else going on in between:
    messages are created and logged, channel readers come and go, passes are scheduled.
    What the theorems about whole passes keep, and where they break. */
module SplitPasses {
  import opened Bytes
  import opened Records
  import opened Slots
  import opened QuiescentRead
  import opened Ring
  import opened TopicReading
  import S = Subscriptions
  import R = Reception

  /** A station and the list of the pass under way, if there is one. */
  datatype Split = Split(st: S.Station, pass: Option<seq<ChannelReader>>)

  datatype Move =
    | Other(a: S.Action)   // anything but a pass
    | Start                // the first scheduled pass begins
    | Record               // it reads one record
    | Stop                 // it ends, at the stream end or where it cannot read on

  /** The ring reader stands where it stops. */
  predicate AtStop(st: S.Station)
    requires st.at <= |st.log|
  {
    StopAt(st.log, st.freePos, st.cap, st.at) == st.at
  }

  predicate Enabled(x: Split, m: Move)
    requires S.Shape(x.st)
  {
    match m
    case Other(a) => !a.Pass? && S.Enabled(x.st, a)
    case Start => x.pass.None? && x.st.passes != []
    case Record => x.pass.Some? && !AtStop(x.st)
    case Stop => x.pass.Some? && AtStop(x.st)
  }

  lemma NotAtStop(st: S.Station)
    requires S.Shape(st) && !AtStop(st)
    ensures st.at < |st.log|
  {
  }

  /** As in the library, a pass under way does not look at the list again. */
  function Apply(x: Split, m: Move): (x': Split)
    requires S.Shape(x.st) && Enabled(x, m)
    ensures S.Shape(x'.st)
  {
    var st := x.st;
    match m
    case Other(a) => x.(st := S.Apply(st, a))
    case Start => Split(st.(passes := st.passes[1..]), if st.readers == [] then None else Some(st.passes[0]))
    case Record =>
      NotAtStop(st);
      x.(st := st.(served := st.served + S.Tagged(S.Recorded(x.pass.value, st.log[st.at]), st.at), at := st.at + 1))
    case Stop => x.(pass := None)
  }

  predicate IsPath(xs: seq<Split>, moves: seq<Move>) {
    && |xs| == |moves| + 1
    && (forall i :: 0 <= i < |xs| ==> S.Shape(xs[i].st))
    && (forall i :: 0 <= i < |moves| ==> Enabled(xs[i], moves[i]) && xs[i + 1] == Apply(xs[i], moves[i]))
  }

  /** The list is not emptied while a pass is under way. */
  predicate Undisturbed(x: Split, m: Move) {
    m.Other? && m.a.Remove? && x.pass.Some? ==> Erase(x.st.readers, m.a.id) != []
  }

  predicate UndisturbedPath(xs: seq<Split>, moves: seq<Move>) {
    IsPath(xs, moves) && forall i :: 0 <= i < |moves| ==> Undisturbed(xs[i], moves[i])
  }

  // ----- What survives -----

  predicate Sound(x: Split) {
    && S.FromSessions(x.st) && R.Orderly(x.st)
    && (x.pass.Some? ==> x.st.readers != [] && R.InOrderOfAddition(x.pass.value))
  }

  lemma RecordKeepsSound(x: Split)
    requires Sound(x) && Enabled(x, Record)
    ensures Sound(Apply(x, Record))
  {
    NotAtStop(x.st);
    var st := x.st;
    R.RecordedAscends(x.pass.value, st.log[st.at], st.at);
    var more := S.Tagged(S.Recorded(x.pass.value, st.log[st.at]), st.at);
    hide S.Tagged, S.Recorded, R.Ascending, R.InOrderOfAddition, StopAt;
    R.AscendingConcat(st.served, more, st.at);
    assert forall k :: 0 <= k < |more| ==> more[k] in more;
  }

  lemma StepKeepsSound(x: Split, m: Move)
    requires Sound(x) && Enabled(x, m) && Undisturbed(x, m)
    ensures Sound(Apply(x, m))
  {
    match m
    case Other(a) =>
      S.StepKeepsSessions(x.st, a);
      R.StepKeepsOrderly(x.st, a);
      hide R.Orderly, S.FromSessions, Erase, R.InOrderOfAddition, WriteEntries, BytesToWrite, IsTopicMessage;
    case Start =>
      if x.st.readers != [] { assert x.st.passes[0] in x.st.passes; }
      hide R.Ascending, R.InOrderOfAddition, IsTopicMessage;
    case Record => RecordKeepsSound(x);
    case Stop =>
  }

  /** With passes read record by record: as long as the list is not emptied inside a
      pass, no call comes from a message logged while there was no channel reader, and
      calls are made in log order, once per channel reader and message. */
  lemma {:induction false} SessionsSurvive(xs: seq<Split>, moves: seq<Move>, i: nat)
    requires UndisturbedPath(xs, moves) && i < |xs| && S.Init(xs[0].st) && xs[0].pass == None
    ensures Sound(xs[i])
  {
    if i > 0 {
      SessionsSurvive(xs, moves, i - 1);
      StepKeepsSound(xs[i - 1], moves[i - 1]);
    }
  }

  // ----- Paths -----

  ghost predicate Can(x: Split, y: Split) {
    exists xs: seq<Split>, moves: seq<Move> :: IsPath(xs, moves) && xs[0] == x && xs[|moves|] == y
  }

  lemma CanStay(x: Split)
    requires S.Shape(x.st)
    ensures Can(x, x)
  {
    assert IsPath([x], []);
  }

  lemma CanGoOn(x: Split, y: Split, m: Move)
    requires Can(x, y) && S.Shape(y.st) && Enabled(y, m)
    ensures Can(x, Apply(y, m))
  {
    var xs, moves :| IsPath(xs, moves) && xs[0] == x && xs[|moves|] == y;
    var xs', moves' := xs + [Apply(y, m)], moves + [m];
    forall i | 0 <= i < |moves'|
      ensures Enabled(xs'[i], moves'[i]) && xs'[i + 1] == Apply(xs'[i], moves'[i])
    {
      if i < |moves| { assert xs'[i + 1] == xs[i + 1] && moves'[i] == moves[i]; }
    }
    assert IsPath(xs', moves');
  }

  // ----- A whole pass, undisturbed -----

  lemma NextRecordRead(st: S.Station)
    requires S.Shape(st) && !AtStop(st)
    ensures st.at < StopAt(st.log, st.freePos, st.cap, st.at) == StopAt(st.log, st.freePos, st.cap, st.at + 1)
  {
  }

  lemma {:induction false} ServedFirst(readers: seq<ChannelReader>, log: Log, a: nat, b: nat)
    requires a < b <= |log|
    ensures S.ServedBy(readers, log, a, b)
         == S.Tagged(S.Recorded(readers, log[a]), a) + S.ServedBy(readers, log, a + 1, b)
    decreases b
  {
    hide S.Tagged, S.Recorded;
    if b > a + 1 { ServedFirst(readers, log, a, b - 1); }
  }

  /** The station with everything up to `j` read. */
  function ReadUpTo(st: S.Station, readers: seq<ChannelReader>, j: nat): S.Station
    requires j <= |st.log|
  {
    st.(served := st.served + S.ServedBy(readers, st.log, st.at, j), at := j)
  }

  lemma {:induction false} RestRead(from: Split, x: Split)
    requires Can(from, x) && S.Shape(x.st) && x.pass.Some?
    ensures var j := StopAt(x.st.log, x.st.freePos, x.st.cap, x.st.at);
            Can(from, Split(ReadUpTo(x.st, x.pass.value, j), None))
    decreases |x.st.log| - x.st.at
  {
    hide Can, StopAt, S.Tagged, S.Recorded;
    var j := StopAt(x.st.log, x.st.freePos, x.st.cap, x.st.at);
    if AtStop(x.st) {
      CanGoOn(from, x, Stop);
      assert ReadUpTo(x.st, x.pass.value, j) == x.st;
    } else {
      NotAtStop(x.st);
      NextRecordRead(x.st);
      CanGoOn(from, x, Record);
      ServedFirst(x.pass.value, x.st.log, x.st.at, j);
      var y := Apply(x, Record);
      hide S.ServedBy;
      RestRead(from, y);
      Regroup(x.st.served, S.Tagged(S.Recorded(x.pass.value, x.st.log[x.st.at]), x.st.at),
              S.ServedBy(x.pass.value, x.st.log, x.st.at + 1, j));
    }
  }

  lemma Regroup(a: seq<S.Served>, b: seq<S.Served>, c: seq<S.Served>)
    ensures (a + b) + c == a + (b + c)
  {
  }

  /** A pass that nothing comes between is the one step it is elsewhere. */
  lemma WholePass(st: S.Station)
    requires S.Shape(st) && S.Enabled(st, S.Pass)
    ensures Can(Split(st, None), Split(S.Apply(st, S.Pass), None))
  {
    var x := Split(st, None);
    CanStay(x);
    hide Can, StopAt, S.ServedBy, IsTopicMessage;
    CanGoOn(x, x, Start);
    if st.readers != [] { RestRead(x, Apply(x, Start)); }
  }

  // ----- Where it breaks: the list emptied inside a pass -----

  /** A pass is under way with one channel reader, and nothing is logged. */
  function UnderWay(cap: nat, c: ChannelReader): Split {
    Split(S.Opening(cap).(readers := [c], nextId := 1), Some([c]))
  }

  lemma GetsUnderWay(cap: nat, c: ChannelReader)
    requires cap > 0 && c.id == 0
    ensures Can(Split(S.Opening(cap), None), UnderWay(cap, c))
  {
    var x0 := Split(S.Opening(cap), None);
    CanStay(x0);
    hide Can;
    CanGoOn(x0, x0, Other(S.Add(c)));
    var x1 := Apply(x0, Other(S.Add(c)));
    CanGoOn(x0, x1, Other(S.Notify));
    var x2 := Apply(x1, Other(S.Notify));
    CanGoOn(x0, x2, Start);
    assert Apply(x2, Start) == UnderWay(cap, c);
  }

  /** The reader is removed, and a message is created and logged. */
  function LeftBehind(cap: nat, c: ChannelReader, m: seq<Byte>): Split
    requires S.Postable(m, cap)
  {
    Split(S.Opening(cap).(nextId := 1, clock := 1, births := [0], gaps := {0},
                          log := [Entry(0, Msg(m))], freePos := HEADER_SIZE + |m|),
          Some([c]))
  }

  lemma GetsLeftBehind(from: Split, cap: nat, c: ChannelReader, m: seq<Byte>)
    requires cap > 0 && c.id == 0 && S.Postable(m, cap) && Can(from, UnderWay(cap, c))
    ensures Can(from, LeftBehind(cap, c, m))
  {
    hide Can, IsTopicMessage;
    var x := UnderWay(cap, c);
    CanGoOn(from, x, Other(S.Remove(0)));
    var x1 := Apply(x, Other(S.Remove(0)));
    assert x1.st.readers == [];
    CanGoOn(from, x1, Other(S.Create(m)));
    var x2 := Apply(x1, Other(S.Create(m)));
    assert x2.st.queue[0] == S.Queued(m, 0);
    CanGoOn(from, x2, Other(S.Write(0)));
    var x3 := Apply(x2, Other(S.Write(0)));
    assert WriteEntries(m, 0, cap) == [Entry(0, Msg(m))] && BytesToWrite(m, 0, cap) == HEADER_SIZE + |m|;
    assert x3.st.log == [Entry(0, Msg(m))] && x3.st.births == [0] && x3.st.gaps == {0} && x3.st.queue == [];
    assert x3 == LeftBehind(cap, c, m);
  }

  /** If the list is emptied inside a pass, that pass calls the removed channel reader for
      what is logged then: for every buffer, message that fits and reader accepting it,
      a run in which it is called for a message logged while there was no channel
      reader. */
  lemma GapServed(cap: nat, c: ChannelReader, m: seq<Byte>)
    requires cap > 0 && c.id == 0 && S.Postable(m, cap) && S.Accepts(c, m)
    ensures exists y, sv :: && Can(Split(S.Opening(cap), None), y) && y.st.readers == []
                            && sv in y.st.served && sv.id == c.id && sv.index in y.st.gaps
  {
    var x0, x := Split(S.Opening(cap), None), LeftBehind(cap, c, m);
    GetsUnderWay(cap, c);
    GetsLeftBehind(x0, cap, c, m);
    assert !AtStop(x.st) by {
      S.ReadBack([], 0, cap, m);
      assert [] + WriteEntries(m, 0, cap) == [Entry(0, Msg(m))];
    }
    hide Can, S.Accepts, IsTopicMessage, AtStop;
    CanGoOn(x0, x, Record);
    var y := Apply(x, Record);
    assert [c][0] == c;
    assert S.Takes([c], c.id, x.st.log[0]);
    S.RecordedExactly([c], x.st.log[0], 0, c.id, 0);
    S.CallsConcat([], S.Tagged(S.Recorded([c], x.st.log[0]), 0), c.id, 0);
    hide S.Tagged, S.Recorded, S.Takes;
    var sv :| sv in y.st.served && sv.id == c.id && sv.index == 0;
  }

  // ----- What is missed -----

  /** As for whole passes: `c`, in the list since the beginning of the path, is called for
      exactly what it accepts among what was read from `b` on. */
  predicate CalledSince(x: Split, c: ChannelReader, begin: nat, b: nat) {
    && R.CalledSince(x.st, c, begin, b)
    && (x.pass.Some? ==>
          && (forall d :: d in x.pass.value && d.id == c.id ==> d == c)
          && (if c in x.pass.value then forall p :: p in x.st.passes ==> c in p else b == x.st.at))
  }

  /** Where the ring reader was when the last record was read by a pass that lacked `c`,
      or at the beginning if there was none. */
  function LastWithout(xs: seq<Split>, moves: seq<Move>, c: ChannelReader, i: nat): nat
    requires IsPath(xs, moves) && i < |xs|
  {
    if i == 0 then xs[0].st.at
    else if moves[i - 1].Record? && c !in xs[i - 1].pass.value then xs[i].st.at
    else LastWithout(xs, moves, c, i - 1)
  }

  lemma RecordCalls(x: Split, c: ChannelReader, begin: nat, b: nat)
    requires CalledSince(x, c, begin, b) && Enabled(x, Record)
    ensures CalledSince(Apply(x, Record), c, begin, if c in x.pass.value then b else x.st.at + 1)
  {
    NotAtStop(x.st);
    var st, copy := x.st, x.pass.value;
    var more := S.Tagged(S.Recorded(copy, st.log[st.at]), st.at);
    assert forall sv :: sv in more ==> sv.index == st.at;
    hide S.Tagged, S.Recorded, S.Calls, S.AcceptsRecord, StopAt;
    forall k: nat | k < st.at + 1
      ensures S.Calls(st.served + more, c.id, k)
         <==> if k < st.at then S.Calls(st.served, c.id, k) else c in copy && S.AcceptsRecord(c, st.log[k])
    {
      S.CallsConcat(st.served, more, c.id, k);
      S.RecordedExactly(copy, st.log[st.at], st.at, c.id, k);
      R.TakesOnly(copy, c, st.log[st.at]);
      if k == st.at { R.NotYetCalled(st, c, k); }
    }
  }

  lemma StepKeepsCalled(x: Split, m: Move, c: ChannelReader, begin: nat, b: nat)
    requires CalledSince(x, c, begin, b) && Enabled(x, m) && Undisturbed(x, m) && c in Apply(x, m).st.readers
    ensures CalledSince(Apply(x, m), c, begin, if m.Record? && c !in x.pass.value then x.st.at + 1 else b)
  {
    match m
    case Record => RecordCalls(x, c, begin, b);
    case Other(a) =>
      R.StepKeepsCalled(x.st, a, c, begin, b);
      hide R.CalledSince, Erase, WriteEntries, BytesToWrite, IsTopicMessage;
      assert Apply(x, m).st.at == x.st.at;
      assert forall p :: p in Apply(x, m).st.passes ==> p in x.st.passes || p == x.st.readers;
    case Start =>
      assert x.st.passes[0] in x.st.passes;
      hide S.Calls, S.AcceptsRecord, IsTopicMessage;
    case Stop =>
  }

  /** Also with passes read record by record: for as long as a channel reader stays in the
      list, it was called for a record read past iff it accepts the message and the
      record was not read before the last one that a pass lacking it has read. */
  lemma {:induction false} CalledExactly(s: S.Station, pass: Option<seq<ChannelReader>>, c: ChannelReader,
                                         xs: seq<Split>, moves: seq<Move>, i: nat)
    requires S.Shape(s) && S.Numbered(s) && S.Enabled(s, S.Add(c))
    requires pass.Some? ==> s.readers != [] && forall d :: d in pass.value ==> d.id < s.nextId
    requires UndisturbedPath(xs, moves) && xs[0] == Split(S.Apply(s, S.Add(c)), pass) && i < |xs|
    requires forall k :: 0 <= k <= i ==> c in xs[k].st.readers
    ensures CalledSince(xs[i], c, xs[0].st.at, LastWithout(xs, moves, c, i))
    decreases i
  {
    if i == 0 {
      R.AddedCalled(s, c);
    } else {
      CalledExactly(s, pass, c, xs, moves, i - 1);
      assert c in xs[i].st.readers;
      StepKeepsCalled(xs[i - 1], moves[i - 1], c, xs[0].st.at, LastWithout(xs, moves, c, i - 1));
    }
  }
}
