/** What a topic reader's runs come to: who is in the list, what is scheduled, where every
    message is, and what the history fields of a station stand for. */
module StationRuns {
  import opened Records
  import opened QuiescentRead
  import opened Ring
  import opened TopicReading
  import opened Subscriptions
  import opened Reception

  // ----- Who is in the list -----

  /** `c` was added at step `i` and not removed before step `j`. */
  predicate AddedAt(acts: seq<Action>, c: ChannelReader, i: nat, j: nat)
    requires j <= |acts|
  {
    i < j && acts[i] == Add(c) && forall k :: i < k < j ==> acts[k] != Remove(c.id)
  }

  ghost predicate Listed(acts: seq<Action>, c: ChannelReader, j: nat)
    requires j <= |acts|
  {
    exists i: nat :: AddedAt(acts, c, i, j)
  }

  /** A removal takes out the reader named, and nobody else. */
  lemma {:induction false} RemovedExactly(readers: seq<ChannelReader>, id: nat, d: ChannelReader)
    requires InOrderOfAddition(readers)
    ensures d in Erase(readers, id) <==> d in readers && d.id != id
  {
    if readers != [] {
      var rest := readers[1..];
      RemovedExactly(rest, id, d);
      assert readers == [readers[0]] + rest;
      assert forall k :: 0 <= k < |rest| ==> readers[0].id < rest[k].id;
      hide InOrderOfAddition;
    }
  }

  lemma ListedNext(acts: seq<Action>, c: ChannelReader, j: nat)
    requires j < |acts|
    ensures Listed(acts, c, j + 1) <==> acts[j] == Add(c) || (Listed(acts, c, j) && acts[j] != Remove(c.id))
  {
    if acts[j] == Add(c) { assert AddedAt(acts, c, j, j + 1); }
    if Listed(acts, c, j) && acts[j] != Remove(c.id) {
      var i: nat :| AddedAt(acts, c, i, j);
      assert AddedAt(acts, c, i, j + 1);
    }
    if Listed(acts, c, j + 1) {
      var i: nat :| AddedAt(acts, c, i, j + 1);
      assert i < j ==> AddedAt(acts, c, i, j);
    }
  }

  lemma StepLists(st: Station, a: Action, c: ChannelReader)
    requires Orderly(st) && Enabled(st, a)
    ensures c in Apply(st, a).readers <==> a == Add(c) || (c in st.readers && a != Remove(c.id))
  {
    if a.Remove? { RemovedExactly(st.readers, a.id, c); }
    hide Erase, Orderly, WriteEntries, BytesToWrite, IsTopicMessage, ServedBy;
  }

  /** Over every run a channel reader is in the list from its addition until its own
      removal, whatever others are added or removed meanwhile, and not otherwise. */
  lemma {:induction false} ListedExactly(sts: seq<Station>, acts: seq<Action>, j: nat, c: ChannelReader)
    requires Follows(sts, acts) && Init(sts[0]) && j < |sts|
    ensures c in sts[j].readers <==> Listed(acts, c, j)
  {
    if j > 0 {
      ListedExactly(sts, acts, j - 1, c);
      InOrderOnce(sts, acts, j - 1);
      hide Orderly, Apply, Listed, Init;
      StepLists(sts[j - 1], acts[j - 1], c);
      ListedNext(acts, c, j - 1);
    }
  }

  // ----- What is scheduled -----

  /** The lists passes were scheduled with: one per notification that finds a channel
      reader. */
  function Scheduled(sts: seq<Station>, acts: seq<Action>, i: nat): seq<seq<ChannelReader>>
    requires Follows(sts, acts) && i <= |acts|
  {
    if i == 0 then []
    else
      Scheduled(sts, acts, i - 1)
      + (if acts[i - 1].Notify? && sts[i - 1].readers != [] then [sts[i - 1].readers] else [])
  }

  function PassesRun(acts: seq<Action>, i: nat): nat
    requires i <= |acts|
  {
    if i == 0 then 0 else PassesRun(acts, i - 1) + (if acts[i - 1].Pass? then 1 else 0)
  }

  lemma StepSchedules(st: Station, a: Action)
    requires Shape(st) && Enabled(st, a)
    ensures Apply(st, a).passes
         == if a.Pass? then st.passes[1..] else st.passes + (if a.Notify? && st.readers != [] then [st.readers] else [])
  {
    hide Erase, WriteEntries, BytesToWrite, IsTopicMessage, ServedBy;
  }

  /** Passes still to run are those scheduled, in order, without those that have run. */
  lemma {:induction false} PassesAreScheduled(sts: seq<Station>, acts: seq<Action>, i: nat)
    requires Follows(sts, acts) && Init(sts[0]) && i < |sts|
    ensures PassesRun(acts, i) <= |Scheduled(sts, acts, i)|
    ensures sts[i].passes == Scheduled(sts, acts, i)[PassesRun(acts, i)..]
  {
    if i > 0 {
      PassesAreScheduled(sts, acts, i - 1);
      hide Apply;
      StepSchedules(sts[i - 1], acts[i - 1]);
    }
  }

  /** No pass is ever scheduled for an empty list. */
  lemma {:induction false} NoEmptyPass(sts: seq<Station>, acts: seq<Action>, i: nat)
    requires Follows(sts, acts) && Init(sts[0]) && i < |sts|
    ensures [] !in sts[i].passes
  {
    if i > 0 {
      NoEmptyPass(sts, acts, i - 1);
      hide Apply;
      StepSchedules(sts[i - 1], acts[i - 1]);
    }
  }

  lemma {:induction false} NobodyBefore(sts: seq<Station>, acts: seq<Action>, i: nat)
    requires Follows(sts, acts) && Init(sts[0]) && i < |sts|
    requires forall k :: 0 <= k < i ==> !acts[k].Add?
    ensures sts[i].readers == [] && sts[i].passes == []
  {
    if i > 0 {
      NobodyBefore(sts, acts, i - 1);
      hide WriteEntries, BytesToWrite, IsTopicMessage, ServedBy;
    }
  }

  /** However many notifications came before it, the first channel reader ever added is
      called for every message it accepts among those logged since and read past. */
  lemma FirstMissesNothing(sts: seq<Station>, acts: seq<Action>, i: nat, c: ChannelReader, t: Station, k: nat)
    requires Follows(sts, acts) && Init(sts[0]) && i < |sts| && Enabled(sts[i], Add(c))
    requires forall k :: 0 <= k < i ==> !acts[k].Add?
    requires Can(Apply(sts[i], Add(c)), t) && c in t.readers
    requires |sts[i].log| <= k < t.at <= |t.log| && AcceptsRecord(c, t.log[k])
    ensures Calls(t.served, c.id, k)
  {
    NobodyBefore(sts, acts, i);
    NumberedOverRun(sts, acts, i);
    hide Follows, Init, AcceptsRecord, Calls, Can, Apply, Numbered;
    NothingMissed(sts[i], c, t, k);
  }

  // ----- Where every message is -----

  /** The messages the first `i` steps created, each with its number. */
  function Created(acts: seq<Action>, i: nat): seq<Queued>
    requires i <= |acts|
  {
    if i == 0 then []
    else
      var before := Created(acts, i - 1);
      if acts[i - 1].Create? then before + [Queued(acts[i - 1].message, |before|)] else before
  }

  /** The messages of a log, each with the number it was created under. */
  function Logs(log: Log, births: seq<nat>): seq<Queued>
    requires |births| == |log|
  {
    if log == [] then []
    else
      var n := |log| - 1;
      Logs(log[..n], births[..n]) + (if log[n].rec.Msg? then [Queued(log[n].rec.payload, births[n])] else [])
  }

  lemma LogsNext(log: Log, births: seq<nat>, e: Entry, born: nat)
    requires |births| == |log|
    ensures Logs(log + [e], births + [born])
         == Logs(log, births) + (if e.rec.Msg? then [Queued(e.rec.payload, born)] else [])
  {
    assert (log + [e])[..|log|] == log && (births + [born])[..|births|] == births;
  }

  lemma LogsWrite(log: Log, births: seq<nat>, q: Queued, freePos: nat, cap: nat)
    requires |births| == |log| && cap > 0 && HEADER_SIZE + |q.message| <= cap
    ensures var es := WriteEntries(q.message, freePos, cap);
            Logs(log + es, births + Repeat(q.born, |es|)) == Logs(log, births) + [q]
  {
    var es := WriteEntries(q.message, freePos, cap);
    hide Logs;
    if |es| == 1 {
      assert es == [es[0]] && Repeat(q.born, 1) == [q.born];
      LogsNext(log, births, es[0], q.born);
    } else {
      assert es == [es[0]] + [es[1]] && Repeat(q.born, 2) == [q.born] + [q.born];
      LogsNext(log, births, es[0], q.born);
      LogsNext(log + [es[0]], births + [q.born], es[1], q.born);
      assert log + es == (log + [es[0]]) + [es[1]];
      assert births + Repeat(q.born, 2) == (births + [q.born]) + [q.born];
    }
  }

  lemma TakenOut(queue: seq<Queued>, k: nat)
    requires k < |queue|
    ensures multiset(queue) == multiset(queue[..k] + queue[k + 1..]) + multiset([queue[k]])
  {
    assert queue == queue[..k] + [queue[k]] + queue[k + 1..];
  }

  lemma StepConserves(st: Station, a: Action)
    requires Shape(st) && Enabled(st, a)
    ensures var st' := Apply(st, a);
            multiset(Logs(st'.log, st'.births)) + multiset(st'.queue)
            == multiset(Logs(st.log, st.births)) + multiset(st.queue)
               + (if a.Create? then multiset([Queued(a.message, st.clock)]) else multiset{})
    ensures Apply(st, a).clock == st.clock + (if a.Create? then 1 else 0)
  {
    if a.Write? {
      LogsWrite(st.log, st.births, st.queue[a.k], st.freePos, st.cap);
      TakenOut(st.queue, a.k);
      hide Logs, WriteEntries, BytesToWrite;
    } else {
      hide Logs, Erase, ServedBy, StopAt;
      assert Apply(st, a).log == st.log && Apply(st, a).births == st.births;
    }
  }

  /** Nothing is lost or doubled on the way: over every run each message created is
      either still queued or in the log, once, under its number. */
  lemma {:induction false} LoggedOrQueued(sts: seq<Station>, acts: seq<Action>, i: nat)
    requires Follows(sts, acts) && Init(sts[0]) && i < |sts|
    ensures sts[i].clock == |Created(acts, i)|
    ensures multiset(Logs(sts[i].log, sts[i].births)) + multiset(sts[i].queue) == multiset(Created(acts, i))
  {
    if i > 0 {
      LoggedOrQueued(sts, acts, i - 1);
      hide Apply, Logs;
      StepConserves(sts[i - 1], acts[i - 1]);
    }
  }

  // ----- What the history fields stand for -----

  /** Record `k` was logged at step `j`. */
  predicate LoggedAt(sts: seq<Station>, k: nat, j: nat)
    requires j + 1 < |sts|
  {
    |sts[j].log| <= k < |sts[j + 1].log|
  }

  lemma StepGaps(st: Station, a: Action)
    requires Shape(st) && Enabled(st, a)
    ensures st.log <= Apply(st, a).log
    ensures forall k :: k in Apply(st, a).gaps
              <==> k in st.gaps || (st.readers == [] && |st.log| <= k < |Apply(st, a).log|)
  {
    hide Erase, WriteEntries, BytesToWrite, ServedBy, IsTopicMessage;
  }

  /** The gaps are exactly the records logged while there was no channel reader. */
  lemma {:induction false} GapsExactly(sts: seq<Station>, acts: seq<Action>, i: nat, k: nat)
    requires Follows(sts, acts) && Init(sts[0]) && i < |sts|
    ensures k in sts[i].gaps <==> exists j :: 0 <= j < i && LoggedAt(sts, k, j) && sts[j].readers == []
  {
    if i > 0 {
      GapsExactly(sts, acts, i - 1, k);
      hide Apply;
      StepGaps(sts[i - 1], acts[i - 1]);
      assert LoggedAt(sts, k, i - 1) <==> |sts[i - 1].log| <= k < |sts[i].log|;
    }
  }

  /** `start` and `earlier` are the lengths of log and calls when the list was last empty
      and somebody was added. */
  lemma {:induction false} SinceOpening(sts: seq<Station>, acts: seq<Action>, i: nat, j: nat)
    requires Follows(sts, acts) && i < j < |sts| && acts[i].Add? && sts[i].readers == []
    requires forall k :: i < k < j ==> sts[k].readers != []
    ensures sts[j].start == |sts[i].log| && sts[j].earlier == |sts[i].served|
    decreases j
  {
    if i + 1 < j { SinceOpening(sts, acts, i, j - 1); }
    hide Erase, WriteEntries, BytesToWrite, ServedBy, IsTopicMessage;
  }
}
