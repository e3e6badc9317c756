/** What a reader that no longer moves does to writers that honour backpressure: one that
    died with its slot active, and one that stands at a record it cannot read. */
module Stalls {
  import opened Records
  import opened Protocol
  import opened ProtocolInvariants
  import opened ProtocolRuns
  import opened ProtocolBackpressure
  import opened Reachability
  import opened TimelyEntry

  // ----- A silent reader -----

  /** From here on the stream end stays less than a lap ahead of what a reader published
      that takes no step any more, however long the run. */
  lemma SilentReaderHolds(s: State, t: State, r: nat)
    requires RingInv(s) && r < |s.readers| && Protected(s, r) && s.readers[r].active && Leads(s, t, Around(r))
    ensures t.cap == s.cap && s.freePos < s.readers[r].bpos + s.cap && t.freePos < s.readers[r].bpos + t.cap
    ensures r < |t.readers| && t.readers[r] == s.readers[r]
  {
    var states, acts :| IsPath(states, acts, Around(r)) && states[0] == s && states[|acts|] == t;
    StaysProtected(states, acts, r, |acts|);
    hide RingInv, IsPath;
  }

  /** A writer that comes to the slot of a silent reader is blocked there, each time it
      looks, iff its write would reach a lap past the published position. */
  lemma SilentReaderBlocksExactly(s: State, t: State, r: nat)
    requires RingInv(s) && r < |s.readers| && Protected(s, r) && s.readers[r].active && Leads(s, t, Around(r))
    requires Shape(t) && t.writer.Scanning? && t.writer.slot == r
    ensures Enabled(t, Inspect)
    ensures Apply(t, Inspect).writer.Blocked?
       <==> t.freePos + BytesToWrite(t.writer.data, t.freePos, t.cap) >= s.readers[r].bpos + s.cap
  {
    SilentReaderHolds(s, t, r);
    assert Protected(s, r);
    hide RingInv, BytesToWrite, Leads;
  }

  // ----- A reader that cannot read on -----

  lemma {:induction false} OnlyForward(states: seq<State>, acts: seq<Action>, i: nat, j: nat, r: nat)
    requires IsRun(states, acts) && i <= j < |states| && r < |states[i].readers|
    requires forall k :: i <= k < j ==> acts[k] != LoadPosition(r)
    ensures r < |states[j].readers| && states[j].cap == states[i].cap
    ensures states[j].readers[r].first == states[i].readers[r].first
    ensures states[j].readers[r].at >= states[i].readers[r].at
    decreases j
  {
    if i < j {
      OnlyForward(states, acts, i, j - 1, r);
      StepForward(states[j - 1], acts[j - 1], r);
    }
  }

  lemma StepForward(s: State, a: Action, r: nat)
    requires Shape(s) && Enabled(s, a) && r < |s.readers| && a != LoadPosition(r)
    ensures r < |Apply(s, a).readers| && Apply(s, a).cap == s.cap
    ensures Apply(s, a).readers[r].first == s.readers[r].first && Apply(s, a).readers[r].at >= s.readers[r].at
  {
    hide DecodeHeader;
  }

  /** A reader at an unreadable record stays there until it activates anew: every later
      read ends where the first one did. */
  lemma NeverPast(states: seq<State>, acts: seq<Action>, i: nat, j: nat, r: nat)
    requires CleanRun(states, acts) && i <= j < |states| && r < |states[i].readers|
    requires forall k :: i <= k < j ==> acts[k] != LoadPosition(r)
    requires var rd := states[i].readers[r]; rd.at < |states[i].log| && Unreadable(states[i].log[rd.at].rec)
    ensures r < |states[j].readers|
    ensures states[j].readers[r].at == states[i].readers[r].at && states[j].readers[r].pos == states[i].readers[r].pos
  {
    OnlyForward(states, acts, i, j, r);
    LogAppendOnly(states, acts, i, j);
    ReadersOverRun(states, acts, i);
    ReadersOverRun(states, acts, j);
    hide RingInv, CleanRun;
    StandsStill(states[i].readers[r], states[i].log, states[i].freePos,
                states[j].readers[r], states[j].log, states[j].freePos) by {
      assert ReaderInv(states[i].readers[r], states[i].log, states[i].freePos, states[i].dirty, states[i].cap);
      assert ReaderInv(states[j].readers[r], states[j].log, states[j].freePos, states[j].dirty, states[j].cap);
    }
  }

  lemma StandsStill(rd: Reader, log: Log, freePos: nat, rd': Reader, log': Log, freePos': nat)
    requires Placed(rd, log, freePos) && Placed(rd', log', freePos') && log <= log'
    requires rd'.first == rd.first && rd'.at >= rd.at && rd.at < |log| && Unreadable(log[rd.at].rec)
    ensures rd'.at == rd.at && rd'.pos == rd.pos
  {
    assert log'[rd.at] == log[rd.at];
    hide Tally, Messages, Unreadable;
  }

  /** So in an honoured run, until that reader gives up its slot, the stream end never
      gets a lap past the unreadable record: writers that need more wait for ever. */
  lemma UnreadableStopsWriters(states: seq<State>, acts: seq<Action>, i: nat, j: nat, r: nat)
    requires HonouredRun(states, acts) && i <= j < |states| && r < |states[i].readers|
    requires forall k :: i <= k < j ==> acts[k] != LoadPosition(r)
    requires var rd := states[i].readers[r]; rd.at < |states[i].log| && Unreadable(states[i].log[rd.at].rec)
    requires r < |states[j].readers| && states[j].readers[r].active
    ensures states[j].freePos < states[i].readers[r].pos + states[j].cap
  {
    HonouredIsClean(states, acts);
    NeverPast(states, acts, i, j, r);
    NothingLost(states, acts, j, r);
  }
}
