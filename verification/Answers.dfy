/** The copy handler decides: what it accepts is confirmed, what it declines is not. */
module Answers {
  import opened Bytes
  import opened Positions
  import opened Records
  import opened Protocol
  import opened ProtocolInvariants
  import opened ProtocolRuns
  import opened Stalls
  import opened TornReads

  /** What the handler of reader `r` has answered since its activation. */
  function Replies(acts: seq<Action>, r: nat, i: nat): seq<bool>
    requires i <= |acts|
  {
    if i == 0 then []
    else
      match acts[i - 1]
      case LoadPosition(q) => if q == r then [] else Replies(acts, r, i - 1)
      case Answer(q, accept) => if q == r then Replies(acts, r, i - 1) + [accept] else Replies(acts, r, i - 1)
      case _ => Replies(acts, r, i - 1)
  }

  /** A message was accepted and is not confirmed: the check is still to come, or the
      reader has expired there. */
  predicate Unconfirmed(rd: Reader, freePos: nat, cap: nat) {
    || rd.pc.ConfirmCheck?
    || (Expired(rd.pos, freePos, cap) && (rd.pc.Returned? || rd.pc.Head? || rd.pc.EarlyCheck?))
  }

  /** Answer by answer, what became of the messages. */
  predicate Obeyed(outcomes: seq<Outcome>, replies: seq<bool>) {
    && |outcomes| <= |replies| <= |outcomes| + 1
    && (forall k :: 0 <= k < |outcomes| ==> (outcomes[k].Confirmed? <==> replies[k]))
    && (|replies| > |outcomes| ==> replies[|outcomes|])
  }

  predicate Obeying(rd: Reader, freePos: nat, cap: nat, replies: seq<bool>)
    requires cap > 0
  {
    && Obeyed(rd.outcomes, replies)
    && (rd.pc.ConfirmCheck? ==> |replies| > |rd.outcomes|)
    && (InRecord(rd.pc) ==> rd.pos % cap + HEADER_SIZE <= cap)
    && (|replies| > |rd.outcomes| ==> Unconfirmed(rd, freePos, cap) && rd.pos % cap + HEADER_SIZE <= cap)
  }

  lemma StepObeys(rd: Reader, buf: seq<Byte>, freePos: nat, cap: nat, replies: seq<bool>)
    requires cap >= HEADER_SIZE && |buf| == cap && PcShape(rd.pc, cap) && CanStep(rd)
    requires Obeying(rd, freePos, cap, replies)
    ensures Obeying(ReaderStep(rd, buf, freePos, cap), freePos, cap, replies)
  {
    hide DecodeHeader;
  }

  lemma AnswerObeys(rd: Reader, accept: bool, freePos: nat, cap: nat, replies: seq<bool>)
    requires cap > 0 && rd.pc.Copying? && Obeying(rd, freePos, cap, replies)
    ensures Obeying(AnswerCopy(rd, accept, cap), freePos, cap, replies + [accept])
  {
  }

  lemma RunStepObeys(states: seq<State>, acts: seq<Action>, i: nat, r: nat)
    requires IsRun(states, acts) && i < |acts| && r < |states[i].readers|
    requires Obeying(states[i].readers[r], states[i].freePos, states[i].cap, Replies(acts, r, i))
    ensures |states[i + 1].readers| == |states[i].readers| && states[i + 1].cap == states[i].cap
    ensures Obeying(states[i + 1].readers[r], states[i + 1].freePos, states[i].cap, Replies(acts, r, i + 1))
  {
    var s, a, replies := states[i], acts[i], Replies(acts, r, i);
    var s' := Apply(s, a);
    FreePosRises(s, a);
    if OfWriter(a) {
      RingOverRun(states, acts, i);
      WriterStepEffect(s, a);
      hide Apply, Enabled, RingInv;
    } else if a == Step(r) {
      StepObeys(s.readers[r], s.buf, s.freePos, s.cap, replies);
      hide ReaderStep, Obeying;
    } else if a.Answer? && a.r == r {
      AnswerObeys(s.readers[r], a.accept, s.freePos, s.cap, replies);
      hide AnswerCopy, Obeying;
    } else {
      hide ReaderStep, AnswerCopy;
    }
  }

  lemma {:induction false} ObeyingOverRun(states: seq<State>, acts: seq<Action>, i: nat, r: nat)
    requires IsRun(states, acts) && i < |states| && r < |states[i].readers|
    ensures Obeying(states[i].readers[r], states[i].freePos, states[i].cap, Replies(acts, r, i))
  {
    if i > 0 {
      SameReaders(states[i - 1], acts[i - 1]);
      ObeyingOverRun(states, acts, i - 1, r);
      hide Obeying;
      RunStepObeys(states, acts, i - 1, r);
    }
  }

  /** In every run, torn reads and forced writes included: since its activation a reader
      has confirmed or declined one message for each answer of its handler, as answered
      and in that order. Only the last accepted one can be unconfirmed, while it is
      checked, or because the reader has expired. */
  lemma AnswersDecide(states: seq<State>, acts: seq<Action>, i: nat, r: nat)
    requires IsRun(states, acts) && i < |states| && r < |states[i].readers|
    ensures var rd, replies := states[i].readers[r], Replies(acts, r, i);
            && Obeyed(rd.outcomes, replies)
            && (|replies| > |rd.outcomes| ==> Unconfirmed(rd, states[i].freePos, states[i].cap))
  {
    ObeyingOverRun(states, acts, i, r);
    hide IsRun, Unconfirmed;
  }

  lemma {:induction false} OnlyGiven(acts: seq<Action>, r: nat, i: nat, accept: bool)
    requires i <= |acts| && forall k :: 0 <= k < i ==> acts[k] != Answer(r, !accept)
    ensures forall k :: 0 <= k < |Replies(acts, r, i)| ==> Replies(acts, r, i)[k] == accept
  {
    if i > 0 { OnlyGiven(acts, r, i - 1, accept); }
  }

  /** A handler that never declines, as the library's own, has everything confirmed that
      its reader got past; one that never accepts has nothing confirmed. */
  lemma AllOrNothing(states: seq<State>, acts: seq<Action>, i: nat, r: nat, accept: bool)
    requires IsRun(states, acts) && i < |states| && r < |states[i].readers|
    requires forall k :: 0 <= k < i ==> acts[k] != Answer(r, !accept)
    ensures forall k :: 0 <= k < |states[i].readers[r].outcomes| ==>
              (states[i].readers[r].outcomes[k].Confirmed? <==> accept)
  {
    AnswersDecide(states, acts, i, r);
    OnlyGiven(acts, r, i, accept);
    hide IsRun;
  }

  /** Exactly once, with the library's handler: in every state of a clean run, what a
      reader confirmed since its activation is exactly the messages logged between its
      activation and its position, in log order. */
  lemma ConfirmedExactly(states: seq<State>, acts: seq<Action>, i: nat, r: nat)
    requires CleanRun(states, acts) && i < |states| && r < |states[i].readers|
    requires forall k :: 0 <= k < i ==> acts[k] != Answer(r, false)
    ensures var rd, log := states[i].readers[r], states[i].log;
            && rd.first <= rd.at <= |log|
            && |rd.outcomes| == |Messages(log[rd.first..rd.at])|
            && forall k :: 0 <= k < |rd.outcomes| ==> rd.outcomes[k] == Confirmed(Messages(log[rd.first..rd.at])[k])
  {
    ReadersOverRun(states, acts, i);
    AllOrNothing(states, acts, i, r, true);
    var rd := states[i].readers[r];
    assert ReaderInv(rd, states[i].log, states[i].freePos, states[i].dirty, states[i].cap);
    hide CleanRun, Messages;
  }

  /** ... and its activation is where it stands: the stream end at the last time it
      loaded its position. */
  lemma SinceActivation(states: seq<State>, acts: seq<Action>, i: nat, j: nat, r: nat)
    requires IsRun(states, acts) && i < j < |states| && acts[i] == LoadPosition(r)
    requires forall k :: i < k < j ==> acts[k] != LoadPosition(r)
    ensures r < |states[j].readers| && states[j].readers[r].first == |states[i].log|
  {
    assert r < |states[i + 1].readers| && states[i + 1].readers[r].first == |states[i].log|;
    OnlyForward(states, acts, i + 1, j, r);
  }
}
