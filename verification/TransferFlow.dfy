/** How a transfer is kept flowing: when the receiver acknowledges, and when the sender pauses and goes on. */
module TransferFlow {
  import opened Frames
  import opened Transfer
  import opened TransferSystem
  import opened TransferSafety

  // ---------------------------------------------------------------- acknowledgements

  /** Less than a mebibyte is ever written and not acknowledged, and nothing of a whole envelope. */
  predicate AckedEnough(c: Config, r: ReceiverState) {
    && r.lastAck <= r.written < r.lastAck + 1_048_576
    && (r.written == |c.envelope| ==> r.lastAck == r.written)
  }

  /** No more often than each mebibyte, but for the whole. */
  ghost predicate AckedSeldom(c: Config, r: ReceiverState) {
    && (forall i :: 0 <= i < |r.log| && r.log[i].Ack? ==> r.log[i].next <= r.lastAck)
    && (forall i, j :: 0 <= i < j < |r.log| && r.log[i].Ack? && r.log[j].Ack? ==>
          r.log[j].next >= r.log[i].next + 1_048_576 || r.log[j].next == |c.envelope|)
    && (forall i :: 0 <= i < |r.log| && r.log[i].Ack? ==> r.log[i].next >= 1_048_576 || r.log[i].next == |c.envelope|)
  }

  ghost predicate AcksPaced(c: Config, r: ReceiverState) {
    AckedEnough(c, r) && AckedSeldom(c, r)
  }

  /** Another frame that is not an acknowledgement changes nothing. */
  lemma OtherFrame(c: Config, r: ReceiverState, r': ReceiverState)
    requires AcksPaced(c, r) && r'.written == r.written && r'.lastAck == r.lastAck
    requires r'.log == r.log || (|r'.log| == |r.log| + 1 && r'.log[..|r.log|] == r.log && !r'.log[|r.log|].Ack?)
    ensures AcksPaced(c, r')
  {
    assert forall i :: 0 <= i < |r.log| ==> r'.log[i] == r.log[i];
  }

  lemma WriteAcks(c: Config, r: ReceiverState)
    requires AcksPaced(c, r) && r.running && r.finished < |r.jobs| && r.jobs[r.finished].Write?
    requires r.written + |r.jobs[r.finished].bytes| <= |c.envelope|
    ensures AcksPaced(c, ReceiverFinishes(c, r, Done))
  {
    var r' := ReceiverFinishes(c, r, Done);
    if r'.log == r.log {
    } else if r'.log[|r.log|].Ack? {
      assert r'.log[..|r.log|] == r.log && forall i :: 0 <= i < |r.log| ==> r'.log[i] == r.log[i];
    }
  }

  lemma JobAcks(c: Config, x: System, outcome: Outcome)
    requires Inv(c, x) && AcksPaced(c, x.r) && x.r.running
    ensures AcksPaced(c, ReceiverFinishes(c, x.r, outcome))
  {
    JobDone(c, x);
    JobInQueue(c, x);
    hide Inv, AcksPaced;
    if outcome == Done && x.r.jobs[x.r.finished].Write? {
      WritesWithin(c, x);
      WriteAcks(c, x.r);
    } else {
      OtherFrame(c, x.r, ReceiverFinishes(c, x.r, outcome));
    }
  }

  lemma JobInQueue(c: Config, x: System)
    requires Inv(c, x) && x.r.running
    ensures x.r.finished < |x.r.jobs|
  {
    hide SenderLog, ReceiverJobs, ReceiverLog, SinkHolds, Trust, BufferBound, Position, Buffered;
  }

  lemma WritesWithin(c: Config, x: System)
    requires Inv(c, x) && x.r.running && x.r.finished < |x.r.jobs| && x.r.jobs[x.r.finished].Write?
    ensures x.r.written + |x.r.jobs[x.r.finished].bytes| <= |c.envelope|
  {
    JobDone(c, x);
    hide SenderLog, ReceiverLog, SinkHolds, Trust, BufferBound, Buffered;
  }

  lemma FrameAcks(c: Config, r: ReceiverState, f: Frame)
    requires AcksPaced(c, r)
    ensures AcksPaced(c, ReceiverOnFrame(c, r, f))
  {
    hide AcksPaced;
    OtherFrame(c, r, ReceiverOnFrame(c, r, f));
  }

  lemma AcksStep(c: Config, x: System, step: Step)
    requires Inv(c, x) && AcksPaced(c, x.r) && Enabled(c, x, step)
    ensures AcksPaced(c, Apply(c, x, step).r)
  {
    hide Inv, AcksPaced, ReceiverFinishes, ReceiverOnFrame, Buffered;
    match step
    case FinishJob(outcome) => JobAcks(c, x, outcome);
    case DeliverToReceiver => FrameAcks(c, x.r, x.s.log[x.toReceiver]);
    case _ => OtherFrame(c, x.r, Apply(c, x, step).r);
  }

  // ---------------------------------------------------------------- pausing

  /** A paused sender has more than 256 KiB in its buffer; one that is still sending and not paused at most 1 MiB. */
  predicate PausedRightly(s: SenderState) {
    && (s.paused ==> Buffered(s.log, s.drained) > 262_144)
    && (s.failure.None? && !s.ended && !s.paused ==> Buffered(s.log, s.drained) <= 1_048_576)
  }

  /** It pauses only over the higher mark, and goes on only at the lower. */
  predicate Hysteresis(s: SenderState, s': SenderState) {
    && (!s.paused && s'.paused ==> Buffered(s'.log, s'.drained) > 1_048_576)
    && (s.paused && !s'.paused ==> Buffered(s'.log, s'.drained) <= 262_144)
  }

  lemma DataPauses(c: Config, s: SenderState, take: nat)
    requires PausedRightly(s) && CanSend(c, s, take) && s.drained <= |s.log|
    ensures PausedRightly(SenderSends(c, s, take)) && Hysteresis(s, SenderSends(c, s, take))
  {
    BufferedPush(s.log, Data(s.sent, c.envelope[s.sent..s.sent + take]), s.drained);
    hide Buffered;
  }

  /** Nothing but frames are added, and the pause stays. */
  lemma PushPauses(s: SenderState, s': SenderState)
    requires PausedRightly(s) && s'.paused == s.paused && s'.drained == s.drained <= |s.log|
    requires (s.failure.Some? ==> s'.failure.Some?) && (s.ended ==> s'.ended)
    requires s'.log == s.log
          || (|s'.log| == |s.log| + 1 && s'.log == s.log + [s'.log[|s.log|]] && (s'.failure.Some? || s'.ended))
    ensures PausedRightly(s') && Hysteresis(s, s')
  {
    if s'.log != s.log {
      BufferedPush(s.log, s'.log[|s.log|], s.drained);
    }
    hide Buffered;
  }

  lemma DrainPauses(s: SenderState)
    requires PausedRightly(s) && s.drained < |s.log|
    ensures PausedRightly(SenderDrains(s)) && Hysteresis(s, SenderDrains(s))
  {
    BufferShrinks(s);
    hide Buffered;
  }

  lemma BufferShrinks(s: SenderState)
    requires s.drained < |s.log|
    ensures Buffered(s.log, s.drained + 1) <= Buffered(s.log, s.drained)
  {
  }

  lemma PauseStep(c: Config, x: System, step: Step)
    requires Inv(c, x) && PausedRightly(x.s) && Enabled(c, x, step)
    ensures PausedRightly(Apply(c, x, step).s) && Hysteresis(x.s, Apply(c, x, step).s)
  {
    hide Inv, PausedRightly, Hysteresis, SenderSends, SenderDrains;
    DrainedInLog(c, x);
    match step
    case SendData(take) => DataPauses(c, x.s, take);
    case Drain => DrainPauses(x.s);
    case _ => PushPauses(x.s, Apply(c, x, step).s);
  }

  lemma DrainedInLog(c: Config, x: System)
    requires Inv(c, x)
    ensures x.s.drained <= |x.s.log|
  {
    hide SenderLog, ReceiverJobs, ReceiverLog, SinkHolds, Trust, BufferBound, Position, Buffered;
  }

  // ---------------------------------------------------------------- every run

  lemma StartFlows(c: Config, x: System, a: bool, b: bool)
    requires ValidConfig(c) && x == Start(c, a, b)
    ensures AcksPaced(c, x.r) && PausedRightly(x.s)
  {
  }

  lemma RunStartFlows(c: Config, states: seq<System>, steps: seq<Step>)
    requires ValidConfig(c) && IsRun(c, states, steps)
    ensures |states| > 0 && AcksPaced(c, states[0].r) && PausedRightly(states[0].s)
  {
    hide Start, Enabled, Apply, AcksPaced, PausedRightly;
    var a, b :| states[0] == Start(c, a, b);
    StartFlows(c, states[0], a, b);
  }

  /**
   In every state of every run: of what is written less than a mebibyte is unacknowledged, and the whole is acknowledged;
   acknowledgements are a mebibyte apart but for the last; and the sender is paused between the two marks as it should be.
   */
  lemma {:induction false} Flows(c: Config, states: seq<System>, steps: seq<Step>, i: nat)
    requires ValidConfig(c) && IsRun(c, states, steps) && i < |states|
    ensures AcksPaced(c, states[i].r) && PausedRightly(states[i].s)
    ensures i > 0 ==> Hysteresis(states[i - 1].s, states[i].s)
  {
    hide *;
    RunLength(c, states, steps);
    if i == 0 {
      RunStartFlows(c, states, steps);
    } else {
      Flows(c, states, steps, i - 1);
      RunKeeps(c, states, steps, i - 1);
      RunStep(c, states, steps, i - 1);
      AcksStep(c, states[i - 1], steps[i - 1]);
      PauseStep(c, states[i - 1], steps[i - 1]);
    }
  }
}
