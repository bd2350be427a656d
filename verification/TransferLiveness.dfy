/** A transfer in which nothing is cancelled, closed or refused always reaches KEPT. */
module TransferLiveness {
  import opened Bytes
  import opened Frames
  import opened Transfer
  import opened TransferSystem
  import opened TransferSafety

  /** The steps of two ends at work: nobody cancels, no channel closes, the sink and the encoder do their part. */
  predicate IsProgress(step: Step) {
    match step
    case LoadFails => false
    case FinishJob(outcome) => outcome == Done
    case AbortSink => false
    case SenderCancel => false
    case ReceiverCancel => false
    case SenderChannelCloses => false
    case ReceiverChannelCloses => false
    case SenderHearsClose => false
    case ReceiverHearsClose => false
    case _ => true
  }

  predicate Undisturbed(x: System) {
    x.s.failure.None? && x.r.failure.None? && x.s.open && x.r.open
  }

  /** The last acknowledgement is on its way if the sender has not heard it. */
  ghost predicate AckOnTheWay(x: System) {
    !x.s.kept && x.s.acknowledged < x.r.lastAck ==> exists i :: x.toSender <= i < |x.r.log| && x.r.log[i] == Ack(x.r.lastAck)
  }

  ghost predicate KeptOnTheWay(x: System) {
    x.r.done && !x.s.kept ==> exists i :: x.toSender <= i < |x.r.log| && x.r.log[i].Kept?
  }

  ghost predicate EndInLog(x: System) {
    x.s.ended ==> |x.s.log| > 0 && x.s.log[|x.s.log| - 1].End?
  }

  ghost predicate Live(x: System) {
    && Undisturbed(x) && AckOnTheWay(x) && KeptOnTheWay(x) && EndInLog(x)
    && (x.r.endSeen && x.r.finished == |x.r.jobs| ==> x.r.done)
  }

  /** Work left: for each byte to send, each frame to drain, deliver, write and acknowledge. */
  function Measure(c: Config, x: System): int {
    8 * (|c.envelope| - x.s.sent) + (|c.envelope| - x.s.loaded) + (if x.s.ended then 0 else 8)
    + (|x.s.log| - x.s.drained) + (|x.s.log| - x.toReceiver)
    + 3 * (|x.s.log| - x.r.finished) - (if x.r.running then 1 else 0)
    + (|x.r.log| - x.toSender)
  }

  lemma MeasureBounded(c: Config, x: System)
    requires Inv(c, x)
    ensures Measure(c, x) >= 0
  {
    hide SenderLog, BufferBound, ReceiverJobs, SinkHolds, Trust, Buffered, Position;
  }

  lemma NotStop(c: Config, x: System)
    requires Inv(c, x) && Undisturbed(x)
    ensures forall i :: 0 <= i < |x.s.log| ==> x.s.log[i].Data? || x.s.log[i].End?
    ensures forall i :: 0 <= i < |x.r.log| ==> x.r.log[i].Ack? || x.r.log[i].Kept?
  {
    forall i | 0 <= i < |x.s.log|
      ensures x.s.log[i].Data? || x.s.log[i].End?
    {
      assert SenderFrame(c, x.s, i);
    }
    forall i | 0 <= i < |x.r.log|
      ensures x.r.log[i].Ack? || x.r.log[i].Kept?
    {
      assert ReceiverFrame(x.s, x.r, i);
    }
  }

  lemma SenderProgress(c: Config, x: System, step: Step)
    requires ValidConfig(c) && Inv(c, x) && Live(x) && Enabled(c, x, step)
    requires step.Load? || step.SendData? || step.SendEnd? || step.Drain?
    ensures Live(Apply(c, x, step)) && Measure(c, Apply(c, x, step)) < Measure(c, x)
  {
    hide SenderLog, BufferBound, ReceiverJobs, SinkHolds, Trust, Position, Buffered, ReceiverLog;
  }

  lemma ReceiverProgress(c: Config, x: System)
    requires ValidConfig(c) && Inv(c, x) && Live(x) && x.toReceiver < x.s.drained
    ensures Live(Apply(c, x, DeliverToReceiver)) && Measure(c, Apply(c, x, DeliverToReceiver)) < Measure(c, x)
  {
    NotStop(c, x);
    DeliverToReceiverKeeps(c, x);
    hide SenderLog, BufferBound, ReceiverJobs, SinkHolds, Trust, Position, Buffered, ReceiverLog, ReceiverCounts, SenderCounts;
  }

  lemma JobProgress(c: Config, x: System)
    requires ValidConfig(c) && Inv(c, x) && Live(x) && x.r.running
    ensures Live(Apply(c, x, FinishJob(Done))) && Measure(c, Apply(c, x, FinishJob(Done))) < Measure(c, x)
  {
    var r := ReceiverFinishes(c, x.r, Done);
    assert r.log == x.r.log || (|r.log| == |x.r.log| + 1 && r.log[..|x.r.log|] == x.r.log);
    hide SenderLog, BufferBound, ReceiverJobs, SinkHolds, Trust, Position, Buffered;
    if r.log == x.r.log {
      assert r.lastAck == x.r.lastAck && r.done == x.r.done;
    } else if r.done {
      assert r.log[|x.r.log|].Kept?;
      AckStays(x, r);
    } else {
      assert r.log[|x.r.log|] == Ack(r.lastAck);
    }
  }

  lemma AckStays(x: System, r: ReceiverState)
    requires AckOnTheWay(x) && x.r.log <= r.log && r.lastAck == x.r.lastAck
    ensures AckOnTheWay(x.(r := r))
  {
    if !x.s.kept && x.s.acknowledged < x.r.lastAck {
      var i :| x.toSender <= i < |x.r.log| && x.r.log[i] == Ack(x.r.lastAck);
      assert r.log[i] == Ack(r.lastAck);
    }
  }

  lemma ReadProgress(c: Config, x: System)
    requires ValidConfig(c) && Inv(c, x) && Live(x) && x.toSender < |x.r.log|
    ensures Live(Apply(c, x, DeliverToSender)) && Measure(c, Apply(c, x, DeliverToSender)) < Measure(c, x)
  {
    NotStop(c, x);
    DeliverToSenderKeeps(c, x);
    if x.r.log[x.toSender].Ack? {
      AckArrives(c, x);
    }
    hide SenderLog, BufferBound, ReceiverJobs, SinkHolds, Trust, Position, Buffered, ReceiverCounts, SenderCounts;
  }

  /** Each progress step keeps the transfer live and leaves less to do. */
  lemma ProgressDecreases(c: Config, x: System, step: Step)
    requires ValidConfig(c) && Inv(c, x) && Live(x) && Enabled(c, x, step) && IsProgress(step)
    ensures Live(Apply(c, x, step)) && Measure(c, Apply(c, x, step)) < Measure(c, x)
  {
    match step
    case DeliverToReceiver => ReceiverProgress(c, x);
    case FinishJob(_) => JobProgress(c, x);
    case DeliverToSender => ReadProgress(c, x);
    case StartJob =>
    case _ => SenderProgress(c, x, step);
  }

  // ---------------------------------------------------------------- no deadlock

  /** With nothing left in the sender's buffer, every frame delivered and every job done, all that was sent is written. */
  lemma AllWritten(c: Config, x: System)
    requires Inv(c, x) && Live(x) && x.r.finished == |x.r.jobs| && x.toReceiver == |x.s.log| && !x.r.running
    ensures !x.r.done ==> x.r.written == x.s.sent && !x.s.ended
  {
    if |x.r.jobs| > 0 {
      var last := |x.r.jobs| - 1;
      assert x.r.jobs[last] == JobOf(x.s.log[last]);
    }
  }

  /** The protocol's own pacing: as much as one frame, what is loaded and the window allow. */
  function FullTake(c: Config, s: SenderState): int {
    Min(Allowance(s), Min(FrameSizeOf(c) - DATA_HEADER_BYTES, Min(s.loaded - s.sent, |c.envelope| - s.sent)))
  }

  /** Until KEPT is heard, some progress step can be taken; what it sends is what the protocol's own pacing sends. */
  lemma NoDeadlock(c: Config, x: System) returns (step: Step)
    requires ValidConfig(c) && Inv(c, x) && Live(x) && !x.s.kept
    ensures Enabled(c, x, step) && IsProgress(step)
    ensures step.SendData? ==> step.take == FullTake(c, x.s)
  {
    if x.s.drained < |x.s.log| {
      return Drain;
    }
    if x.toReceiver < x.s.drained {
      return DeliverToReceiver;
    }
    if x.r.running {
      return FinishJob(Done);
    }
    if x.r.finished < |x.r.jobs| {
      return StartJob;
    }
    if x.toSender < |x.r.log| {
      return DeliverToSender;
    }
    AllWritten(c, x);
    assert Buffered(x.s.log, x.s.drained) == 0;
    hide SenderLog, ReceiverJobs, ReceiverLog, SinkHolds, Trust, Buffered;
    if x.s.sent == |c.envelope| {
      return SendEnd;
    }
    if x.s.sent == x.s.loaded {
      return Load(|c.envelope|);
    }
    return SendData(FullTake(c, x.s));
  }

  /** A transfer in progress reaches KEPT, whichever of the possible steps are taken. */
  lemma StuckMeansKept(c: Config, x: System)
    requires ValidConfig(c) && Inv(c, x) && Live(x)
    requires forall step :: IsProgress(step) ==> !Enabled(c, x, step)
    ensures x.s.kept && FileKept(c, x.r, x.sink)
  {
    if !x.s.kept {
      var step := NoDeadlock(c, x);
    }
  }

  lemma StartsLive(c: Config)
    requires ValidConfig(c) && FrameSizeOf(c) >= MIN_FRAME_BYTES
    ensures Live(Start(c, true, true)) && Measure(c, Start(c, true, true)) <= 9 * |c.envelope| + 8
  {
  }

  lemma {:induction false} StaysLive(c: Config, states: seq<System>, steps: seq<Step>, i: nat)
    requires ValidConfig(c) && FrameSizeOf(c) >= MIN_FRAME_BYTES && IsRun(c, states, steps) && i < |states|
    requires states[0] == Start(c, true, true) && forall j :: 0 <= j < |steps| ==> IsProgress(steps[j])
    ensures Live(states[i]) && Measure(c, states[i]) + i <= 9 * |c.envelope| + 8
  {
    if i == 0 {
      StartsLive(c);
    } else {
      hide *;
      StaysLive(c, states, steps, i - 1);
      RunKeeps(c, states, steps, i - 1);
      RunStep(c, states, steps, i - 1);
      ProgressDecreases(c, states[i - 1], steps[i - 1]);
    }
  }

  /**
   The transfer cannot deadlock or run for ever: started on open channels that carry large enough frames, a run of
   progress steps has at most `9 * total + 8` of them, and one that cannot be continued has ended with the file kept.
   */
  lemma ReachesKept(c: Config, states: seq<System>, steps: seq<Step>)
    requires ValidConfig(c) && FrameSizeOf(c) >= MIN_FRAME_BYTES && IsRun(c, states, steps)
    requires states[0] == Start(c, true, true) && forall j :: 0 <= j < |steps| ==> IsProgress(steps[j])
    ensures |steps| <= 9 * |c.envelope| + 8
    ensures (forall step :: IsProgress(step) ==> !Enabled(c, states[|steps|], step)) ==>
              states[|steps|].s.kept && FileKept(c, states[|steps|].r, states[|steps|].sink)
  {
    StaysLive(c, states, steps, |steps|);
    RunKeeps(c, states, steps, |steps|);
    hide *;
    MeasureBounded(c, states[|steps|]);
    if forall step :: IsProgress(step) ==> !Enabled(c, states[|steps|], step) {
      StuckMeansKept(c, states[|steps|]);
    }
  }
}
