/** Why a transfer failed: what each end reports is what happened at its own end or at the other. */
module TransferReasons {
  import opened Wrappers
  import opened Frames
  import opened Transfer
  import opened TransferSystem
  import opened TransferSafety

  // ---------------------------------------------------------------- what an end is told

  /** The code an end stops with: 1 when a person cancelled it, 3 when there was no room, 2 for anything else. */
  function CodeFor(failure: Failure): StopCode {
    match failure
    case Cancelled => 1
    case Storage => 3
    case _ => 2
  }

  /** Every stop an end has sent carries the code of its own failure. */
  ghost predicate Tells(failure: Option<Failure>, log: seq<Frame>) {
    forall i :: 0 <= i < |log| && log[i].Stop? ==> failure.Some? && log[i].code == CodeFor(failure.value)
  }

  /** How an end's failure and log may change in a step. A failure stays; a stop goes out only with one, under its code. */
  ghost predicate Moves(failure: Option<Failure>, log: seq<Frame>, failure': Option<Failure>, log': seq<Frame>) {
    && (failure.Some? ==> failure' == failure)
    && (log' == log
        || (|log'| == |log| + 1 && log'[..|log|] == log
            && (log'[|log|].Stop? ==> failure'.Some? && log'[|log|].code == CodeFor(failure'.value))))
  }

  lemma SenderMoves(c: Config, x: System, step: Step)
    requires Enabled(c, x, step)
    ensures Moves(x.s.failure, x.s.log, Apply(c, x, step).s.failure, Apply(c, x, step).s.log)
  {
    hide Buffered;
  }

  lemma ReceiverMoves(c: Config, x: System, step: Step)
    requires Enabled(c, x, step)
    ensures Moves(x.r.failure, x.r.log, Apply(c, x, step).r.failure, Apply(c, x, step).r.log)
  {
    hide Buffered, ReceiverFinishes, ReceiverOnFrame;
    match step
    case FinishJob(outcome) => FinishMoves(c, x.r, outcome);
    case DeliverToReceiver => FrameMoves(c, x.r, x.s.log[x.toReceiver]);
    case _ =>
  }

  lemma FinishMoves(c: Config, r: ReceiverState, outcome: Outcome)
    requires r.running && r.finished < |r.jobs|
    ensures Moves(r.failure, r.log, ReceiverFinishes(c, r, outcome).failure, ReceiverFinishes(c, r, outcome).log)
  {
  }

  lemma FrameMoves(c: Config, r: ReceiverState, f: Frame)
    ensures Moves(r.failure, r.log, ReceiverOnFrame(c, r, f).failure, ReceiverOnFrame(c, r, f).log)
  {
  }

  lemma TellsStep(failure: Option<Failure>, log: seq<Frame>, failure': Option<Failure>, log': seq<Frame>)
    requires Tells(failure, log) && Moves(failure, log, failure', log')
    ensures Tells(failure', log')
  {
    assert forall i :: 0 <= i < |log| ==> log'[i] == log[i];
  }

  // ---------------------------------------------------------------- what happened at an end

  /** The sender's failure has its cause in one of the steps, in its channel or its frames, or at the receiver. */
  predicate SenderWhy(c: Config, x: System, past: seq<Step>) {
    match x.s.failure
    case None => true
    case Some(Cancelled) => SenderCancel in past
    case Some(Source) => LoadFails in past
    case Some(Closed) => !x.s.open
    case Some(FrameSize) => FrameSizeOf(c) < MIN_FRAME_BYTES
    case Some(PeerStorage) => x.r.failure == Some(Storage)
    case Some(PeerCancelled) => x.r.failure == Some(Cancelled)
    case Some(PeerFailed) => x.r.failure.Some? && x.r.failure != Some(Storage) && x.r.failure != Some(Cancelled)
    case _ => false
  }

  /** The receiver's. It is never told of missing storage, which only a receiver has. */
  predicate ReceiverWhy(x: System, past: seq<Step>) {
    match x.r.failure
    case None => true
    case Some(Cancelled) => ReceiverCancel in past
    case Some(Storage) => FinishJob(NoRoom) in past
    case Some(Verification) => FinishJob(Refused) in past
    case Some(Closed) => !x.r.open
    case Some(PeerCancelled) => x.s.failure == Some(Cancelled)
    case Some(PeerFailed) => x.s.failure.Some? && x.s.failure != Some(Cancelled)
    case _ => false
  }

  /** How a sender may come to fail in a step. */
  predicate SenderFailsBy(x: System, step: Step, failure: Failure, open: bool) {
    match failure
    case Cancelled => step == SenderCancel
    case Source => step == LoadFails
    case Closed => !open
    case PeerStorage => HearsStop(step, x.r.log, x.toSender, 3)
    case PeerCancelled => HearsStop(step, x.r.log, x.toSender, 1)
    case PeerFailed => HearsStop(step, x.r.log, x.toSender, 2)
    case _ => false
  }

  /** The step hands the sender a stop of this code. */
  predicate HearsStop(step: Step, log: seq<Frame>, at: nat, code: StopCode) {
    step.DeliverToSender? && at < |log| && log[at] == Stop(code)
  }

  lemma SenderFailsOnly(c: Config, x: System, step: Step)
    requires Inv(c, x) && Enabled(c, x, step) && x.s.failure.None? && Apply(c, x, step).s.failure.Some?
    ensures SenderFailsBy(x, step, Apply(c, x, step).s.failure.value, Apply(c, x, step).s.open)
  {
    hide Inv, Buffered;
    if step.DeliverToSender? {
      SenderHears(c, x);
    }
  }

  /** Of the frames an honest receiver sends, only a stop makes the sender fail. */
  lemma SenderHears(c: Config, x: System)
    requires Inv(c, x) && x.toSender < |x.r.log| && x.s.failure.None? && SenderOnFrame(x.s, x.r.log[x.toSender]).failure.Some?
    ensures x.r.log[x.toSender].Stop?
  {
    hide Inv;
    DeliverToSenderKeeps(c, x);
  }

  predicate ReceiverFailsBy(x: System, step: Step, failure: Failure, open: bool) {
    match failure
    case Cancelled => step == ReceiverCancel
    case Storage => step == FinishJob(NoRoom)
    case Verification => step == FinishJob(Refused)
    case Closed => !open
    case PeerStorage => step.DeliverToReceiver? && x.toReceiver < |x.s.log| && x.s.log[x.toReceiver] == Stop(3)
    case PeerCancelled => step.DeliverToReceiver? && x.toReceiver < |x.s.log| && x.s.log[x.toReceiver] == Stop(1)
    case PeerFailed => step.DeliverToReceiver? && x.toReceiver < |x.s.log| && x.s.log[x.toReceiver] == Stop(2)
    case _ => false
  }

  lemma ReceiverFailsOnly(c: Config, x: System, step: Step)
    requires Inv(c, x) && Enabled(c, x, step) && x.r.failure.None? && Apply(c, x, step).r.failure.Some?
    ensures ReceiverFailsBy(x, step, Apply(c, x, step).r.failure.value, Apply(c, x, step).r.open)
  {
    hide Inv, Buffered;
    if step.DeliverToReceiver? {
      ReceiverHears(c, x);
    }
  }

  lemma ReceiverHears(c: Config, x: System)
    requires Inv(c, x) && x.toReceiver < x.s.drained <= |x.s.log| && x.r.failure.None?
    requires ReceiverOnFrame(c, x.r, x.s.log[x.toReceiver]).failure.Some?
    ensures x.s.log[x.toReceiver].Stop?
  {
    hide Inv;
    DeliverToReceiverKeeps(c, x);
  }

  /** A closed channel does not open again. */
  lemma StaysClosed(c: Config, x: System, step: Step)
    requires Enabled(c, x, step)
    ensures (!x.s.open ==> !Apply(c, x, step).s.open) && (!x.r.open ==> !Apply(c, x, step).r.open)
  {
    hide Buffered;
  }

  lemma SenderWhyStep(c: Config, x: System, y: System, step: Step, past: seq<Step>)
    requires SenderWhy(c, x, past) && Tells(x.r.failure, x.r.log)
    requires Moves(x.s.failure, x.s.log, y.s.failure, y.s.log) && Moves(x.r.failure, x.r.log, y.r.failure, y.r.log)
    requires !x.s.open ==> !y.s.open
    requires x.s.failure.None? && y.s.failure.Some? ==> SenderFailsBy(x, step, y.s.failure.value, y.s.open)
    ensures SenderWhy(c, y, past + [step])
  {
    assert step in past + [step];
  }

  lemma ReceiverWhyStep(c: Config, x: System, y: System, step: Step, past: seq<Step>)
    requires ReceiverWhy(x, past) && SenderWhy(c, x, past) && Tells(x.s.failure, x.s.log)
    requires Moves(x.s.failure, x.s.log, y.s.failure, y.s.log) && Moves(x.r.failure, x.r.log, y.r.failure, y.r.log)
    requires !x.r.open ==> !y.r.open
    requires x.r.failure.None? && y.r.failure.Some? ==> ReceiverFailsBy(x, step, y.r.failure.value, y.r.open)
    ensures ReceiverWhy(y, past + [step])
  {
    assert step in past + [step];
  }

  // ---------------------------------------------------------------- the other end comes to know

  /** A stop is on its way to the receiver. */
  ghost predicate StopComes(s: SenderState, toReceiver: nat) {
    exists j :: toReceiver <= j < |s.log| && s.log[j].Stop?
  }

  /** If a sender that can still be heard has failed, the receiver has failed, has finished, or will hear of it. */
  ghost predicate ReceiverLearns(x: System) {
    x.s.failure.Some? && x.s.open ==> x.r.failure.Some? || x.r.done || StopComes(x.s, x.toReceiver)
  }

  /** A sender that fails with its channel open has said so, or been told so. */
  lemma SenderSpeaks(c: Config, x: System, step: Step)
    requires Inv(c, x) && Enabled(c, x, step) && x.s.failure.None? && Apply(c, x, step).s.failure.Some? && Apply(c, x, step).s.open
    ensures |Apply(c, x, step).s.log| == |x.s.log| + 1 || x.r.failure.Some?
    ensures |Apply(c, x, step).s.log| == |x.s.log| + 1 ==> Apply(c, x, step).s.log[|x.s.log|].Stop?
  {
    hide Inv, Buffered;
    if step.DeliverToSender? {
      SenderHears(c, x);
      StopHasReason(c, x, x.toSender);
    }
  }

  lemma StopHasReason(c: Config, x: System, i: nat)
    requires Inv(c, x) && i < |x.r.log| && x.r.log[i].Stop?
    ensures x.r.failure.Some?
  {
    assert ReceiverFrame(x.s, x.r, i);
  }

  /** A stop that reaches a receiver makes it fail, unless it has finished. */
  lemma ReceiverReads(c: Config, x: System, step: Step)
    requires Enabled(c, x, step)
    ensures var y := Apply(c, x, step);
      && (y.toReceiver == x.toReceiver
          || (y.toReceiver == x.toReceiver + 1 <= |x.s.log| && (x.s.log[x.toReceiver].Stop? ==> y.r.failure.Some? || y.r.done)))
      && (x.r.done ==> y.r.done)
  {
    hide Buffered;
  }

  lemma ReceiverLearnsStep(c: Config, x: System, step: Step)
    requires Inv(c, x) && ReceiverLearns(x) && Enabled(c, x, step)
    ensures ReceiverLearns(Apply(c, x, step))
  {
    hide Inv, Enabled, Apply;
    var y := Apply(c, x, step);
    SenderMoves(c, x, step);
    ReceiverMoves(c, x, step);
    StaysClosed(c, x, step);
    ReceiverReads(c, x, step);
    DeliveredInLog(c, x);
    if x.s.failure.None? && y.s.failure.Some? && y.s.open {
      SenderSpeaks(c, x, step);
    }
    if StopComes(x.s, x.toReceiver) {
      var j :| x.toReceiver <= j < |x.s.log| && x.s.log[j].Stop?;
      assert y.s.log[j] == x.s.log[j];
    }
  }

  lemma DeliveredInLog(c: Config, x: System)
    requires Inv(c, x)
    ensures x.toReceiver <= |x.s.log|
  {
    hide SenderLog, ReceiverJobs, ReceiverLog, SinkHolds, Trust, BufferBound, Position, Buffered;
  }

  // ---------------------------------------------------------------- every run

  lemma StartReasons(c: Config, x: System, a: bool, b: bool)
    requires x == Start(c, a, b)
    ensures Tells(x.s.failure, x.s.log) && Tells(x.r.failure, x.r.log) && SenderWhy(c, x, []) && ReceiverWhy(x, []) && ReceiverLearns(x)
  {
    assert |x.s.log| > 0 ==> x.s.log[0].Stop?;
  }

  ghost predicate Reasons(c: Config, x: System, past: seq<Step>) {
    && Tells(x.s.failure, x.s.log) && Tells(x.r.failure, x.r.log)
    && SenderWhy(c, x, past) && ReceiverWhy(x, past) && ReceiverLearns(x)
  }

  lemma ReasonsStep(c: Config, x: System, step: Step, past: seq<Step>)
    requires ValidConfig(c) && Inv(c, x) && Reasons(c, x, past) && Enabled(c, x, step)
    ensures Reasons(c, Apply(c, x, step), past + [step])
  {
    hide Inv, Tells, Moves, SenderWhy, ReceiverWhy, ReceiverLearns, Enabled, Apply, SenderFailsBy, ReceiverFailsBy;
    var y := Apply(c, x, step);
    SenderMoves(c, x, step);
    ReceiverMoves(c, x, step);
    TellsStep(x.s.failure, x.s.log, y.s.failure, y.s.log);
    TellsStep(x.r.failure, x.r.log, y.r.failure, y.r.log);
    StaysClosed(c, x, step);
    if x.s.failure.None? && y.s.failure.Some? {
      SenderFailsOnly(c, x, step);
    }
    if x.r.failure.None? && y.r.failure.Some? {
      ReceiverFailsOnly(c, x, step);
    }
    SenderWhyStep(c, x, y, step, past);
    ReceiverWhyStep(c, x, y, step, past);
    ReceiverLearnsStep(c, x, step);
  }

  lemma {:induction false} RunReasons(c: Config, states: seq<System>, steps: seq<Step>, i: nat)
    requires ValidConfig(c) && IsRun(c, states, steps) && i < |states|
    ensures i <= |steps| && Reasons(c, states[i], steps[..i])
  {
    hide *;
    RunLength(c, states, steps);
    if i == 0 {
      RunStartReasons(c, states, steps);
    } else {
      RunReasons(c, states, steps, i - 1);
      RunKeeps(c, states, steps, i - 1);
      RunStep(c, states, steps, i - 1);
      ReasonsStep(c, states[i - 1], steps[i - 1], steps[..i - 1]);
      assert steps[..i] == steps[..i - 1] + [steps[i - 1]];
    }
  }

  lemma RunStartReasons(c: Config, states: seq<System>, steps: seq<Step>)
    requires IsRun(c, states, steps)
    ensures |states| > 0 && Reasons(c, states[0], steps[..0])
  {
    hide Start, Enabled, Apply, Tells, SenderWhy, ReceiverWhy, ReceiverLearns;
    var a, b :| states[0] == Start(c, a, b);
    StartReasons(c, states[0], a, b);
  }

  /**
   In every state of every run an end that has failed says why: what it reports of itself happened at that end, and
   what it reports of the other end is what the other end failed with.
   */
  lemma EveryFailureHasItsCause(c: Config, states: seq<System>, steps: seq<Step>, i: nat)
    requires ValidConfig(c) && IsRun(c, states, steps) && i < |states|
    ensures i <= |steps| && SenderWhy(c, states[i], steps[..i]) && ReceiverWhy(states[i], steps[..i])
  {
    hide *;
    RunReasons(c, states, steps, i);
    FromReasons(c, states[i], steps[..i]);
  }

  lemma FromReasons(c: Config, x: System, past: seq<Step>)
    requires Reasons(c, x, past)
    ensures Tells(x.s.failure, x.s.log) && Tells(x.r.failure, x.r.log) && SenderWhy(c, x, past) && ReceiverWhy(x, past) && ReceiverLearns(x)
  {
    hide Tells, SenderWhy, ReceiverWhy, ReceiverLearns;
  }

  /**
   In every state of every run the failure of an end that can still be heard is known to the other end or on its way
   there, unless the receiver has finished; and every stop on the way carries the reason.
   */
  lemma FailuresAreTold(c: Config, states: seq<System>, steps: seq<Step>, i: nat)
    requires ValidConfig(c) && IsRun(c, states, steps) && i < |states|
    ensures
      var x := states[i];
      && (x.s.failure.Some? && x.s.open ==> x.r.failure.Some? || x.r.done || StopComes(x.s, x.toReceiver))
      && (x.r.failure.Some? && x.r.open ==> x.s.failure.Some? || StopBefore(x.r, x.toSender, |x.r.log|))
      && (forall j :: 0 <= j < |x.s.log| && x.s.log[j].Stop? ==>
            x.s.log[j].code == if x.s.failure == Some(Cancelled) then 1 else 2)
      && (forall j :: 0 <= j < |x.r.log| && x.r.log[j].Stop? ==>
            x.r.log[j].code == if x.r.failure == Some(Cancelled) then 1 else if x.r.failure == Some(Storage) then 3 else 2)
  {
    RunReasons(c, states, steps, i);
    RunKeeps(c, states, steps, i);
    hide SenderLog, ReceiverJobs, ReceiverLog, SinkHolds, BufferBound, Position, Buffered, StopBefore, StopComes;
  }
}
