/**
 A sender and a receiver joined by two reliable first-in-first-out channels, as a state machine over everything
 that can happen to them in any order, and the invariant of all its runs.
 */
module TransferSystem {
  import opened Wrappers
  import opened Bytes
  import opened Frames
  import opened Transfer

  /** What the sink holds; `kept` once it has verified and kept the file; `aborted` once told to delete it. */
  datatype Sink = Sink(contents: Blob, kept: bool, aborted: bool)

  /** `toReceiver` frames of the sender's log have been delivered, `toSender` of the receiver's. */
  datatype System = System(s: SenderState, r: ReceiverState, sink: Sink, toReceiver: nat, toSender: nat)

  datatype Step =
    | Load(upTo: nat) | LoadFails | SendData(take: nat) | SendEnd | Drain
    | DeliverToReceiver | StartJob | FinishJob(outcome: Outcome) | AbortSink | DeliverToSender
    | SenderCancel | ReceiverCancel
    | SenderChannelCloses | ReceiverChannelCloses | SenderHearsClose | ReceiverHearsClose

  function Start(c: Config, senderOpen: bool, receiverOpen: bool): System {
    System(SenderStart(c, senderOpen), ReceiverStart(receiverOpen), Sink([], false, false), 0, 0)
  }

  predicate Enabled(c: Config, x: System, step: Step) {
    match step
    case Load(upTo) => CanLoad(c, x.s, upTo)
    case LoadFails => x.s.failure.None? && x.s.sent == x.s.loaded < |c.envelope|
    case SendData(take) => CanSend(c, x.s, take)
    case SendEnd => CanEnd(c, x.s)
    case Drain => x.s.drained < |x.s.log|
    case DeliverToReceiver => x.toReceiver < x.s.drained <= |x.s.log|
    case StartJob => CanStart(x.r)
    case FinishJob(_) => x.r.running && x.r.finished < |x.r.jobs|
    case AbortSink => x.r.failure.Some? && !x.r.running
    case DeliverToSender => x.toSender < |x.r.log|
    case SenderHearsClose => !x.s.open
    case ReceiverHearsClose => !x.r.open
    case _ => true
  }

  /** The sink's part in a finished job. */
  function SinkAfter(sink: Sink, job: Job, outcome: Outcome): Sink {
    if outcome != Done then sink
    else
      match job
      case Write(bytes) => sink.(contents := sink.contents + bytes)
      case Finish(_, _) => sink.(kept := true)
  }

  function Apply(c: Config, x: System, step: Step): System
    requires Enabled(c, x, step)
  {
    match step
    case Load(upTo) => x.(s := x.s.(loaded := upTo))
    case LoadFails => x.(s := SenderFail(x.s, Source, Some(2)))
    case SendData(take) => x.(s := SenderSends(c, x.s, take))
    case SendEnd => x.(s := SenderEnds(c, x.s))
    case Drain => x.(s := SenderDrains(x.s))
    case DeliverToReceiver => x.(r := ReceiverOnFrame(c, x.r, x.s.log[x.toReceiver]), toReceiver := x.toReceiver + 1)
    case StartJob => x.(r := x.r.(running := true))
    case FinishJob(outcome) =>
      x.(r := ReceiverFinishes(c, x.r, outcome), sink := SinkAfter(x.sink, x.r.jobs[x.r.finished], outcome))
    case AbortSink => x.(sink := Sink([], false, true))
    case DeliverToSender => x.(s := SenderOnFrame(x.s, x.r.log[x.toSender]), toSender := x.toSender + 1)
    case SenderCancel => x.(s := SenderCancels(x.s))
    case ReceiverCancel => x.(r := ReceiverCancels(x.r))
    case SenderChannelCloses => x.(s := x.s.(open := false))
    case ReceiverChannelCloses => x.(r := x.r.(open := false))
    case SenderHearsClose => x.(s := SenderOnClosed(x.s))
    case ReceiverHearsClose => x.(r := ReceiverOnClosed(x.r))
  }

  /** A run: each state follows from the one before by its step. */
  ghost predicate IsRun(c: Config, states: seq<System>, steps: seq<Step>) {
    && |states| == |steps| + 1
    && (exists a, b :: states[0] == Start(c, a, b))
    && forall i :: 0 <= i < |steps| ==> Enabled(c, states[i], steps[i]) && states[i + 1] == Apply(c, states[i], steps[i])
  }

  // ---------------------------------------------------------------- the invariant

  /** The envelope offset at which frame `i` of the sender's log stands. */
  function Position(s: SenderState, i: nat): nat {
    if i < |s.log| && s.log[i].Data? then s.log[i].offset else s.sent
  }

  ghost predicate SenderCounts(c: Config, s: SenderState) {
    && s.acknowledged <= s.sent <= s.loaded <= |c.envelope|
    && s.sent - s.acknowledged <= WINDOW
    && (s.ended ==> s.sent == |c.envelope|)
    && s.drained <= |s.log|
    && s.failure != Some(Protocol)
    && (s.failure.None? ==> FrameSizeOf(c) >= MIN_FRAME_BYTES)
  }

  /** A frame of the sender's log. */
  ghost predicate SenderFrame(c: Config, s: SenderState, i: nat)
    requires i < |s.log|
  {
    match s.log[i]
    case Data(offset, bytes) =>
      && ValidFrame(s.log[i]) && offset + |bytes| <= s.sent <= |c.envelope|
      && bytes == c.envelope[offset..offset + |bytes|]
      && Position(s, i + 1) == offset + |bytes|
    case End(sha256, size) => s.ended && sha256 == c.sha256 && size == c.plaintext && forall j :: i < j < |s.log| ==> s.log[j].Stop?
    case Stop(_) => s.failure.Some? && forall j :: i < j < |s.log| ==> s.log[j].Stop?
    case _ => false
  }

  ghost predicate SenderLog(c: Config, s: SenderState) {
    && Position(s, 0) == 0
    && forall i :: 0 <= i < |s.log| ==> SenderFrame(c, s, i)
  }

  /** The send buffer: paused only above the low-water mark, and never far above the high-water mark. */
  ghost predicate BufferBound(s: SenderState) {
    var buffered := Buffered(s.log, s.drained);
    && (s.paused ==> buffered > LOW_WATER)
    && (s.failure.None? && !s.ended && !s.paused ==> buffered <= HIGH_WATER)
    && buffered <= HIGH_WATER + FRAME_BYTES + (if s.ended then END_FRAME_BYTES else 0) + (if s.failure.Some? then 2 else 0)
  }

  function JobOf(f: Frame): Job
    requires f.Data? || f.End?
  {
    if f.Data? then Write(f.bytes) else Finish(f.sha256, f.size)
  }

  ghost predicate ReceiverCounts(c: Config, s: SenderState, r: ReceiverState, toReceiver: nat) {
    && r.lastAck <= r.written <= r.received <= s.sent
    && r.written - r.lastAck < ACK_EVERY
    && s.acknowledged <= r.lastAck
    && r.finished <= |r.jobs| <= toReceiver <= s.drained
    && (r.running ==> r.finished < |r.jobs|)
    && (r.failure.None? && !r.done ==> |r.jobs| == toReceiver)
    && (r.done ==> r.endSeen && r.finished == |r.jobs| && !r.running)
    && (r.endSeen ==> s.ended)
    && (r.endSeen <==> |r.jobs| > 0 && r.jobs[|r.jobs| - 1].Finish?)
    && r.failure != Some(Protocol)
  }

  /** The receiver's queue is the sender's log, job for frame, and its counters stand where the frames do. */
  ghost predicate ReceiverJobs(s: SenderState, r: ReceiverState) {
    && r.finished <= |r.jobs| <= |s.log|
    && (forall i :: 0 <= i < |r.jobs| ==> (s.log[i].Data? || s.log[i].End?) && r.jobs[i] == JobOf(s.log[i]))
    && r.received == Position(s, |r.jobs|)
    && r.written == Position(s, r.finished)
  }

  ghost predicate ReceiverFrame(s: SenderState, r: ReceiverState, i: nat)
    requires i < |r.log|
  {
    match r.log[i]
    case Ack(next) => next <= r.lastAck && forall j :: 0 <= j < i && r.log[j].Ack? ==> r.log[j].next < next
    case Kept => r.done
    case Stop(_) => r.failure.Some?
    case _ => false
  }

  /** Acknowledgements on their way move forward. */
  ghost predicate ReceiverLog(s: SenderState, r: ReceiverState, toSender: nat) {
    && toSender <= |r.log|
    && (forall i :: 0 <= i < |r.log| ==> ReceiverFrame(s, r, i))
    && (forall i :: toSender <= i < |r.log| && r.log[i].Ack? ==> s.acknowledged < r.log[i].next)
  }

  /** A stop is on its way before frame `n` of the receiver's log. */
  ghost predicate StopBefore(r: ReceiverState, toSender: nat, n: nat) {
    exists j :: toSender <= j < n && j < |r.log| && r.log[j].Stop?
  }

  /** The file is kept, and nothing can undo it. */
  predicate FileKept(c: Config, r: ReceiverState, sink: Sink) {
    r.done && r.failure.None? && sink == Sink(c.envelope, true, false)
  }

  /**
   Why KEPT can be believed: if a receiver that can still be heard has failed, the sender knows or will hear of it
   before it hears anything later.
   */
  ghost predicate Trust(c: Config, x: System) {
    && (x.r.failure.Some? && x.r.open ==> x.s.failure.Some? || StopBefore(x.r, x.toSender, |x.r.log|))
    && (forall i :: x.toSender <= i < |x.r.log| && x.r.log[i].Kept? ==>
          FileKept(c, x.r, x.sink) || x.s.failure.Some? || StopBefore(x.r, x.toSender, i))
    && (x.s.kept ==> FileKept(c, x.r, x.sink))
  }

  ghost predicate SinkHolds(c: Config, r: ReceiverState, sink: Sink) {
    && (sink.aborted ==> r.failure.Some? && !r.running && sink == Sink([], false, true))
    && (!sink.aborted ==> r.written <= |c.envelope| && sink.contents == c.envelope[..r.written])
    && (sink.kept ==> r.endSeen && r.finished == |r.jobs|)
    && (r.done && r.failure.None? ==> sink.kept)
  }

  ghost predicate Inv(c: Config, x: System) {
    && SenderCounts(c, x.s) && SenderLog(c, x.s) && BufferBound(x.s)
    && ReceiverCounts(c, x.s, x.r, x.toReceiver) && ReceiverJobs(x.s, x.r)
    && ReceiverLog(x.s, x.r, x.toSender)
    && SinkHolds(c, x.r, x.sink)
    && Trust(c, x)
  }
}
