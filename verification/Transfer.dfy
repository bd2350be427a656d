/**
 The two ends of a direct transfer: what each does with a frame, a drained buffer, a finished write, a closed
 channel or a person's cancel. One envelope goes over as DATA frames, the receiver acknowledges what its sink has
 written, END follows the last byte and KEPT follows the sink's verification.
 */
module Transfer {
  import opened Wrappers
  import opened Bytes
  import opened Frames

  const WINDOW: nat := 8_388_608
  const ACK_EVERY: nat := 1_048_576
  const HIGH_WATER: nat := 1_048_576
  const LOW_WATER: nat := 262_144
  const MIN_FRAME_BYTES: nat := 16_384

  datatype Failure =
    | Cancelled | PeerCancelled | PeerFailed | PeerStorage | Protocol
    | Closed | FrameSize | Source | Verification | Storage

  /** The envelope to send, its file's digest and size, its header's length, and the connection's largest message. */
  datatype Config = Config(envelope: Blob, sha256: Blob, plaintext: nat, header: nat, maxMessage: nat)

  predicate ValidConfig(c: Config) {
    0 < c.header <= |c.envelope| <= MAX_SAFE && |c.sha256| == 32 && c.plaintext <= MAX_SAFE
  }

  function FrameSizeOf(c: Config): nat {
    Min(c.maxMessage, FRAME_BYTES)
  }

  function FailureForStop(code: StopCode): Failure {
    if code == 1 then PeerCancelled else if code == 3 then PeerStorage else PeerFailed
  }

  function FrameLength(f: Frame): (n: nat)
    ensures n > 0 && (ValidFrame(f) ==> n == |Layout(f)|)
  {
    match f
    case Data(_, bytes) => DATA_HEADER_BYTES + |bytes|
    case Ack(_) => 9
    case End(sha256, _) => 9 + |sha256|
    case Kept => 1
    case Stop(_) => 2
  }

  // ---------------------------------------------------------------- the sender

  /**
   `log` is every frame handed to the channel, of which the first `drained` have left its send buffer. `loaded` is
   how much of the envelope the encoder has produced.
   */
  datatype SenderState = SenderState(
    sent: nat, acknowledged: nat, ended: bool, kept: bool, paused: bool, failure: Option<Failure>, loaded: nat,
    open: bool, log: seq<Frame>, drained: nat)

  /** The bytes in the send buffer. */
  function Buffered(log: seq<Frame>, drained: nat): nat
    decreases |log| - drained
  {
    if drained >= |log| then 0 else FrameLength(log[drained]) + Buffered(log, drained + 1)
  }

  function SenderPush(s: SenderState, f: Frame): SenderState {
    if s.open then s.(log := s.log + [f]) else s
  }

  function SenderFail(s: SenderState, failure: Failure, stop: Option<StopCode>): SenderState {
    if s.failure.Some? then s
    else
      var failed := s.(failure := Some(failure));
      if stop.Some? then SenderPush(failed, Stop(stop.value)) else failed
  }

  function SenderOnFrame(s: SenderState, f: Frame): SenderState {
    if s.failure.Some? || s.kept then s
    else
      match f
      case Ack(next) =>
        if next <= s.acknowledged || next > s.sent then SenderFail(s, Protocol, Some(2)) else s.(acknowledged := next)
      case Kept => if s.ended then s.(kept := true) else SenderFail(s, Protocol, Some(2))
      case Stop(code) => SenderFail(s, FailureForStop(code), None)
      case _ => SenderFail(s, Protocol, Some(2))
  }

  function SenderOnBytes(s: SenderState, bytes: Blob): SenderState {
    if s.failure.Some? || s.kept then s
    else
      var decoded := DecodeFrame(Receiver, bytes);
      if decoded.Err? then SenderFail(s, Protocol, Some(2)) else SenderOnFrame(s, decoded.value)
  }

  function SenderOnClosed(s: SenderState): SenderState {
    if s.kept then s else SenderFail(s, Closed, None)
  }

  function SenderCancels(s: SenderState): SenderState {
    SenderFail(s, Cancelled, Some(1))
  }

  function SenderStart(c: Config, open: bool): SenderState {
    var s := SenderState(0, 0, false, false, false, None, c.header, open, [], 0);
    var checked := if open then s else SenderFail(s, Closed, None);
    if FrameSizeOf(c) < MIN_FRAME_BYTES then SenderFail(checked, FrameSize, Some(2)) else checked
  }

  /** How much the protocol's own pacing allows. */
  function Allowance(s: SenderState): int {
    if s.paused then 0 else WINDOW - (s.sent - s.acknowledged)
  }

  predicate CanSend(c: Config, s: SenderState, take: nat) {
    && s.failure.None? && !s.ended && s.sent < |c.envelope|
    && 0 < take <= Min(FrameSizeOf(c) - DATA_HEADER_BYTES, Min(s.loaded - s.sent, |c.envelope| - s.sent))
    && take <= Allowance(s)
  }

  /** Sends the next `take` bytes of the envelope, and pauses if that lifts the buffer over its high-water mark. */
  function SenderSends(c: Config, s: SenderState, take: nat): SenderState
    requires CanSend(c, s, take)
  {
    if !s.open then SenderFail(s, Closed, None)
    else
      var log := s.log + [Data(s.sent, c.envelope[s.sent..s.sent + take])];
      s.(log := log, sent := s.sent + take, paused := s.paused || Buffered(log, s.drained) > HIGH_WATER)
  }

  predicate CanEnd(c: Config, s: SenderState) {
    s.failure.None? && !s.ended && s.sent == |c.envelope|
  }

  function SenderEnds(c: Config, s: SenderState): SenderState {
    SenderPush(s, End(c.sha256, c.plaintext)).(ended := true)
  }

  /** The encoder has produced another record. */
  predicate CanLoad(c: Config, s: SenderState, upTo: nat) {
    s.failure.None? && !s.ended && s.sent == s.loaded < upTo <= |c.envelope|
  }

  /** One frame leaves the send buffer; reaching the low-water mark ends the pause. */
  function SenderDrains(s: SenderState): SenderState
    requires s.drained < |s.log|
  {
    var crossed := Buffered(s.log, s.drained) > LOW_WATER >= Buffered(s.log, s.drained + 1);
    s.(drained := s.drained + 1, paused := s.paused && !crossed)
  }

  // ---------------------------------------------------------------- the receiver

  /** Work queued for the sink. */
  datatype Job = Write(bytes: Blob) | Finish(sha256: Blob, size: nat)

  /** `jobs` is everything queued so far, in arrival order; the first `finished` have succeeded. */
  datatype ReceiverState = ReceiverState(
    received: nat, written: nat, lastAck: nat, endSeen: bool, done: bool, failure: Option<Failure>,
    jobs: seq<Job>, finished: nat, running: bool, open: bool, log: seq<Frame>)

  datatype Outcome = Done | Refused | NoRoom

  function ReceiverFail(r: ReceiverState, failure: Failure, stop: Option<StopCode>): ReceiverState {
    if r.failure.Some? || r.done then r
    else
      var failed := r.(failure := Some(failure));
      if stop.Some? && r.open then failed.(log := r.log + [Stop(stop.value)]) else failed
  }

  function ReceiverOnFrame(c: Config, r: ReceiverState, f: Frame): ReceiverState {
    if r.failure.Some? || r.done then r
    else
      match f
      case Data(offset, bytes) =>
        if r.endSeen || offset != r.received || r.received + |bytes| > |c.envelope|
           || r.received + |bytes| - r.lastAck > WINDOW then ReceiverFail(r, Protocol, Some(2))
        else r.(received := r.received + |bytes|, jobs := r.jobs + [Write(bytes)])
      case End(sha256, size) =>
        if r.endSeen || r.received != |c.envelope| then ReceiverFail(r, Protocol, Some(2))
        else if size != c.plaintext then ReceiverFail(r, Verification, Some(2))
        else r.(endSeen := true, jobs := r.jobs + [Finish(sha256, size)])
      case Stop(code) => ReceiverFail(r, FailureForStop(code), None)
      case _ => ReceiverFail(r, Protocol, Some(2))
  }

  function ReceiverOnBytes(c: Config, r: ReceiverState, bytes: Blob): ReceiverState {
    if r.failure.Some? || r.done then r
    else
      var decoded := DecodeFrame(Sender, bytes);
      if decoded.Err? then ReceiverFail(r, Protocol, Some(2)) else ReceiverOnFrame(c, r, decoded.value)
  }

  function ReceiverOnClosed(r: ReceiverState): ReceiverState {
    ReceiverFail(r, Closed, None)
  }

  function ReceiverCancels(r: ReceiverState): ReceiverState {
    ReceiverFail(r, Cancelled, Some(1))
  }

  function ReceiverStart(open: bool): ReceiverState {
    var r := ReceiverState(0, 0, 0, false, false, None, [], 0, false, open, []);
    if open then r else ReceiverFail(r, Closed, None)
  }

  /** The next job starts only if nothing has failed. */
  predicate CanStart(r: ReceiverState) {
    r.failure.None? && !r.running && r.finished < |r.jobs|
  }

  /** A frame the receiver must be able to send. */
  function ReceiverSends(r: ReceiverState, f: Frame): ReceiverState {
    if r.open then r.(log := r.log + [f]) else ReceiverFail(r, Closed, None)
  }

  /** The sink has answered about the job that was running. What failed meanwhile is not looked at again. */
  function ReceiverFinishes(c: Config, r: ReceiverState, outcome: Outcome): ReceiverState
    requires r.running && r.finished < |r.jobs|
  {
    var idle := r.(running := false);
    match outcome
    case NoRoom => ReceiverFail(idle, Storage, Some(3))
    case Refused => ReceiverFail(idle, Verification, Some(2))
    case Done =>
      var next := idle.(finished := r.finished + 1);
      match r.jobs[r.finished]
      case Write(bytes) =>
        var written := r.written + |bytes|;
        if written - r.lastAck >= ACK_EVERY || written == |c.envelope|
        then ReceiverSends(next.(written := written, lastAck := written), Ack(written))
        else next.(written := written)
      case Finish(_, _) => if r.open then ReceiverSends(next, Kept).(done := true) else ReceiverSends(next, Kept)
  }

  // ---------------------------------------------------------------- bytes and frames

  /** What an end does with the bytes of a frame the other end may send is what it does with the frame. */
  lemma BytesAreFrames(c: Config, s: SenderState, r: ReceiverState, f: Frame)
    requires ValidFrame(f)
    ensures SentBy(f, Receiver) ==> SenderOnBytes(s, Layout(f)) == SenderOnFrame(s, f)
    ensures SentBy(f, Sender) ==> ReceiverOnBytes(c, r, Layout(f)) == ReceiverOnFrame(c, r, f)
  {
    DecodesExactly(Receiver, Layout(f), f);
    DecodesExactly(Sender, Layout(f), f);
    hide DecodeFrame, Layout;
  }

  lemma {:induction false} BufferedPush(log: seq<Frame>, f: Frame, drained: nat)
    requires drained <= |log|
    ensures Buffered(log + [f], drained) == Buffered(log, drained) + FrameLength(f)
    decreases |log| - drained
  {
    if drained < |log| {
      BufferedPush(log, f, drained + 1);
    }
  }
}
