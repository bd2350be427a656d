/**
 The sender and the receiver as they run: objects whose handlers update their fields and put bytes on a channel.
 Each handler does what `Transfer` says of the state it stands for.
 */
module TransferEnds {
  import opened Wrappers
  import opened Bytes
  import opened Frames
  import opened Transfer

  /** One direction of a data channel. `log` is what the messages handed to it mean. */
  class Channel {
    var open: bool
    var messages: seq<Blob>
    var drained: nat
    var bufferedAmount: nat
    ghost var log: seq<Frame>

    ghost predicate Valid()
      reads this
    {
      && |messages| == |log| && drained <= |log|
      && (forall i :: 0 <= i < |log| ==> ValidFrame(log[i]) && messages[i] == Layout(log[i]))
      && bufferedAmount == Buffered(log, drained)
    }

    constructor ()
      ensures Valid() && open && log == [] && drained == 0
    {
      open, messages, drained, bufferedAmount := true, [], 0, 0;
      log := [];
    }

    /** Refused, as an exception, when the channel is not open. */
    method Send(message: Blob, ghost f: Frame) returns (ok: bool)
      requires Valid() && ValidFrame(f) && message == Layout(f)
      modifies this
      ensures Valid() && ok == old(open) == open && drained == old(drained)
      ensures log == if ok then old(log) + [f] else old(log)
      ensures bufferedAmount == Buffered(log, drained)
    {
      hide Layout;
      if !open {
        return false;
      }
      BufferedPush(log, f, drained);
      messages := messages + [message];
      bufferedAmount := bufferedAmount + |message|;
      log := log + [f];
      ok := true;
    }

    /** One message leaves the buffer. Crossing down to the threshold raises the low event. */
    method Drain() returns (low: bool)
      requires Valid() && drained < |log|
      modifies this
      ensures Valid() && open == old(open) && log == old(log) && drained == old(drained) + 1
      ensures low <==> Buffered(log, drained - 1) > LOW_WATER >= Buffered(log, drained)
    {
      hide Layout;
      var before := bufferedAmount;
      bufferedAmount := bufferedAmount - |messages[drained]|;
      drained := drained + 1;
      low := before > LOW_WATER >= bufferedAmount;
    }

    method Close()
      modifies `open
      ensures !open
    {
      open := false;
    }
  }

  method EncodeStop(code: StopCode) returns (message: Blob)
    ensures message == Layout(Stop(code))
  {
    message := [5 as byte, code as byte];
  }

  /** What is left of the current record is what comes next in the envelope. */
  ghost predicate ComesNext(current: Blob, position: nat, envelope: Blob, sent: nat) {
    && position <= |current| && sent + |current| - position <= |envelope|
    && current[position..] == envelope[sent..sent + |current| - position]
  }

  class SenderEnd {
    const config: Config
    const channel: Channel
    var sent: nat
    var acknowledged: nat
    var ended: bool
    var kept: bool
    var paused: bool
    var failure: Option<Failure>
    var current: Blob
    var position: nat

    ghost predicate Valid()
      reads this, channel
    {
      ValidConfig(config) && channel.Valid() && ComesNext(current, position, config.envelope, sent)
    }

    ghost function State(): SenderState
      requires ComesNext(current, position, config.envelope, sent)
      reads this, channel
    {
      SenderState(sent, acknowledged, ended, kept, paused, failure, sent + |current| - position,
                  channel.open, channel.log, channel.drained)
    }

    constructor (c: Config, channel: Channel)
      requires ValidConfig(c) && channel.Valid() && channel.log == [] && channel.drained == 0
      modifies channel
      ensures Valid() && config == c && this.channel == channel
      ensures State() == SenderStart(c, old(channel.open))
    {
      config, this.channel := c, channel;
      sent, acknowledged, ended, kept, paused, failure := 0, 0, false, false, false, None;
      current, position := c.envelope[..c.header], 0;
      new;
      if !channel.open {
        Fail(Closed, None);
      }
      if Min(c.maxMessage, FRAME_BYTES) < MIN_FRAME_BYTES {
        Fail(FrameSize, Some(2));
      }
    }

    method Fail(why: Failure, stop: Option<StopCode>)
      requires Valid()
      modifies this`failure, channel
      ensures Valid() && State() == SenderFail(old(State()), why, stop)
    {
      hide Layout, Buffered, Channel.Valid;
      if failure.Some? {
        return;
      }
      failure := Some(why);
      if stop.Some? {
        var message := EncodeStop(stop.value);
        var _ := channel.Send(message, Stop(stop.value));
      }
    }

    method OnFrame(bytes: Blob)
      requires Valid()
      modifies this`acknowledged, this`kept, this`failure, channel
      ensures Valid() && State() == SenderOnBytes(old(State()), bytes)
    {
      hide Layout, Buffered, DecodeFrame, Channel.Valid;
      if failure.Some? || kept {
        return;
      }
      var frame := DecodeFrame(Receiver, bytes);
      if frame.Err? {
        Fail(Protocol, Some(2));
        return;
      }
      match frame.value
      case Ack(next) =>
        if next <= acknowledged || next > sent {
          Fail(Protocol, Some(2));
        } else {
          acknowledged := next;
        }
      case Kept =>
        if !ended {
          Fail(Protocol, Some(2));
        } else {
          kept := true;
        }
      case Stop(code) => Fail(FailureForStop(code), None);
      case _ => Fail(Protocol, Some(2));
    }

    /** The channel drains by a message and raises its low event if that crosses the threshold. */
    method OnDrain()
      requires Valid() && channel.drained < |channel.log|
      modifies this`paused, channel
      ensures Valid() && State() == SenderDrains(old(State()))
    {
      hide Layout;
      var low := channel.Drain();
      if low {
        paused := false;
      }
    }

    method OnClosed()
      requires Valid()
      modifies this`failure, channel
      ensures Valid() && State() == SenderOnClosed(old(State()))
    {
      if !kept {
        Fail(Closed, None);
      }
    }

    method OnAbort()
      requires Valid()
      modifies this`failure, channel
      ensures Valid() && State() == SenderCancels(old(State()))
    {
      Fail(Cancelled, Some(1));
    }

    /** The encoder's next record is in. */
    method Load(record: Blob)
      requires Valid() && position == |current| && failure.None? && !ended
      requires 0 < |record| && sent + |record| <= |config.envelope|
      requires record == config.envelope[sent..sent + |record|]
      modifies this`current, this`position
      ensures Valid() && CanLoad(config, old(State()), sent + |record|)
      ensures State() == old(State()).(loaded := sent + |record|)
    {
      current, position := record, 0;
    }

    method LoadFails()
      requires Valid()
      modifies this`failure, channel
      ensures Valid() && State() == SenderFail(old(State()), Source, Some(2))
    {
      Fail(Source, Some(2));
    }

    /** Sends the next `take` bytes of the current record. */
    method SendChunk(take: nat)
      requires Valid() && CanSend(config, State(), take)
      modifies this`sent, this`position, this`paused, this`failure, channel
      ensures Valid() && State() == SenderSends(config, old(State()), take)
    {
      hide Layout, Buffered, Channel.Valid, ValidFrame, FrameSizeOf, CanSend, ComesNext, ValidConfig;
      ChunkFits(config, State(), take);
      ghost var f := Data(sent, config.envelope[sent..sent + take]);
      NextSlice(current, position, config.envelope, sent, take);
      var message := EncodeData(sent, current[position..position + take]);
      var ok := channel.Send(message.value, f);
      if !ok {
        Fail(Closed, None);
        return;
      }
      sent := sent + take;
      position := position + take;
      if channel.bufferedAmount > HIGH_WATER {
        paused := true;
      }
    }

    /**
     One turn of the sending loop: a pacing rule has said how much may go. The protocol's window is a ceiling that no
     rule can lift; that nothing may go while the buffer is over its high-water mark, the rule itself has to say.
     */
    method SendNext(verdict: int) returns (take: nat)
      requires Valid() && failure.None? && !ended && position < |current| && sent < |config.envelope|
      requires FrameSizeOf(config) >= MIN_FRAME_BYTES && (paused ==> verdict <= 0)
      modifies this`sent, this`position, this`paused, this`failure, channel
      ensures Valid()
      ensures var wanted := Min(FrameSizeOf(config) - DATA_HEADER_BYTES,
                                Min(old(State()).loaded - old(sent), |config.envelope| - old(sent)));
              var ceiling := WINDOW - (old(sent) - old(acknowledged));
              take == if verdict <= 0 || ceiling <= 0 then 0 else Min(wanted, Min(verdict, ceiling))
      ensures take == 0 ==> State() == old(State())
      ensures take > 0 ==> CanSend(config, old(State()), take) && State() == SenderSends(config, old(State()), take)
    {
      var room := Min(config.maxMessage, FRAME_BYTES) - DATA_HEADER_BYTES;
      var wanted := Min(room, Min(|current| - position, |config.envelope| - sent));
      var allowed := Min(verdict, WINDOW - (sent - acknowledged));
      if allowed <= 0 {
        return 0;
      }
      take := Min(wanted, allowed);
      hide SenderSends, Layout, Buffered, Channel.Valid;
      SendChunk(take);
    }

    method SendEnd()
      requires Valid() && CanEnd(config, State())
      modifies this`ended, channel
      ensures Valid() && State() == SenderEnds(config, old(State()))
    {
      hide Layout, Buffered, Channel.Valid;
      var message := EncodeEnd(config.sha256, config.plaintext);
      var _ := channel.Send(message.value, End(config.sha256, config.plaintext));
      ended := true;
    }
  }

  class ReceiverEnd {
    const config: Config
    const channel: Channel
    var received: nat
    var written: nat
    var lastAck: nat
    var endSeen: bool
    var done: bool
    var failure: Option<Failure>
    var jobs: seq<Job>
    var finished: nat
    var running: bool

    ghost predicate Valid()
      reads this, channel
    {
      ValidConfig(config) && channel.Valid()
    }

    ghost function State(): ReceiverState
      reads this, channel
    {
      ReceiverState(received, written, lastAck, endSeen, done, failure, jobs, finished, running, channel.open, channel.log)
    }

    constructor (c: Config, channel: Channel)
      requires ValidConfig(c) && channel.Valid() && channel.log == []
      modifies channel
      ensures Valid() && config == c && this.channel == channel
      ensures State() == ReceiverStart(old(channel.open))
    {
      config, this.channel := c, channel;
      received, written, lastAck, endSeen, done, failure := 0, 0, 0, false, false, None;
      jobs, finished, running := [], 0, false;
      new;
      if !channel.open {
        Fail(Closed, None);
      }
    }

    method Fail(why: Failure, stop: Option<StopCode>)
      requires Valid()
      modifies this`failure, channel
      ensures Valid() && State() == ReceiverFail(old(State()), why, stop)
    {
      hide Layout, Buffered, Channel.Valid;
      if failure.Some? || done {
        return;
      }
      failure := Some(why);
      if stop.Some? {
        var message := EncodeStop(stop.value);
        var _ := channel.Send(message, Stop(stop.value));
      }
    }

    method OnFrame(bytes: Blob)
      requires Valid()
      modifies this`received, this`endSeen, this`jobs, this`failure, channel
      ensures Valid() && State() == ReceiverOnBytes(config, old(State()), bytes)
    {
      hide Layout, Buffered, DecodeFrame, Channel.Valid;
      if failure.Some? || done {
        return;
      }
      var frame := DecodeFrame(Sender, bytes);
      if frame.Err? {
        Fail(Protocol, Some(2));
        return;
      }
      match frame.value
      case Data(offset, chunk) =>
        var length := |chunk|;
        if endSeen || offset != received || received + length > |config.envelope| || received + length - lastAck > WINDOW {
          Fail(Protocol, Some(2));
        } else {
          received := received + length;
          jobs := jobs + [Write(chunk)];
        }
      case End(sha256, size) =>
        if endSeen || received != |config.envelope| {
          Fail(Protocol, Some(2));
        } else if size != config.plaintext {
          Fail(Verification, Some(2));
        } else {
          endSeen := true;
          jobs := jobs + [Finish(sha256, size)];
        }
      case Stop(code) => Fail(FailureForStop(code), None);
      case _ => Fail(Protocol, Some(2));
    }

    method OnClosed()
      requires Valid()
      modifies this`failure, channel
      ensures Valid() && State() == ReceiverOnClosed(old(State()))
    {
      Fail(Closed, None);
    }

    method OnAbort()
      requires Valid()
      modifies this`failure, channel
      ensures Valid() && State() == ReceiverCancels(old(State()))
    {
      Fail(Cancelled, Some(1));
    }

    /** The next step of the sink's queue, if nothing has failed. */
    method StartJob() returns (job: Option<Job>)
      requires Valid() && !running && finished <= |jobs|
      modifies this`running
      ensures Valid() && (job.Some? <==> CanStart(old(State())))
      ensures job.Some? ==> job.value == jobs[finished] && State() == old(State()).(running := true)
      ensures job.None? ==> State() == old(State())
    {
      if failure.Some? || finished == |jobs| {
        return None;
      }
      running := true;
      job := Some(jobs[finished]);
    }

    /** A write to the sink has succeeded: count it, and acknowledge when a mebibyte or the whole is written. */
    method WriteDone(length: nat) returns (ok: bool)
      requires Valid() && length > 0 && written + length <= |config.envelope| && lastAck <= written
      modifies this`written, this`lastAck, channel
      ensures Valid() && written == old(written) + length
      ensures var due := written - old(lastAck) >= ACK_EVERY || written == |config.envelope|;
        && lastAck == (if due then written else old(lastAck))
        && ok == (!due || old(channel.open))
        && channel.log == (if due && ok then old(channel.log) + [Ack(written)] else old(channel.log))
      ensures channel.open == old(channel.open) && channel.drained == old(channel.drained)
    {
      hide Layout, Buffered, Channel.Valid;
      written := written + length;
      ok := true;
      if written - lastAck >= ACK_EVERY || written == |config.envelope| {
        lastAck := written;
        var message := EncodeAck(written);
        ok := channel.Send(message.value, Ack(written));
      }
    }

    /** The sink has answered about the job that was running. */
    method FinishJob(outcome: Outcome)
      requires Valid() && running && finished < |jobs| && lastAck <= written
      requires jobs[finished].Write? ==> 0 < |jobs[finished].bytes| && written + |jobs[finished].bytes| <= |config.envelope|
      modifies this, channel
      ensures Valid() && State() == ReceiverFinishes(config, old(State()), outcome)
    {
      hide Layout, Buffered, Channel.Valid;
      running := false;
      match outcome
      case NoRoom => Fail(Storage, Some(3));
      case Refused => Fail(Verification, Some(2));
      case Done =>
        var job := jobs[finished];
        finished := finished + 1;
        match job
        case Write(bytes) =>
          var ok := WriteDone(|bytes|);
          if !ok {
            Fail(Closed, None);
          }
        case Finish(_, _) => EndDone();
    }

    /** The sink has kept the file: say so, whatever failed while it was at work. */
    method EndDone()
      requires Valid()
      modifies this`done, this`failure, channel
      ensures Valid()
      ensures State() == if old(channel.open) then ReceiverSends(old(State()), Kept).(done := true)
                         else ReceiverSends(old(State()), Kept)
    {
      KeptLayout();
      hide Layout, Buffered, Channel.Valid;
      var ok := channel.Send([4], Kept);
      if ok {
        done := true;
      } else {
        Fail(Closed, None);
      }
    }
  }

  lemma NextSlice(current: Blob, position: nat, envelope: Blob, sent: nat, take: nat)
    requires position + take <= |current| && ComesNext(current, position, envelope, sent)
    ensures current[position..position + take] == envelope[sent..sent + take]
    ensures ComesNext(current, position + take, envelope, sent + take)
  {
    var rest := current[position..];
    assert current[position..position + take] == rest[..take];
    assert current[position + take..] == rest[take..];
  }

  lemma ChunkFits(c: Config, s: SenderState, take: nat)
    requires ValidConfig(c) && CanSend(c, s, take)
    ensures s.sent + take <= |c.envelope| && take <= s.loaded - s.sent && ValidFrame(Data(s.sent, c.envelope[s.sent..s.sent + take]))
  {
  }

  lemma KeptLayout()
    ensures Layout(Kept) == [4]
  {
  }
}
