/** What each end of a transfer keeps whatever the other sends: no bytes can make it go wrong, only fail. */
module TransferPeers {
  import opened Wrappers
  import opened Bytes
  import opened Frames
  import opened Transfer

  // ---------------------------------------------------------------- the receiver against any sender

  function WrittenBy(jobs: seq<Job>): Blob {
    if |jobs| == 0 then []
    else
      var last := jobs[|jobs| - 1];
      WrittenBy(jobs[..|jobs| - 1]) + if last.Write? then last.bytes else []
  }

  /** What has been queued is what was received, within the announced size; the end comes last, and only behind all of it. */
  ghost predicate ReceiverKeeps(c: Config, r: ReceiverState) {
    && |WrittenBy(r.jobs)| == r.received <= |c.envelope|
    && (forall i :: 0 <= i < |r.jobs| && r.jobs[i].Finish? ==>
          i == |r.jobs| - 1 && r.endSeen && r.received == |c.envelope| && r.jobs[i].size == c.plaintext)
    && (forall i :: 0 <= i < |r.jobs| && r.jobs[i].Write? ==> |r.jobs[i].bytes| > 0)
  }

  /** The frames that a receiver still at work takes. */
  predicate ReceiverExpects(c: Config, r: ReceiverState, f: Frame) {
    match f
    case Data(offset, bytes) =>
      !r.endSeen && offset == r.received && r.received + |bytes| <= |c.envelope| && r.received + |bytes| <= r.lastAck + 8_388_608
    case End(_, size) => !r.endSeen && r.received == |c.envelope| && size == c.plaintext
    case _ => false
  }

  /** An end that names another size than the manifest is refused as not verified, any other unexpected frame as a breach. */
  predicate NamesOtherSize(c: Config, r: ReceiverState, f: Frame) {
    f.End? && !r.endSeen && r.received == |c.envelope| && f.size != c.plaintext
  }

  lemma OneMoreJob(jobs: seq<Job>, job: Job)
    ensures WrittenBy(jobs + [job]) == WrittenBy(jobs) + if job.Write? then job.bytes else []
  {
    assert (jobs + [job])[..|jobs|] == jobs;
  }

  /** What comes of a frame: it is queued if expected, and otherwise the receiver fails with the right reason and stop. */
  lemma ReceiverTakes(c: Config, r: ReceiverState, f: Frame)
    requires r.failure.None? && !r.done
    ensures
      var r' := ReceiverOnFrame(c, r, f);
      if ReceiverExpects(c, r, f) then
        && r' == r.(received := r'.received, jobs := r'.jobs, endSeen := r.endSeen || f.End?)
        && |r'.jobs| == |r.jobs| + 1 && r'.jobs[..|r.jobs|] == r.jobs
        && (f.Data? ==> r'.jobs[|r.jobs|] == Write(f.bytes) && r'.received == r.received + |f.bytes|)
        && (f.End? ==> r'.jobs[|r.jobs|] == Finish(f.sha256, f.size) && r'.received == r.received)
      else if f.Stop? then
        r' == r.(failure := Some(if f.code == 1 then PeerCancelled else if f.code == 2 then PeerFailed else PeerStorage))
      else
        r' == r.(failure := Some(if NamesOtherSize(c, r, f) then Verification else Protocol),
                 log := if r.open then r.log + [Stop(2)] else r.log)
  {
  }

  lemma QueuedKeeps(c: Config, r: ReceiverState, r': ReceiverState, job: Job)
    requires ReceiverKeeps(c, r) && !r.endSeen && r'.jobs == r.jobs + [job]
    requires if job.Write? then 0 < |job.bytes| && r'.received == r.received + |job.bytes| <= |c.envelope|
             else r'.received == r.received == |c.envelope| && r'.endSeen && job.size == c.plaintext
    ensures ReceiverKeeps(c, r')
  {
    OneMoreJob(r.jobs, job);
    hide WrittenBy;
    forall i | 0 <= i < |r.jobs|
      ensures r'.jobs[i] == r.jobs[i]
    {
    }
  }

  lemma FrameKeeps(c: Config, r: ReceiverState, f: Frame)
    requires ReceiverKeeps(c, r) && (f.Data? ==> |f.bytes| > 0)
    ensures ReceiverKeeps(c, ReceiverOnFrame(c, r, f))
  {
    hide WrittenBy;
    if r.failure.None? && !r.done {
      ReceiverTakes(c, r, f);
      if ReceiverExpects(c, r, f) {
        var r' := ReceiverOnFrame(c, r, f);
        assert r'.jobs == r.jobs + [r'.jobs[|r.jobs|]];
        QueuedKeeps(c, r, r', r'.jobs[|r.jobs|]);
      }
    }
  }

  /**
   Whatever bytes arrive, the receiver keeps to what it announced. Once it has failed or finished they change nothing;
   bytes that are no frame are a breach.
   */
  lemma ReceiverKeepsTo(c: Config, r: ReceiverState, bytes: Blob)
    requires ReceiverKeeps(c, r)
    ensures ReceiverKeeps(c, ReceiverOnBytes(c, r, bytes))
    ensures r.failure.Some? || r.done ==> ReceiverOnBytes(c, r, bytes) == r
    ensures r.failure.None? && !r.done && DecodeFrame(Sender, bytes).Err? ==>
      ReceiverOnBytes(c, r, bytes) == r.(failure := Some(Protocol), log := if r.open then r.log + [Stop(2)] else r.log)
  {
    hide WrittenBy, DecodeFrame, Layout, ReceiverOnFrame;
    if DecodeFrame(Sender, bytes).Ok? {
      var f := DecodeFrame(Sender, bytes).value;
      DecodesExactly(Sender, bytes, f);
      FrameKeeps(c, r, f);
    }
  }

  // ---------------------------------------------------------------- the sender against any receiver

  /** The frames that a sender still at work takes: an acknowledgement that moves forward within what it sent, KEPT behind END. */
  predicate SenderExpects(s: SenderState, f: Frame) {
    match f
    case Ack(next) => s.acknowledged < next <= s.sent
    case Kept => s.ended
    case _ => false
  }

  lemma SenderTakes(s: SenderState, f: Frame)
    requires s.failure.None? && !s.kept
    ensures
      var s' := SenderOnFrame(s, f);
      if SenderExpects(s, f) then (if f.Ack? then s' == s.(acknowledged := f.next) else s' == s.(kept := true))
      else if f.Stop? then
        s' == s.(failure := Some(if f.code == 1 then PeerCancelled else if f.code == 2 then PeerFailed else PeerStorage))
      else s' == s.(failure := Some(Protocol), log := if s.open then s.log + [Stop(2)] else s.log)
  {
  }

  /** The counters and the promises of a sender, whatever it is told. */
  predicate SenderKeeps(s: SenderState) {
    s.acknowledged <= s.sent && (s.kept ==> s.ended)
  }

  /** Whatever bytes arrive, what is acknowledged only rises and stays within what was sent, and KEPT is believed only behind END. */
  lemma SenderKeepsTo(s: SenderState, bytes: Blob)
    requires SenderKeeps(s)
    ensures SenderKeeps(SenderOnBytes(s, bytes)) && SenderOnBytes(s, bytes).acknowledged >= s.acknowledged
    ensures s.failure.Some? || s.kept ==> SenderOnBytes(s, bytes) == s
    ensures s.failure.None? && !s.kept && DecodeFrame(Receiver, bytes).Err? ==>
      SenderOnBytes(s, bytes) == s.(failure := Some(Protocol), log := if s.open then s.log + [Stop(2)] else s.log)
  {
    hide DecodeFrame;
  }
}
