/** Every step of a transfer keeps the invariant, and what follows for every run. */
module TransferSafety {
  import opened Wrappers
  import opened Frames
  import opened Transfer
  import opened TransferSystem

  // ---------------------------------------------------------------- the sender's steps

  /** A frame appended to the sender's log leaves the earlier frames and their positions as they were. */
  lemma PositionsStay(s: SenderState, s': SenderState, f: Frame, i: nat)
    requires s'.log == s.log + [f] && i <= |s.log|
    requires if f.Data? then f.offset == s.sent else s'.sent == s.sent
    requires s'.sent == s.sent || forall j :: 0 <= j < |s.log| ==> s.log[j].Data?
    ensures Position(s', i) == Position(s, i)
  {
  }

  lemma SenderPushes(c: Config, s: SenderState, s': SenderState, f: Frame)
    requires SenderLog(c, s) && s'.log == s.log + [f]
    requires s.sent <= s'.sent <= |c.envelope| && (s.ended ==> s'.ended) && (s.failure.Some? ==> s'.failure.Some?)
    requires s'.sent != s.sent ==> f.Data?
    requires match f
             case Data(offset, bytes) =>
               && offset == s.sent && ValidFrame(f) && offset + |bytes| == s'.sent && bytes == c.envelope[offset..s'.sent]
               && forall i :: 0 <= i < |s.log| ==> s.log[i].Data?
             case End(sha256, size) =>
               && s'.ended && sha256 == c.sha256 && size == c.plaintext
               && forall i :: 0 <= i < |s.log| ==> s.log[i].Data?
             case Stop(_) => s'.failure.Some?
             case _ => false
    ensures SenderLog(c, s')
  {
    PositionsStay(s, s', f, 0);
    forall i | 0 <= i < |s'.log|
      ensures SenderFrame(c, s', i)
    {
      if i < |s.log| {
        assert SenderFrame(c, s, i);
        PositionsStay(s, s', f, i + 1);
        assert s'.log[i] == s.log[i];
      }
    }
  }

  /** While the sender is still sending, it has sent nothing but data. */
  lemma OnlyData(c: Config, s: SenderState)
    requires SenderLog(c, s) && s.failure.None? && !s.ended
    ensures forall i :: 0 <= i < |s.log| ==> s.log[i].Data?
  {
    forall i | 0 <= i < |s.log|
      ensures s.log[i].Data?
    {
      assert SenderFrame(c, s, i);
    }
  }

  /** What the receiver relies on in the sender's state. */
  lemma ReceiverStays(c: Config, x: System, s': SenderState)
    requires Inv(c, x)
    requires s'.acknowledged == x.s.acknowledged && x.s.sent <= s'.sent && x.s.drained <= s'.drained && (x.s.ended ==> s'.ended)
    requires x.s.log <= s'.log && forall i :: 0 <= i <= |x.s.log| ==> Position(s', i) == Position(x.s, i)
    requires (x.s.failure.Some? ==> s'.failure.Some?) && s'.kept == x.s.kept
    ensures ReceiverCounts(c, s', x.r, x.toReceiver) && ReceiverJobs(s', x.r) && ReceiverLog(s', x.r, x.toSender)
    ensures Trust(c, x.(s := s'))
  {
    forall i | 0 <= i < |x.r.log|
      ensures ReceiverFrame(s', x.r, i)
    {
      assert ReceiverFrame(x.s, x.r, i);
    }
  }

  lemma SenderFails(c: Config, x: System, failure: Failure, stop: Option<StopCode>)
    requires Inv(c, x) && failure != Protocol
    ensures Inv(c, x.(s := SenderFail(x.s, failure, stop)))
  {
    var s' := SenderFail(x.s, failure, stop);
    if x.s.failure.None? {
      if stop.Some? && x.s.open {
        FailedPush(c, x.s, s', Stop(stop.value));
      } else {
        FailedQuietly(c, x.s, s');
      }
      hide SenderLog, SenderFrame, BufferBound, SinkHolds;
      ReceiverStays(c, x, s');
    }
  }

  lemma FailedPush(c: Config, s: SenderState, s': SenderState, stop: Frame)
    requires SenderLog(c, s) && BufferBound(s) && SenderCounts(c, s) && s.failure.None? && stop.Stop?
    requires s' == s.(log := s.log + [stop], failure := s'.failure) && s'.failure.Some?
    ensures SenderLog(c, s') && BufferBound(s')
    ensures forall i :: 0 <= i <= |s.log| ==> Position(s', i) == Position(s, i)
  {
    SenderPushes(c, s, s', stop);
    hide SenderLog, SenderFrame;
    BufferedPush(s.log, stop, s.drained);
    forall i | 0 <= i <= |s.log|
      ensures Position(s', i) == Position(s, i)
    {
      PositionsStay(s, s', stop, i);
    }
  }

  lemma FailedQuietly(c: Config, s: SenderState, s': SenderState)
    requires SenderLog(c, s) && BufferBound(s) && s.failure.None?
    requires s' == s.(failure := s'.failure) && s'.failure.Some?
    ensures SenderLog(c, s') && BufferBound(s')
  {
    forall i | 0 <= i < |s'.log|
      ensures SenderFrame(c, s', i)
    {
      assert SenderFrame(c, s, i);
    }
  }

  lemma DataSent(c: Config, s: SenderState, take: nat)
    requires ValidConfig(c) && SenderCounts(c, s) && SenderLog(c, s) && BufferBound(s) && CanSend(c, s, take) && s.open
    ensures
      var s' := SenderSends(c, s, take);
      && SenderCounts(c, s') && SenderLog(c, s') && BufferBound(s')
      && forall i :: 0 <= i <= |s.log| ==> Position(s', i) == Position(s, i)
  {
    var s' := SenderSends(c, s, take);
    var f := Data(s.sent, c.envelope[s.sent..s.sent + take]);
    OnlyData(c, s);
    SenderPushes(c, s, s', f);
    hide SenderLog, SenderFrame;
    BufferedPush(s.log, f, s.drained);
    forall i | 0 <= i <= |s.log|
      ensures Position(s', i) == Position(s, i)
    {
      PositionsStay(s, s', f, i);
    }
  }

  lemma SendDataKeeps(c: Config, x: System, take: nat)
    requires ValidConfig(c) && Inv(c, x) && CanSend(c, x.s, take)
    ensures Inv(c, x.(s := SenderSends(c, x.s, take)))
  {
    if x.s.open {
      DataSent(c, x.s, take);
      hide SenderLog, SenderFrame, BufferBound, SinkHolds;
      ReceiverStays(c, x, SenderSends(c, x.s, take));
    } else {
      SenderFails(c, x, Closed, None);
    }
  }

  lemma EndSent(c: Config, s: SenderState)
    requires ValidConfig(c) && SenderCounts(c, s) && SenderLog(c, s) && BufferBound(s) && CanEnd(c, s)
    ensures
      var s' := SenderEnds(c, s);
      && SenderCounts(c, s') && SenderLog(c, s') && BufferBound(s')
      && forall i :: 0 <= i <= |s.log| ==> Position(s', i) == Position(s, i)
  {
    var s' := SenderEnds(c, s);
    var f := End(c.sha256, c.plaintext);
    OnlyData(c, s);
    if s.open {
      SenderPushes(c, s, s', f);
      hide SenderLog, SenderFrame;
      BufferedPush(s.log, f, s.drained);
      forall i | 0 <= i <= |s.log|
        ensures Position(s', i) == Position(s, i)
      {
        PositionsStay(s, s', f, i);
      }
    } else {
      forall i | 0 <= i < |s'.log|
        ensures SenderFrame(c, s', i)
      {
        assert SenderFrame(c, s, i);
      }
    }
  }

  lemma SendEndKeeps(c: Config, x: System)
    requires ValidConfig(c) && Inv(c, x) && CanEnd(c, x.s)
    ensures Inv(c, x.(s := SenderEnds(c, x.s)))
  {
    EndSent(c, x.s);
    hide SenderLog, SenderFrame, BufferBound, SinkHolds;
    ReceiverStays(c, x, SenderEnds(c, x.s));
  }

  /** A change to the sender that touches neither its log nor what it sent. */
  lemma SenderIdles(c: Config, x: System, s': SenderState)
    requires Inv(c, x) && SenderCounts(c, s') && BufferBound(s')
    requires s' == x.s.(loaded := s'.loaded, open := s'.open, drained := s'.drained, paused := s'.paused)
    requires x.s.drained <= s'.drained
    ensures Inv(c, x.(s := s'))
  {
    forall i | 0 <= i < |s'.log|
      ensures SenderFrame(c, s', i)
    {
      assert SenderFrame(c, x.s, i);
    }
    hide BufferBound, SinkHolds;
    ReceiverStays(c, x, s');
  }

  lemma LoadKeeps(c: Config, x: System, upTo: nat)
    requires Inv(c, x) && CanLoad(c, x.s, upTo)
    ensures Inv(c, x.(s := x.s.(loaded := upTo)))
  {
    SenderIdles(c, x, x.s.(loaded := upTo));
  }

  lemma DrainKeeps(c: Config, x: System)
    requires Inv(c, x) && x.s.drained < |x.s.log|
    ensures Inv(c, x.(s := SenderDrains(x.s)))
  {
    SenderIdles(c, x, SenderDrains(x.s));
  }

  // ---------------------------------------------------------------- the sender hears the receiver

  /** An acknowledgement that arrives is always one the sender accepts. */
  lemma AckArrives(c: Config, x: System)
    requires Inv(c, x) && x.toSender < |x.r.log| && x.r.log[x.toSender].Ack?
    ensures x.s.acknowledged < x.r.log[x.toSender].next <= x.r.lastAck <= x.s.sent
  {
    assert ReceiverFrame(x.s, x.r, x.toSender);
  }

  lemma KeptArrives(c: Config, x: System)
    requires Inv(c, x) && x.toSender < |x.r.log| && x.r.log[x.toSender].Kept?
    ensures x.s.ended && (x.s.failure.None? ==> FileKept(c, x.r, x.sink))
  {
    assert ReceiverFrame(x.s, x.r, x.toSender);
  }

  lemma AckKeepsSender(c: Config, s: SenderState, next: nat)
    requires SenderCounts(c, s) && SenderLog(c, s) && BufferBound(s) && s.acknowledged < next <= s.sent
    ensures
      var s' := s.(acknowledged := next);
      SenderCounts(c, s') && SenderLog(c, s') && BufferBound(s')
  {
    var s' := s.(acknowledged := next);
    forall i | 0 <= i < |s'.log|
      ensures SenderFrame(c, s', i)
    {
      assert SenderFrame(c, s, i);
    }
  }

  lemma KeptKeepsSender(c: Config, s: SenderState)
    requires SenderCounts(c, s) && SenderLog(c, s) && BufferBound(s)
    ensures
      var s' := s.(kept := true);
      SenderCounts(c, s') && SenderLog(c, s') && BufferBound(s')
  {
    var s' := s.(kept := true);
    forall i | 0 <= i < |s'.log|
      ensures SenderFrame(c, s', i)
    {
      assert SenderFrame(c, s, i);
    }
  }

  /** The receiver's log is read one frame further. */
  lemma LogRead(s: SenderState, s': SenderState, r: ReceiverState, toSender: nat)
    requires ReceiverLog(s, r, toSender) && toSender < |r.log|
    requires s'.acknowledged == s.acknowledged || r.log[toSender] == Ack(s'.acknowledged)
    ensures ReceiverLog(s', r, toSender + 1)
  {
    forall i | 0 <= i < |r.log|
      ensures ReceiverFrame(s', r, i)
      ensures toSender + 1 <= i && r.log[i].Ack? ==> s'.acknowledged < r.log[i].next
    {
      assert ReceiverFrame(s, r, i);
    }
  }

  /** The frame read was the stop that was on its way, or it still is. */
  lemma TrustRead(c: Config, x: System, s': SenderState)
    requires Trust(c, x) && x.toSender < |x.r.log|
    requires (x.s.failure.Some? ==> s'.failure.Some?) && (s'.kept ==> FileKept(c, x.r, x.sink))
    requires x.r.log[x.toSender].Stop? && !x.s.kept ==> s'.failure.Some?
    ensures Trust(c, x.(s := s', toSender := x.toSender + 1))
  {
    var n := x.toSender;
    assert x.s.kept ==> FileKept(c, x.r, x.sink);
    forall i | n < i <= |x.r.log| && StopBefore(x.r, n, i) && !FileKept(c, x.r, x.sink)
      ensures s'.failure.Some? || StopBefore(x.r, n + 1, i)
    {
    }
  }

  lemma DeliverToSenderKeeps(c: Config, x: System)
    requires Inv(c, x) && x.toSender < |x.r.log|
    ensures Inv(c, x.(s := SenderOnFrame(x.s, x.r.log[x.toSender]), toSender := x.toSender + 1))
    ensures x.s.failure.None? && !x.r.log[x.toSender].Stop? ==> SenderOnFrame(x.s, x.r.log[x.toSender]).failure.None?
  {
    var f := x.r.log[x.toSender];
    var s' := SenderOnFrame(x.s, f);
    assert ReceiverFrame(x.s, x.r, x.toSender);
    if x.s.failure.Some? || x.s.kept {
      LogRead(x.s, s', x.r, x.toSender);
      TrustRead(c, x, s');
    } else {
      match f
      case Ack(next) =>
        AckArrives(c, x);
        AckKeepsSender(c, x.s, next);
        hide SenderLog, BufferBound, Trust, ReceiverLog;
        LogRead(x.s, s', x.r, x.toSender);
        TrustRead(c, x, s');
      case Kept =>
        KeptArrives(c, x);
        KeptKeepsSender(c, x.s);
        hide SenderLog, BufferBound, Trust, ReceiverLog;
        LogRead(x.s, s', x.r, x.toSender);
        TrustRead(c, x, s');
      case Stop(code) =>
        SenderFails(c, x, FailureForStop(code), None);
        hide SenderLog, BufferBound, Trust, ReceiverLog;
        LogRead(x.s, s', x.r, x.toSender);
        TrustRead(c, x, s');
      case _ =>
        assert false;
    }
  }

  // ---------------------------------------------------------------- the receiver's steps

  lemma ReceiverFails(c: Config, x: System, failure: Failure, stop: Option<StopCode>)
    requires Inv(c, x) && failure != Protocol
    requires stop.Some? || !x.r.open || x.s.failure.Some?
    ensures Inv(c, x.(r := ReceiverFail(x.r, failure, stop)))
  {
    var r' := ReceiverFail(x.r, failure, stop);
    if x.r.failure.None? && !x.r.done {
      hide SenderLog, BufferBound;
      ReceiverAppends(x.s, x.r, r', x.toSender);
      assert stop.Some? && x.r.open ==> r'.log[|x.r.log|].Stop?;
    }
  }

  /** The receiver's log grows by at most one frame, which fits its new state. */
  lemma ReceiverAppends(s: SenderState, r: ReceiverState, r': ReceiverState, toSender: nat)
    requires ReceiverLog(s, r, toSender) && s.acknowledged <= r.lastAck <= r'.lastAck
    requires (r.done ==> r'.done) && (r.failure.Some? ==> r'.failure.Some?)
    requires r'.log == r.log || (|r'.log| == |r.log| + 1 && r'.log[..|r.log|] == r.log)
    requires r'.log != r.log ==>
      match r'.log[|r.log|]
      case Ack(next) => r.lastAck < next == r'.lastAck
      case Kept => r'.done
      case Stop(_) => r'.failure.Some?
      case _ => false
    ensures ReceiverLog(s, r', toSender)
  {
    forall i | 0 <= i < |r'.log|
      ensures ReceiverFrame(s, r', i)
      ensures toSender <= i && r'.log[i].Ack? ==> s.acknowledged < r'.log[i].next
    {
      forall j | 0 <= j < |r.log|
        ensures ReceiverFrame(s, r, j) && r'.log[j] == r.log[j]
      {
        assert r'.log[..|r.log|][j] == r.log[j];
      }
    }
  }

  /** Nothing but a stop follows END. */
  lemma StopsAfterEnd(c: Config, x: System)
    requires Inv(c, x) && x.r.endSeen && x.toReceiver < |x.s.log|
    ensures x.s.log[x.toReceiver].Stop?
  {
    var last := |x.r.jobs| - 1;
    assert x.r.jobs[last] == JobOf(x.s.log[last]);
    assert SenderFrame(c, x.s, last);
  }

  /** A data frame that arrives is always the one the receiver expects, within its window. */
  lemma DataArrives(c: Config, x: System)
    requires Inv(c, x) && x.toReceiver < x.s.drained && x.s.log[x.toReceiver].Data? && x.r.failure.None? && !x.r.done
    ensures
      var f := x.s.log[x.toReceiver];
      && !x.r.endSeen && f.offset == x.r.received && f.offset + |f.bytes| <= x.s.sent <= |c.envelope|
      && |f.bytes| > 0 && f.offset + |f.bytes| - x.r.lastAck <= WINDOW
      && Position(x.s, x.toReceiver + 1) == f.offset + |f.bytes|
  {
    assert SenderFrame(c, x.s, x.toReceiver);
    if x.r.endSeen {
      StopsAfterEnd(c, x);
    }
  }

  /** END always arrives after every byte, once, and names the file. */
  lemma EndArrives(c: Config, x: System)
    requires Inv(c, x) && x.toReceiver < x.s.drained && x.s.log[x.toReceiver].End? && x.r.failure.None? && !x.r.done
    ensures x.s.log[x.toReceiver] == End(c.sha256, c.plaintext) && x.s.ended
    ensures !x.r.endSeen && x.r.received == |c.envelope| == x.s.sent
  {
    assert SenderFrame(c, x.s, x.toReceiver);
    if x.r.endSeen {
      StopsAfterEnd(c, x);
    }
  }

  lemma Queued(c: Config, x: System, r': ReceiverState)
    requires Inv(c, x) && x.toReceiver < x.s.drained && x.r.failure.None? && !x.r.done
    requires var f := x.s.log[x.toReceiver];
      && (f.Data? || f.End?)
      && r' == x.r.(jobs := x.r.jobs + [JobOf(f)], received := Position(x.s, x.toReceiver + 1), endSeen := x.r.endSeen || f.End?)
      && !x.r.endSeen && x.r.received <= r'.received <= x.s.sent && (f.End? ==> x.s.ended)
    ensures Inv(c, x.(r := r', toReceiver := x.toReceiver + 1))
  {
    hide SenderLog, BufferBound, Trust, Position;
    ReceiverAppends(x.s, x.r, r', x.toSender);
    TrustStays(c, x, r', x.sink, x.toReceiver + 1);
  }

  /** The receiver moves on without failing, finishing or sending. */
  lemma TrustStays(c: Config, x: System, r': ReceiverState, sink': Sink, toReceiver': nat)
    requires Trust(c, x) && r'.log == x.r.log && r'.failure == x.r.failure && r'.done == x.r.done && r'.open == x.r.open
    requires FileKept(c, x.r, x.sink) ==> sink' == x.sink
    ensures Trust(c, x.(r := r', sink := sink', toReceiver := toReceiver'))
  {
    forall n: nat | StopBefore(x.r, x.toSender, n)
      ensures StopBefore(r', x.toSender, n)
    {
    }
  }

  lemma DeliverToReceiverKeeps(c: Config, x: System)
    requires Inv(c, x) && x.toReceiver < x.s.drained
    ensures Inv(c, x.(r := ReceiverOnFrame(c, x.r, x.s.log[x.toReceiver]), toReceiver := x.toReceiver + 1))
    ensures x.r.failure.None? && !x.s.log[x.toReceiver].Stop?
        ==> ReceiverOnFrame(c, x.r, x.s.log[x.toReceiver]).failure.None?
  {
    var f := x.s.log[x.toReceiver];
    var r' := ReceiverOnFrame(c, x.r, f);
    assert SenderFrame(c, x.s, x.toReceiver);
    if x.r.failure.Some? || x.r.done {
      hide SenderLog, BufferBound, Trust, ReceiverLog;
      TrustStays(c, x, x.r, x.sink, x.toReceiver + 1);
    } else {
      match f
      case Data(_, _) =>
        DataArrives(c, x);
        Queued(c, x, r');
      case End(_, _) =>
        EndArrives(c, x);
        assert Position(x.s, x.toReceiver + 1) == x.s.sent by { AfterEnd(c, x.s, x.toReceiver); }
        Queued(c, x, r');
      case Stop(code) =>
        ReceiverFails(c, x, FailureForStop(code), None);
        hide SenderLog, BufferBound, Trust, ReceiverLog;
        TrustStays(c, x.(r := r'), r', x.sink, x.toReceiver + 1);
      case _ =>
        assert false;
    }
  }

  lemma AfterEnd(c: Config, s: SenderState, i: nat)
    requires SenderLog(c, s) && i < |s.log| && s.log[i].End?
    ensures Position(s, i + 1) == s.sent
  {
    assert SenderFrame(c, s, i);
  }

  lemma StartJobKeeps(c: Config, x: System)
    requires Inv(c, x) && CanStart(x.r)
    ensures Inv(c, x.(r := x.r.(running := true)))
  {
    var r' := x.r.(running := true);
    hide SenderLog, BufferBound, Trust, Position;
    ReceiverAppends(x.s, x.r, r', x.toSender);
    TrustStays(c, x, r', x.sink, x.toReceiver);
  }

  lemma IdleReceiver(c: Config, x: System)
    requires Inv(c, x) && x.r.running
    ensures Inv(c, x.(r := x.r.(running := false)))
  {
    var r' := x.r.(running := false);
    hide SenderLog, BufferBound, Trust, Position;
    ReceiverAppends(x.s, x.r, r', x.toSender);
    TrustStays(c, x, r', x.sink, x.toReceiver);
  }

  /** Where the envelope stands when the job that is running is done. */
  lemma JobDone(c: Config, x: System)
    requires Inv(c, x) && x.r.running
    ensures
      match x.r.jobs[x.r.finished]
      case Write(bytes) =>
        && |bytes| > 0 && x.r.written + |bytes| == Position(x.s, x.r.finished + 1) <= x.r.received
        && bytes == c.envelope[x.r.written..x.r.written + |bytes|]
      case Finish(_, _) => x.r.endSeen && x.r.finished + 1 == |x.r.jobs| && x.r.written == |c.envelope| == Position(x.s, x.r.finished + 1)
  {
    var n := x.r.finished;
    assert x.r.jobs[n] == JobOf(x.s.log[n]);
    assert SenderFrame(c, x.s, n);
    if x.s.log[n].End? {
      assert n + 1 < |x.s.log| ==> x.s.log[n + 1].Stop?;
    } else {
      PositionsRise(c, x.s, n + 1, |x.r.jobs|);
    }
  }

  lemma {:induction false} PositionsRise(c: Config, s: SenderState, i: nat, j: nat)
    requires SenderLog(c, s) && SenderCounts(c, s) && i <= j <= |s.log|
    ensures Position(s, i) <= Position(s, j) <= s.sent
  {
    if j < |s.log| {
      assert SenderFrame(c, s, j);
    }
    if i < j {
      assert SenderFrame(c, s, j - 1);
      PositionsRise(c, s, i, j - 1);
    }
  }

  lemma WriteDone(c: Config, x: System)
    requires Inv(c, x) && x.r.running && x.r.jobs[x.r.finished].Write?
    ensures Inv(c, x.(r := ReceiverFinishes(c, x.r, Done), sink := SinkAfter(x.sink, x.r.jobs[x.r.finished], Done)))
  {
    JobDone(c, x);
    hide SenderLog, BufferBound, Position, Buffered, SinkHolds, ReceiverCounts, ReceiverJobs, ReceiverLog, Trust;
    var bytes := x.r.jobs[x.r.finished].bytes;
    var r' := ReceiverFinishes(c, x.r, Done);
    var sink' := SinkAfter(x.sink, x.r.jobs[x.r.finished], Done);
    WriteCounts(c, x.s, x.r, x.toReceiver);
    WriteHolds(c, x.r, x.sink);
    WriteTells(c, x.s, x.r, x.toReceiver, x.toSender);
    WriteTrusted(c, x, r', sink');
  }

  lemma WriteHolds(c: Config, r: ReceiverState, sink: Sink)
    requires SinkHolds(c, r, sink) && r.running && r.finished < |r.jobs| && r.jobs[r.finished].Write? && !r.done
    requires var bytes := r.jobs[r.finished].bytes;
      r.written + |bytes| <= |c.envelope| && bytes == c.envelope[r.written..r.written + |bytes|]
    requires r.finished + 1 == |r.jobs| ==> !r.endSeen
    ensures SinkHolds(c, ReceiverFinishes(c, r, Done), SinkAfter(sink, r.jobs[r.finished], Done))
  {
    var bytes := r.jobs[r.finished].bytes;
    assert c.envelope[..r.written] + bytes == c.envelope[..r.written + |bytes|];
  }

  lemma WriteTells(c: Config, s: SenderState, r: ReceiverState, toReceiver: nat, toSender: nat)
    requires ReceiverLog(s, r, toSender) && ReceiverCounts(c, s, r, toReceiver) && r.running && r.jobs[r.finished].Write?
    requires |r.jobs[r.finished].bytes| > 0
    ensures ReceiverLog(s, ReceiverFinishes(c, r, Done), toSender)
  {
    hide ReceiverLog;
    ReceiverAppends(s, r, ReceiverFinishes(c, r, Done), toSender);
  }

  lemma WriteCounts(c: Config, s: SenderState, r: ReceiverState, toReceiver: nat)
    requires ReceiverCounts(c, s, r, toReceiver) && ReceiverJobs(s, r) && r.running && r.jobs[r.finished].Write?
    requires r.written + |r.jobs[r.finished].bytes| == Position(s, r.finished + 1) <= r.received
    ensures ReceiverCounts(c, s, ReceiverFinishes(c, r, Done), toReceiver) && ReceiverJobs(s, ReceiverFinishes(c, r, Done))
  {
    hide Position;
  }

  lemma WriteTrusted(c: Config, x: System, r': ReceiverState, sink': Sink)
    requires Trust(c, x) && x.r.running && !x.r.done && r'.open == x.r.open && !r'.done
    requires x.r.log <= r'.log && forall i :: |x.r.log| <= i < |r'.log| ==> r'.log[i].Ack?
    requires r'.failure == x.r.failure || (r'.failure.Some? && !x.r.open)
    ensures Trust(c, x.(r := r', sink := sink'))
  {
    forall n: nat | StopBefore(x.r, x.toSender, n)
      ensures StopBefore(r', x.toSender, n)
    {
      var j :| x.toSender <= j < n && j < |x.r.log| && x.r.log[j].Stop?;
      assert r'.log[j].Stop?;
    }
  }

  lemma EndDone(c: Config, x: System)
    requires Inv(c, x) && x.r.running && x.r.jobs[x.r.finished].Finish?
    ensures Inv(c, x.(r := ReceiverFinishes(c, x.r, Done), sink := SinkAfter(x.sink, x.r.jobs[x.r.finished], Done)))
  {
    JobDone(c, x);
    var r' := ReceiverFinishes(c, x.r, Done);
    var sink' := x.sink.(kept := true);
    assert c.envelope[..|c.envelope|] == c.envelope;
    hide SenderLog, BufferBound, Position, Buffered;
    ReceiverAppends(x.s, x.r, r', x.toSender);
    EndTrusted(c, x, r', sink');
  }

  /** KEPT goes out after any stop: it is believed only if there was none. */
  lemma EndTrusted(c: Config, x: System, r': ReceiverState, sink': Sink)
    requires Trust(c, x) && x.r.running && !x.r.done && r'.open == x.r.open
    requires x.toSender <= |x.r.log|
    requires x.r.open ==> r'.log == x.r.log + [Kept] && r'.failure == x.r.failure && r'.done
    requires !x.r.open ==> r'.log == x.r.log && r'.failure.Some? && !r'.done
    requires r'.failure.None? ==> sink' == Sink(c.envelope, true, false)
    ensures Trust(c, x.(r := r', sink := sink'))
  {
    forall n: nat | StopBefore(x.r, x.toSender, n)
      ensures StopBefore(r', x.toSender, n)
    {
      var j :| x.toSender <= j < n && j < |x.r.log| && x.r.log[j].Stop?;
      assert r'.log[j].Stop?;
    }
  }

  lemma FinishJobKeeps(c: Config, x: System, outcome: Outcome)
    requires Inv(c, x) && x.r.running
    ensures Inv(c, x.(r := ReceiverFinishes(c, x.r, outcome), sink := SinkAfter(x.sink, x.r.jobs[x.r.finished], outcome)))
  {
    match outcome
    case Done =>
      if x.r.jobs[x.r.finished].Write? {
        WriteDone(c, x);
      } else {
        EndDone(c, x);
      }
    case Refused =>
      IdleReceiver(c, x);
      ReceiverFails(c, x.(r := x.r.(running := false)), Verification, Some(2));
    case NoRoom =>
      IdleReceiver(c, x);
      ReceiverFails(c, x.(r := x.r.(running := false)), Storage, Some(3));
  }

  lemma AbortKeeps(c: Config, x: System)
    requires Inv(c, x) && x.r.failure.Some? && !x.r.running
    ensures Inv(c, x.(sink := Sink([], false, true)))
  {
    hide SenderLog, BufferBound, Trust, Position, ReceiverLog, ReceiverJobs;
    TrustStays(c, x, x.r, Sink([], false, true), x.toReceiver);
  }

  lemma ReceiverChannelKeeps(c: Config, x: System)
    requires Inv(c, x)
    ensures Inv(c, x.(r := x.r.(open := false)))
  {
    var r' := x.r.(open := false);
    hide SenderLog, BufferBound, Position;
    ReceiverAppends(x.s, x.r, r', x.toSender);
    forall n: nat | StopBefore(x.r, x.toSender, n)
      ensures StopBefore(r', x.toSender, n)
    {
    }
  }

  // ---------------------------------------------------------------- every step, every run

  lemma StepKeeps(c: Config, x: System, step: Step)
    requires ValidConfig(c) && Inv(c, x) && Enabled(c, x, step)
    ensures Inv(c, Apply(c, x, step))
  {
    hide Inv;
    match step
    case Load(upTo) => LoadKeeps(c, x, upTo);
    case LoadFails => SenderFails(c, x, Source, Some(2));
    case SendData(take) => SendDataKeeps(c, x, take);
    case SendEnd => SendEndKeeps(c, x);
    case Drain => DrainKeeps(c, x);
    case DeliverToReceiver => DeliverToReceiverKeeps(c, x);
    case StartJob => StartJobKeeps(c, x);
    case FinishJob(outcome) => FinishJobKeeps(c, x, outcome);
    case AbortSink => AbortKeeps(c, x);
    case DeliverToSender => DeliverToSenderKeeps(c, x);
    case SenderCancel => SenderFails(c, x, Cancelled, Some(1));
    case ReceiverCancel => ReceiverFails(c, x, Cancelled, Some(1));
    case SenderChannelCloses => SenderChannelKeeps(c, x);
    case ReceiverChannelCloses => ReceiverChannelKeeps(c, x);
    case SenderHearsClose =>
      if !x.s.kept {
        SenderFails(c, x, Closed, None);
      }
    case ReceiverHearsClose => ReceiverFails(c, x, Closed, None);
  }

  lemma SenderChannelKeeps(c: Config, x: System)
    requires Inv(c, x)
    ensures Inv(c, x.(s := x.s.(open := false)))
  {
    SenderIdles(c, x, x.s.(open := false));
  }

  lemma StartsWell(c: Config, senderOpen: bool, receiverOpen: bool)
    requires ValidConfig(c)
    ensures Inv(c, Start(c, senderOpen, receiverOpen))
  {
    var x := Start(c, senderOpen, receiverOpen);
    assert c.envelope[..0] == [];
    assert Buffered(x.s.log, 0) <= 2;
  }

  lemma RunStep(c: Config, states: seq<System>, steps: seq<Step>, i: nat)
    requires IsRun(c, states, steps) && i < |steps|
    ensures |states| == |steps| + 1 && Enabled(c, states[i], steps[i]) && states[i + 1] == Apply(c, states[i], steps[i])
  {
    hide Enabled, Apply, Start;
  }

  lemma RunLength(c: Config, states: seq<System>, steps: seq<Step>)
    requires IsRun(c, states, steps)
    ensures |states| == |steps| + 1
  {
    hide Enabled, Apply, Start;
  }

  lemma RunStarts(c: Config, states: seq<System>, steps: seq<Step>)
    requires ValidConfig(c) && IsRun(c, states, steps)
    ensures |states| > 0 && Inv(c, states[0])
  {
    hide Enabled, Apply, Start, Inv;
    var a, b :| states[0] == Start(c, a, b);
    StartsWell(c, a, b);
  }

  lemma {:induction false} RunKeeps(c: Config, states: seq<System>, steps: seq<Step>, i: nat)
    requires ValidConfig(c) && IsRun(c, states, steps) && i < |states|
    ensures Inv(c, states[i])
  {
    hide *;
    RunLength(c, states, steps);
    if i == 0 {
      RunStarts(c, states, steps);
    } else {
      RunKeeps(c, states, steps, i - 1);
      RunStep(c, states, steps, i - 1);
      StepKeeps(c, states[i - 1], steps[i - 1]);
    }
  }

  // ---------------------------------------------------------------- what holds in every run

  /**
   In every state of every run, whoever cancels, whatever fails and however the channels close: the counters stay
   in order and within the window, the sink holds exactly the bytes written, neither end accuses the other of
   breaking the protocol, and a sender that has heard KEPT has a receiver that keeps the whole file.
   */
  lemma Safety(c: Config, states: seq<System>, steps: seq<Step>, i: nat)
    requires ValidConfig(c) && IsRun(c, states, steps) && i < |states|
    ensures
      var x := states[i];
      && x.s.acknowledged <= x.r.lastAck <= x.r.written <= x.r.received <= x.s.sent <= |c.envelope|
      && x.s.sent - x.s.acknowledged <= 8_388_608
      && (!x.sink.aborted ==> x.sink.contents == c.envelope[..x.r.written])
      && x.s.failure != Some(Protocol) && x.r.failure != Some(Protocol)
      && (x.s.kept ==> FileKept(c, x.r, x.sink))
      && (x.r.done && x.r.failure.None? ==> FileKept(c, x.r, x.sink))
      && Buffered(x.s.log, x.s.drained) <= 1_048_576 + 65_536 + 43
  {
    RunKeeps(c, states, steps, i);
    assert c.envelope[..|c.envelope|] == c.envelope;
    if states[i].r.done {
      DoneIsComplete(c, states[i]);
    }
    hide SenderLog, ReceiverJobs, ReceiverLog;
  }

  lemma DoneIsComplete(c: Config, x: System)
    requires Inv(c, x) && x.r.done
    ensures x.r.written == |c.envelope|
  {
    var last := |x.r.jobs| - 1;
    assert x.r.jobs[last] == JobOf(x.s.log[last]);
    AfterEnd(c, x.s, last);
  }

  lemma KeptStep(c: Config, x: System, step: Step)
    requires Enabled(c, x, step) && x.s.kept
    ensures Apply(c, x, step).s.kept
  {
  }

  lemma KeptIsKept(c: Config, x: System)
    requires Inv(c, x) && x.s.kept
    ensures FileKept(c, x.r, x.sink)
  {
  }

  /** What the sender reports stays true. */
  lemma {:induction false} KeptForever(c: Config, states: seq<System>, steps: seq<Step>, i: nat, j: nat)
    requires ValidConfig(c) && IsRun(c, states, steps) && i <= j < |states| && states[i].s.kept
    ensures states[j].s.kept && FileKept(c, states[j].r, states[j].sink)
  {
    hide *;
    RunLength(c, states, steps);
    RunKeeps(c, states, steps, j);
    if i < j {
      KeptForever(c, states, steps, i, j - 1);
      RunStep(c, states, steps, j - 1);
      KeptStep(c, states[j - 1], steps[j - 1]);
    }
    KeptIsKept(c, states[j]);
  }

  /** DATA never lifts the send buffer above the high-water mark by more than one frame. */
  lemma DataWithinHighWater(c: Config, x: System, take: nat)
    requires ValidConfig(c) && Inv(c, x) && CanSend(c, x.s, take) && x.s.open
    ensures Buffered(SenderSends(c, x.s, take).log, x.s.drained) <= HIGH_WATER + FrameSizeOf(c)
  {
    BufferedPush(x.s.log, Data(x.s.sent, c.envelope[x.s.sent..x.s.sent + take]), x.s.drained);
  }

  /** A frame from an honest sender never makes the receiver fail, unless it is a stop. */
  lemma NoComplaint(c: Config, x: System)
    requires ValidConfig(c) && Inv(c, x) && x.toReceiver < x.s.drained && x.r.failure.None?
    ensures ReceiverOnFrame(c, x.r, x.s.log[x.toReceiver]).failure
         in {None, Some(PeerCancelled), Some(PeerFailed), Some(PeerStorage)}
  {
    DeliverToReceiverKeeps(c, x);
  }

  /** What is written next always fits the sink, and the sink is asked to verify only a complete envelope. */
  lemma SinkGuards(c: Config, x: System)
    requires Inv(c, x) && x.r.running
    ensures !x.sink.aborted
    ensures
      match x.r.jobs[x.r.finished]
      case Write(bytes) => |x.sink.contents| + |bytes| <= |c.envelope|
      case Finish(sha256, size) => x.sink.contents == c.envelope && sha256 == c.sha256 && size == c.plaintext
  {
    JobDone(c, x);
    assert x.r.jobs[x.r.finished] == JobOf(x.s.log[x.r.finished]);
    assert SenderFrame(c, x.s, x.r.finished);
    assert c.envelope[..|c.envelope|] == c.envelope;
  }
}
