/**
 The exchange of messages before and during a direct send: the link each end counts its messages on, and the two
 ends as a state machine over what each may do next. Drop receives; the page sends.
 */
module Session {
  import opened Wrappers
  import opened Bytes
  import opened FileNames
  import opened Messages

  // ---------------------------------------------------------------- the link

  /** `log` is every message sent; `sent` and `received` are the counts the indexes come from. */
  datatype LinkState = LinkState(sent: nat, received: nat, stopped: bool, ended: bool, log: seq<Message>)

  /** After a stop, from either end, only a stop may still go; and no more than eight messages in all. */
  predicate CanSend(l: LinkState, m: Message) {
    !l.ended && (l.stopped ==> m.Stop?) && l.sent < MESSAGES_PER_SIDE
  }

  function LinkSends(l: LinkState, m: Message): LinkState {
    if CanSend(l, m) then l.(sent := l.sent + 1, log := l.log + [m]) else l
  }

  /** At most once: a stop in place of the next message. */
  function LinkStops(l: LinkState, reason: StopReason): LinkState {
    if l.stopped || l.ended || l.sent >= MESSAGES_PER_SIDE then l
    else LinkSends(l.(stopped := true), Stop(reason))
  }

  function LinkReads(l: LinkState, m: Message): LinkState {
    l.(received := l.received + 1, stopped := l.stopped || m.Stop?)
  }

  datatype LinkError = HasEnded | HasStopped | NoneLeft | NotEncodable | Refused(reason: Refusal)

  /** One end of the exchange. */
  class Link {
    const us: Side
    const allowlist: seq<Text>
    const readers: Readers
    var sentCount: nat
    var receivedCount: nat
    var stopped: bool
    var ended: bool
    var outbox: seq<Blob>
    ghost var log: seq<Message>

    ghost predicate Valid()
      reads this
    {
      && |outbox| == |log| == sentCount
      && forall i :: 0 <= i < |log| ==> EncodeMessage(readers, log[i]) == Some(outbox[i])
    }

    ghost function State(): LinkState
      reads this
    {
      LinkState(sentCount, receivedCount, stopped, ended, log)
    }

    constructor (us: Side, allowlist: seq<Text>, readers: Readers)
      ensures Valid() && State() == LinkState(0, 0, false, false, [])
      ensures this.us == us && this.allowlist == allowlist && this.readers == readers
    {
      this.us, this.allowlist, this.readers := us, allowlist, readers;
      sentCount, receivedCount, stopped, ended, outbox := 0, 0, false, false, [];
      log := [];
    }

    /** Sends the next message and gives the index it took. */
    method Send(m: Message) returns (result: Result<nat, LinkError>)
      requires Valid()
      modifies this
      ensures Valid() && State() == if EncodeMessage(readers, m).Some? then LinkSends(old(State()), m) else old(State())
      ensures result.Ok? <==> CanSend(old(State()), m) && EncodeMessage(readers, m).Some?
      ensures result.Ok? ==> result.value == old(sentCount)
      ensures result.Err? ==>
        result.error == if old(ended) then HasEnded else if old(stopped) && !m.Stop? then HasStopped
                        else if old(sentCount) >= 8 then NoneLeft else NotEncodable
    {
      hide EncodeMessage;
      if ended {
        return Err(HasEnded);
      }
      if stopped && !m.Stop? {
        return Err(HasStopped);
      }
      if sentCount >= MESSAGES_PER_SIDE {
        return Err(NoneLeft);
      }
      var bytes := EncodeMessage(readers, m);
      if bytes.None? {
        return Err(NotEncodable);
      }
      result := Ok(sentCount);
      sentCount := sentCount + 1;
      outbox := outbox + [bytes.value];
      log := log + [m];
    }

    method StopNow(reason: StopReason)
      requires Valid() && EncodeMessage(readers, Stop(reason)).Some?
      modifies this
      ensures Valid() && State() == LinkStops(old(State()), reason)
    {
      hide EncodeMessage;
      if stopped || ended || sentCount >= MESSAGES_PER_SIDE {
        return;
      }
      stopped := true;
      var _ := Send(Stop(reason));
    }

    /** Decodes the next message. One that is not allowed here is answered with a stop. */
    method Read(bytes: Blob, max: Option<nat>) returns (result: Result<(Message, nat), LinkError>)
      requires Valid() && forall reason :: EncodeMessage(readers, Stop(reason)).Some?
      modifies this
      ensures Valid()
      ensures old(ended) ==> result == Err(HasEnded) && State() == old(State())
      ensures !old(ended) ==>
        var decoded := DecodeMessage(readers, bytes, Context(if us == Page then Drop else Page, old(receivedCount), allowlist, max));
        && (decoded.Ok? ==> result == Ok((decoded.value, old(receivedCount))) && State() == LinkReads(old(State()), decoded.value))
        && (decoded.Err? ==> result == Err(Refused(decoded.error)))
        && (decoded.Err? ==> State() == LinkStops(old(State()).(received := old(receivedCount) + 1), decoded.error))
    {
      hide EncodeMessage, DecodeMessage;
      if ended {
        return Err(HasEnded);
      }
      var index := receivedCount;
      receivedCount := receivedCount + 1;
      var decoded := DecodeMessage(readers, bytes, Context(if us == Page then Drop else Page, index, allowlist, max));
      if decoded.Err? {
        StopNow(decoded.error);
        return Err(Refused(decoded.error));
      }
      if decoded.value.Stop? {
        stopped := true;
      }
      result := Ok((decoded.value, index));
    }

    method End()
      requires Valid()
      modifies this
      ensures Valid() && State() == old(State()).(ended := true)
    {
      ended := true;
    }
  }

  // ---------------------------------------------------------------- the two ends

  datatype DropPhase = Starting | Invited | Deciding | Accepting | Accepted | Receiving | Deaf | Over

  /**
   Drop is accepting from when it has a peer connection until its accept has gone; restarts may be started as soon as
   there is a connection. Drop is deaf once a read has failed in the network: it reads no more answers, but may still start restarts.
   `restarting` while a restart is under way, `offering` until its message goes, `pending` the index its answer must
   have. `violated` records a complaint about the page made by an end that had not stopped.
   */
  datatype DropState = DropState(
    link: LinkState, phase: DropPhase, restartsUsed: nat, restarting: bool, offering: bool, pending: Option<nat>, violated: bool)

  datatype PagePhase = Waiting | Reading | Offered | Granted | Sending | Answering | Finished

  datatype PageState = PageState(link: LinkState, phase: PagePhase, violated: bool)

  datatype Pair = Pair(drop: DropState, page: PageState)

  function StartPair(): Pair {
    var link := LinkState(0, 0, false, false, []);
    Pair(DropState(link, Starting, 0, false, false, None, false), PageState(link, Waiting, false))
  }

  datatype Step =
    | DropInvites(invite: Message) | DropReads | DropDeclines | DropMakesPeer | DropAccepts(accept: Message)
    | DropRestarts | DropOffersRestart(restart: Message) | DropRestartFails | DropApplies
    | DropReadFails | DropStops(reason: StopReason) | DropGivesUp | DropEnds
    | PageReads | PageOffers(manifest: Message) | PageAnswers(answer: Message) | PageStops(reason: StopReason)
    | PageGivesUp | PageEnds

  predicate IsAllowed(from: Side, index: nat, m: Message) {
    EventName(m) in AllowedEvents(from, index)
  }

  predicate Enabled(x: Pair, step: Step) {
    match step
    case DropInvites(m) => x.drop.phase == Starting && m.Invite?
    case DropReads => DropCanRead(x)
    case DropDeclines => x.drop.phase == Deciding
    case DropMakesPeer => x.drop.phase == Deciding
    case DropAccepts(m) => x.drop.phase == Accepting && m.Accept?
    case DropRestarts =>
      && x.drop.phase in {Accepting, Accepted, Receiving, Deaf} && !x.drop.restarting && !x.drop.link.ended && x.drop.restartsUsed < RESTARTS
    case DropOffersRestart(m) => x.drop.offering && m.Restart?
    case DropRestartFails => x.drop.offering
    case DropApplies => x.drop.restarting && !x.drop.offering && x.drop.pending.None?
    case DropReadFails => x.drop.phase == Receiving
    case DropStops(_) => true
    case DropGivesUp => true
    case DropEnds => true
    case PageReads => PageCanRead(x)
    case PageOffers(m) => x.page.phase == Reading && m.Manifest?
    case PageAnswers(m) => (x.page.phase == Granted && m.Answer?) || (x.page.phase == Answering && m.RestartAnswer?)
    case PageStops(_) => true
    case PageGivesUp => true
    case PageEnds => true
  }

  predicate DropCanRead(x: Pair) {
    x.drop.phase in {Invited, Accepted, Receiving} && !x.drop.link.ended && x.drop.link.received < |x.page.link.log|
  }

  predicate PageCanRead(x: Pair) {
    x.page.phase in {Waiting, Offered, Sending} && !x.page.link.ended && x.page.link.received < |x.drop.link.log|
  }

  /** An end complains: it stops the exchange, and has been wronged if it had not stopped before. */
  function DropComplains(d: DropState, link: LinkState): DropState {
    d.(link := LinkStops(link, Failed), phase := Over, violated := d.violated || !link.stopped)
  }

  function PageComplains(p: PageState, link: LinkState): PageState {
    p.(link := LinkStops(link, Failed), phase := Finished, violated := p.violated || !link.stopped)
  }

  /** Drop reads the page's next message. The reader refuses one that may not come here; the end, one it does not expect. */
  function DropAfterReading(d: DropState, m: Message): DropState {
    var index := d.link.received;
    if !IsAllowed(Page, index, m) then DropComplains(d, d.link.(received := index + 1))
    else
      var link := LinkReads(d.link, m);
      if m.Stop? then d.(link := link, phase := Over)
      else if d.phase == Invited then
        if m.Manifest? then d.(link := link, phase := Deciding) else DropComplains(d, link)
      else if d.phase == Accepted then
        if m.Answer? then d.(link := link, phase := Receiving) else DropComplains(d, link)
      else if m.RestartAnswer? && d.pending == Some(index) then d.(link := link, pending := None)
      else DropComplains(d, link)
  }

  function PageAfterReading(p: PageState, m: Message): PageState {
    var index := p.link.received;
    if !IsAllowed(Drop, index, m) then PageComplains(p, p.link.(received := index + 1))
    else
      var link := LinkReads(p.link, m);
      if p.phase == Waiting then
        if m.Invite? then p.(link := link, phase := Reading) else PageComplains(p, link)
      else if m.Stop? then p.(link := link, phase := Finished)
      else if p.phase == Offered then
        if m.Decline? then p.(link := link.(ended := true), phase := Finished)
        else if m.Accept? then p.(link := link, phase := Granted)
        else PageComplains(p, link)
      else if m.Restart? && index == link.sent then p.(link := link, phase := Answering)
      else PageComplains(p, link)
  }

  /** An end sends its next message, or is over if its link will not carry it. */
  function DropSends(d: DropState, m: Message, phase: DropPhase): DropState {
    if CanSend(d.link, m) then d.(link := LinkSends(d.link, m), phase := phase) else d.(phase := Over)
  }

  function PageSends(p: PageState, m: Message, phase: PagePhase): PageState {
    if CanSend(p.link, m) then p.(link := LinkSends(p.link, m), phase := phase) else p.(phase := Finished)
  }

  /** The restart's message goes, at the index its answer must have; if it cannot, the restart has failed. */
  function DropSendsRestart(d: DropState, m: Message): DropState {
    var waiting := d.(offering := false, pending := Some(d.link.sent));
    if CanSend(d.link, m) then waiting.(link := LinkSends(d.link, m)) else waiting.(restarting := false)
  }

  function Apply(x: Pair, step: Step): Pair
    requires Enabled(x, step)
  {
    match step
    case DropInvites(m) => x.(drop := DropSends(x.drop, m, Invited))
    case DropReads => x.(drop := DropAfterReading(x.drop, x.page.link.log[x.drop.link.received]))
    case DropDeclines => x.(drop := x.drop.(link := LinkSends(x.drop.link, Decline).(ended := true), phase := Over))
    case DropMakesPeer => x.(drop := x.drop.(phase := Accepting))
    case DropAccepts(m) => x.(drop := DropSends(x.drop, m, Accepted))
    case DropRestarts => x.(drop := x.drop.(restartsUsed := x.drop.restartsUsed + 1, restarting := true, offering := true))
    case DropOffersRestart(m) => x.(drop := DropSendsRestart(x.drop, m))
    case DropRestartFails => x.(drop := x.drop.(restarting := false, offering := false))
    case DropApplies => x.(drop := x.drop.(restarting := false))
    case DropReadFails => x.(drop := x.drop.(phase := Deaf, pending := None, restarting := x.drop.offering))
    case DropGivesUp => x.(drop := x.drop.(phase := Over))
    case DropStops(reason) => x.(drop := x.drop.(link := LinkStops(x.drop.link, reason)))
    case DropEnds => x.(drop := x.drop.(link := x.drop.link.(ended := true)))
    case PageReads => x.(page := PageAfterReading(x.page, x.drop.link.log[x.page.link.received]))
    case PageOffers(m) => x.(page := PageSends(x.page, m, Offered))
    case PageAnswers(m) => x.(page := PageSends(x.page, m, Sending))
    case PageGivesUp => x.(page := x.page.(phase := Finished))
    case PageStops(reason) => x.(page := x.page.(link := LinkStops(x.page.link, reason)))
    case PageEnds => x.(page := x.page.(link := x.page.link.(ended := true)))
  }

  ghost predicate IsRun(states: seq<Pair>, steps: seq<Step>) {
    && |states| == |steps| + 1 && states[0] == StartPair()
    && forall i :: 0 <= i < |steps| ==> Enabled(states[i], steps[i]) && states[i + 1] == Apply(states[i], steps[i])
  }
}
