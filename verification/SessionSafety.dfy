/** Page and Drop stay in step: what holds in every run of a session. */
module SessionSafety {
  import opened Wrappers
  import opened Bytes
  import opened Messages
  import opened MessageRoundTrip
  import opened Session

  // ---------------------------------------------------------------- what may be sent where

  /** What Drop's message `index` may be. */
  predicate DropMessage(index: nat, m: Message) {
    match m
    case Invite(_, _, _, _) => index == 0
    case Accept(_) => index == 1
    case Decline => index == 1
    case Restart(_) => 2 <= index <= 6
    case Stop(_) => 1 <= index <= 7
    case _ => false
  }

  predicate PageMessage(index: nat, m: Message) {
    match m
    case Manifest(_, _, _) => index == 0
    case Answer(_, _) => index == 1
    case RestartAnswer(_) => 2 <= index <= 6
    case Stop(_) => index <= 7
    case _ => false
  }

  /** The table of allowed events, read the other way: a restart may not come before index 2, nor Drop's stop at 0. */
  lemma AllowedExactly(index: nat, m: Message)
    ensures IsAllowed(Drop, index, m) <==> DropMessage(index, m)
    ensures IsAllowed(Page, index, m) <==> PageMessage(index, m)
  {
    EventKinds(m);
    EventsDiffer();
    hide EventName, Ascii;
  }

  // ---------------------------------------------------------------- the invariant

  /** A link counts what it sent, a stop is its last message, and after one nothing else goes. */
  ghost predicate LinkInv(l: LinkState) {
    && l.sent == |l.log| <= 8
    && (forall i :: 0 <= i < |l.log| && l.log[i].Stop? ==> i == |l.log| - 1 && l.stopped)
    && (!l.stopped ==> l.sent <= 7)
  }

  /** A restart that took the index of the accept. */
  predicate EarlyRestart(log: seq<Message>) {
    |log| > 1 && log[1].Restart?
  }

  /** The two ways in which Drop can go wrong: its first message is a stop, or its second a restart. */
  predicate Blundered(log: seq<Message>) {
    (|log| > 0 && log[0].Stop?) || EarlyRestart(log)
  }

  /** Message `i` stands where it may, but for a stop before anything else, or a restart before the accept. */
  predicate DropPlace(log: seq<Message>, i: nat)
    requires i < |log|
  {
    || DropMessage(i, log[i])
    || (i == 0 && log[i].Stop?)
    || (EarlyRestart(log) && (i == 1 || (i == 2 && log[i].Accept?)))
  }

  ghost predicate DropLog(l: LinkState) {
    forall i :: 0 <= i < |l.log| ==> DropPlace(l.log, i)
  }

  ghost predicate PageLog(l: LinkState) {
    forall i :: 0 <= i < |l.log| ==> PageMessage(i, l.log[i])
  }

  /** The index of the next restart answer. */
  function NextAnswer(d: DropState): nat {
    if d.link.received < 2 then 2 else d.link.received
  }

  /** Every restart sent is answered, but for one that is awaited, at its own index. */
  ghost predicate RestartsInStep(d: DropState) {
    || d.link.sent == NextAnswer(d)
    || (d.link.sent == NextAnswer(d) + 1 && d.pending == Some(NextAnswer(d)) && d.restarting && !d.offering)
  }

  ghost predicate DropCounts(d: DropState) {
    && d.restartsUsed <= RESTARTS
    && (d.offering ==> d.restarting && 1 <= d.restartsUsed && d.phase in {Accepting, Accepted, Receiving, Deaf, Over})
    && (d.phase == Starting || d.phase == Invited ==> d.link.received == 0)
    && (d.phase in {Deciding, Accepting, Accepted} ==> d.link.received == 1)
    && (d.phase == Receiving ==> d.link.received >= 2)
    && !d.violated
  }

  /** After a restart before the accept nothing more is started: its answer is awaited for ever. */
  ghost predicate EarlyHeld(d: DropState) {
    EarlyRestart(d.link.log) ==>
      d.phase in {Accepting, Accepted, Over} && (d.phase != Over ==> d.restartsUsed > 0 && d.restarting && !d.offering && d.pending.Some?)
  }

  /** While nothing has been stopped, the phase says how much has been sent. */
  ghost predicate DropSent(d: DropState) {
    !d.link.stopped ==>
      match d.phase
      case Starting => d.link.sent == 0
      case Invited => d.link.sent == 1
      case Deciding => d.link.sent == 1
      case Accepting => d.link.sent == if EarlyRestart(d.link.log) then 2 else 1
      case Over => d.offering ==> 1 <= d.link.sent <= 1 + d.restartsUsed
      case _ => 2 <= d.link.sent <= 2 + d.restartsUsed - (if d.offering then 1 else 0)
  }

  ghost predicate PageCounts(p: PageState, drop: LinkState) {
    && p.link.received <= |drop.log|
    && (p.phase != Finished ==> forall i :: 0 <= i < p.link.received ==> !drop.log[i].Stop?)
    && match p.phase
       case Waiting => p.link.received == 0
       case Reading => p.link.received == 1
       case Offered => p.link.received == 1
       case Granted => p.link.received == 2 && drop.log[1].Accept?
       case Sending => p.link.received >= 2 && drop.log[1].Accept?
       case Answering => p.link.received >= 3 && drop.log[1].Accept? && drop.log[p.link.received - 1].Restart?
       case Finished => true
  }

  /** While nothing has been stopped, the page has sent as many messages as it has answered. */
  ghost predicate PageSent(p: PageState) {
    !p.link.stopped ==>
      match p.phase
      case Waiting => p.link.sent == 0
      case Reading => p.link.sent == 0
      case Offered => p.link.sent == 1
      case Granted => p.link.sent == 1
      case Sending => p.link.sent == p.link.received
      case Answering => p.link.sent == p.link.received - 1
      case Finished => true
  }

  /** A restart answer stands at the index of the restart it answers, and answers come only after an accept. */
  ghost predicate AnswersMatch(drop: LinkState, page: LinkState) {
    && (forall k :: 0 <= k < |page.log| && page.log[k].RestartAnswer? ==> k < |drop.log| && drop.log[k].Restart?)
    && (|page.log| > 1 && !page.log[1].Stop? ==> |drop.log| > 1 && drop.log[1].Accept?)
  }

  /** The page has read the message with which Drop went wrong. */
  predicate HeardBlunder(x: Pair) {
    || (x.page.link.received > 0 && |x.drop.link.log| > 0 && x.drop.link.log[0].Stop?)
    || (x.page.link.received > 1 && EarlyRestart(x.drop.link.log))
  }

  ghost predicate Inv(x: Pair) {
    && LinkInv(x.drop.link) && LinkInv(x.page.link) && DropLog(x.drop.link) && PageLog(x.page.link)
    && DropCounts(x.drop) && DropSent(x.drop) && EarlyHeld(x.drop) && x.drop.link.received <= |x.page.link.log|
    && (InStepPhase(x.drop) ==> RestartsInStep(x.drop))
    && (x.drop.phase in {Receiving, Deaf} ==> |x.page.link.log| > 1 && x.page.link.log[1].Answer?)
    && PageCounts(x.page, x.drop.link) && PageSent(x.page)
    && AnswersMatch(x.drop.link, x.page.link)
    && (x.page.violated ==> HeardBlunder(x) && x.page.phase == Finished)
  }

  predicate InStepPhase(d: DropState) {
    d.phase in {Accepted, Receiving} && !d.link.stopped && !EarlyRestart(d.link.log)
  }

  // ---------------------------------------------------------------- the links

  lemma SendKeepsLink(l: LinkState, m: Message)
    requires LinkInv(l) && CanSend(l, m) && (m.Stop? ==> forall i :: 0 <= i < |l.log| ==> !l.log[i].Stop?)
    requires m.Stop? ==> l.stopped
    requires !l.stopped ==> l.sent <= 6
    ensures LinkInv(LinkSends(l, m))
  {
  }

  /** Drop's log grows by a message that may stand where it comes. */
  lemma DropLogGrows(log: seq<Message>, m: Message)
    requires forall i :: 0 <= i < |log| ==> DropPlace(log, i)
    requires DropPlace(log + [m], |log|)
    ensures forall i :: 0 <= i < |log + [m]| ==> DropPlace(log + [m], i)
  {
    forall i | 0 <= i < |log + [m]|
      ensures DropPlace(log + [m], i)
    {
      if i < |log| {
        assert DropPlace(log, i);
      }
    }
  }

  lemma StopKeepsLink(l: LinkState, reason: StopReason)
    requires LinkInv(l)
    ensures LinkInv(LinkStops(l, reason))
    ensures DropLog(l) ==> DropLog(LinkStops(l, reason))
    ensures PageLog(l) ==> PageLog(LinkStops(l, reason))
    ensures l.log <= LinkStops(l, reason).log && (LinkStops(l, reason) == l || LinkStops(l, reason).stopped)
    ensures forall i :: |l.log| <= i < |LinkStops(l, reason).log| ==> LinkStops(l, reason).log[i].Stop?
  {
    if DropLog(l) && LinkStops(l, reason).log != l.log {
      DropLogGrows(l.log, Stop(reason));
    }
  }

  /** Drop's link changed only by growing; the page's side of the invariant stays. */
  lemma PageStays(x: Pair, d: DropState)
    requires Inv(x) && x.drop.link.log <= d.link.log && LinkInv(d.link)
    ensures PageCounts(x.page, d.link) && PageSent(x.page) && AnswersMatch(d.link, x.page.link)
    ensures HeardBlunder(x.(drop := d)) <==> HeardBlunder(x)
  {
    forall i | 0 <= i < |x.drop.link.log|
      ensures d.link.log[i] == x.drop.link.log[i]
    {
    }
  }

  // ---------------------------------------------------------------- Drop's steps

  lemma DropSendKeeps(x: Pair, m: Message, phase: DropPhase)
    requires Inv(x) && ((x.drop.phase == Starting && m.Invite? && phase == Invited) || (x.drop.phase == Accepting && m.Accept? && phase == Accepted))
    ensures Inv(x.(drop := DropSends(x.drop, m, phase)))
  {
    var d := DropSends(x.drop, m, phase);
    if CanSend(x.drop.link, m) {
      SendKeepsLink(x.drop.link, m);
      DropLogGrows(x.drop.link.log, m);
    }
    PageStays(x, d);
  }

  lemma DropRestartKeeps(x: Pair, m: Message)
    requires Inv(x) && x.drop.offering && m.Restart?
    ensures Inv(x.(drop := DropSendsRestart(x.drop, m)))
  {
    var d := DropSendsRestart(x.drop, m);
    if CanSend(x.drop.link, m) {
      assert !x.drop.link.stopped;
      SendKeepsLink(x.drop.link, m);
      DropLogGrows(x.drop.link.log, m);
    }
    PageStays(x, d);
  }

  lemma DropStopKeeps(x: Pair, link: LinkState, reason: StopReason, d: DropState)
    requires Inv(x) && link == x.drop.link.(received := link.received, stopped := link.stopped) && (x.drop.link.stopped ==> link.stopped)
    requires d == x.drop.(link := LinkStops(link, reason), phase := d.phase)
    requires (link.received == x.drop.link.received && d.phase == x.drop.phase) || (d.phase == Over && link.received <= |x.page.link.log|)
    ensures Inv(x.(drop := d))
  {
    StopKeepsLink(link, reason);
    PageStays(x, d);
  }

  /** A restart answer always arrives where Drop awaits it. */
  lemma AnswerAwaited(x: Pair)
    requires Inv(x) && x.drop.phase == Receiving && !x.drop.link.stopped && x.drop.link.received < |x.page.link.log|
    ensures x.page.link.log[x.drop.link.received].Stop? || (x.page.link.log[x.drop.link.received].RestartAnswer?
              && x.drop.pending == Some(x.drop.link.received) && x.drop.link.sent == x.drop.link.received + 1)
  {
  }

  /** Drop has read a message it expected: its link is longer by nothing, and only a stop stops it. */
  lemma DropHearsKeeps(x: Pair, d: DropState)
    requires Inv(x) && DropCanRead(x)
    requires var m := x.page.link.log[x.drop.link.received];
      && d.link == LinkReads(x.drop.link, m)
      && d == x.drop.(link := d.link, phase := d.phase, pending := d.pending)
      && (d.phase == Over || (x.drop.phase == Invited && d.phase == Deciding) || (x.drop.phase == Accepted && d.phase == Receiving)
          || (x.drop.phase == Receiving && d.phase == Receiving))
      && (d.phase != Over ==> !m.Stop?)
      && (d.phase == Receiving && x.drop.phase == Accepted ==> d.pending == x.drop.pending)
      && (d.phase == Receiving && x.drop.phase == Receiving && !d.link.stopped ==> d.link.sent == d.link.received)
    ensures Inv(x.(drop := d))
  {
    PageStays(x, d);
  }

  lemma DropComplainsKeeps(x: Pair, link: LinkState)
    requires Inv(x) && x.drop.link.stopped && link == x.drop.link.(received := link.received, stopped := true)
    requires link.received <= |x.page.link.log|
    ensures Inv(x.(drop := DropComplains(x.drop, link)))
  {
    PageStays(x, DropComplains(x.drop, link));
  }

  /** What Drop may find next, and where it may be. */
  lemma DropFinds(x: Pair)
    requires Inv(x) && DropCanRead(x)
    ensures
      var index := x.drop.link.received;
      var m := x.page.link.log[index];
      && IsAllowed(Page, index, m)
      && (m.Stop? || (x.drop.phase == Invited && m.Manifest?) || (x.drop.phase == Accepted && m.Answer?)
          || (x.drop.phase == Receiving && m.RestartAnswer?))
      && (x.drop.phase == Receiving && m.RestartAnswer? && !x.drop.link.stopped ==>
            x.drop.pending == Some(index) && x.drop.link.sent == index + 1)
  {
    var index := x.drop.link.received;
    var m := x.page.link.log[index];
    AllowedExactly(index, m);
    hide IsAllowed;
    assert PageMessage(index, m);
    if x.drop.phase == Receiving && !x.drop.link.stopped {
      AnswerAwaited(x);
    }
  }

  lemma DropReadKeeps(x: Pair)
    requires Inv(x) && DropCanRead(x)
    ensures Inv(x.(drop := DropAfterReading(x.drop, x.page.link.log[x.drop.link.received])))
  {
    DropFinds(x);
    hide IsAllowed, Inv;
    var m := x.page.link.log[x.drop.link.received];
    var link := LinkReads(x.drop.link, m);
    var d := DropAfterReading(x.drop, m);
    if m.RestartAnswer? && x.drop.pending != Some(x.drop.link.received) {
      DropComplainsKeeps(x, link);
    } else {
      DropHearsKeeps(x, d);
    }
  }

  // ---------------------------------------------------------------- the page's steps

  /** The page's side changed; what the invariant says of Drop stays. */
  lemma PageSendKeeps(x: Pair, m: Message, phase: PagePhase)
    requires Inv(x)
    requires (x.page.phase == Reading && m.Manifest? && phase == Offered)
          || (x.page.phase == Granted && m.Answer? && phase == Sending)
          || (x.page.phase == Answering && m.RestartAnswer? && phase == Sending)
    ensures Inv(x.(page := PageSends(x.page, m, phase)))
  {
    if CanSend(x.page.link, m) {
      if x.page.phase == Answering {
        assert DropPlace(x.drop.link.log, x.page.link.received - 1);
      }
      SendKeepsLink(x.page.link, m);
    }
  }

  lemma PageStopKeeps(x: Pair, reason: StopReason)
    requires Inv(x)
    ensures Inv(x.(page := x.page.(link := LinkStops(x.page.link, reason))))
  {
    StopKeepsLink(x.page.link, reason);
  }

  lemma PageHearsKeeps(x: Pair, p: PageState)
    requires Inv(x) && PageCanRead(x)
    requires var m := x.drop.link.log[x.page.link.received];
      && p == x.page.(link := p.link, phase := p.phase)
      && (p.link == LinkReads(x.page.link, m) || (p.link == LinkReads(x.page.link, m).(ended := true) && p.phase == Finished))
      && (p.phase == Finished || (!m.Stop?
            && ((x.page.phase == Waiting && p.phase == Reading) || (x.page.phase == Offered && p.phase == Granted && m.Accept?)
                || (x.page.phase == Sending && p.phase == Answering && m.Restart?))))
    ensures Inv(x.(page := p))
  {
    hide AllowedEvents;
  }

  /** A complaint by a page that had stopped, or one about a message with which Drop went wrong. */
  lemma PageComplainsKeeps(x: Pair, link: LinkState)
    requires Inv(x) && link == x.page.link.(received := link.received, stopped := link.stopped)
    requires x.page.link.received <= link.received <= |x.drop.link.log| && (x.page.link.stopped ==> link.stopped)
    requires link.stopped || HeardBlunder(x.(page := x.page.(link := link)))
    ensures Inv(x.(page := PageComplains(x.page, link)))
  {
    StopKeepsLink(link, Failed);
  }

  /** The messages a page refuses. */
  predicate IsBlunder(index: nat, m: Message) {
    (index == 0 && m.Stop?) || (index == 1 && m.Restart?)
  }

  lemma PageFinds(x: Pair)
    requires Inv(x) && PageCanRead(x)
    ensures
      var index := x.page.link.received;
      var m := x.drop.link.log[index];
      && (IsAllowed(Drop, index, m) <==> !IsBlunder(index, m))
      && (IsAllowed(Drop, index, m) ==>
            (m.Stop? && index > 0) || (x.page.phase == Waiting && m.Invite?)
            || (x.page.phase == Offered && (m.Decline? || m.Accept?)) || (x.page.phase == Sending && m.Restart?))
      && (x.page.phase == Waiting ==> index == 0)
      && (x.page.phase == Sending && !x.page.link.stopped ==> index == x.page.link.sent)
  {
    var index := x.page.link.received;
    var m := x.drop.link.log[index];
    AllowedExactly(index, m);
    hide IsAllowed;
    assert DropPlace(x.drop.link.log, index);
  }

  lemma PageReadKeeps(x: Pair)
    requires Inv(x) && PageCanRead(x)
    ensures Inv(x.(page := PageAfterReading(x.page, x.drop.link.log[x.page.link.received])))
  {
    PageFinds(x);
    hide IsAllowed, Inv;
    var index := x.page.link.received;
    var m := x.drop.link.log[index];
    var link := LinkReads(x.page.link, m);
    if !IsAllowed(Drop, index, m) {
      PageComplainsKeeps(x, x.page.link.(received := index + 1));
    } else if m.Restart? && index != link.sent {
      PageComplainsKeeps(x, link);
    } else {
      PageHearsKeeps(x, PageAfterReading(x.page, m));
    }
  }

  // ---------------------------------------------------------------- every run

  lemma DropIdles(x: Pair, d: DropState)
    requires Inv(x) && d.link == x.drop.link.(ended := d.link.ended) && !d.violated
    requires DropCounts(d) && DropSent(d) && EarlyHeld(d) && (InStepPhase(d) ==> RestartsInStep(d))
    requires d.phase in {Receiving, Deaf} ==> x.drop.phase in {Receiving, Deaf}
    ensures Inv(x.(drop := d))
  {
    PageStays(x, d);
  }

  lemma DropQuietKeeps(x: Pair, step: Step)
    requires Inv(x) && Enabled(x, step)
    requires step.DropRestarts? || step.DropRestartFails? || step.DropApplies? || step.DropReadFails? || step.DropGivesUp? || step.DropEnds?
          || step.DropMakesPeer?
    ensures Inv(Apply(x, step))
  {
    var d := Apply(x, step).drop;
    hide DropLog, PageLog, LinkInv, PageCounts, PageSent, AnswersMatch;
    DropIdles(x, d);
  }

  lemma DropDeclineKeeps(x: Pair)
    requires Inv(x) && x.drop.phase == Deciding
    ensures Inv(Apply(x, DropDeclines))
  {
    if CanSend(x.drop.link, Decline) {
      SendKeepsLink(x.drop.link, Decline);
      DropLogGrows(x.drop.link.log, Decline);
    }
    PageStays(x, Apply(x, DropDeclines).drop);
  }

  lemma PageQuietKeeps(x: Pair, p: PageState)
    requires Inv(x) && p == x.page.(link := x.page.link.(ended := p.link.ended), phase := p.phase)
    requires p.phase == x.page.phase || p.phase == Finished
    ensures Inv(x.(page := p))
  {
  }

  lemma StepKeeps(x: Pair, step: Step)
    requires Inv(x) && Enabled(x, step)
    ensures Inv(Apply(x, step))
  {
    hide Inv;
    match step
    case DropInvites(m) => DropSendKeeps(x, m, Invited);
    case DropReads => DropReadKeeps(x);
    case DropDeclines => DropDeclineKeeps(x);
    case DropAccepts(m) => DropSendKeeps(x, m, Accepted);
    case DropOffersRestart(m) => DropRestartKeeps(x, m);
    case DropStops(reason) => DropStopKeeps(x, x.drop.link, reason, Apply(x, step).drop);
    case PageReads => PageReadKeeps(x);
    case PageOffers(m) => PageSendKeeps(x, m, Offered);
    case PageAnswers(m) => PageSendKeeps(x, m, Sending);
    case PageStops(reason) => PageStopKeeps(x, reason);
    case PageGivesUp => PageQuietKeeps(x, Apply(x, step).page);
    case PageEnds => PageQuietKeeps(x, Apply(x, step).page);
    case _ => DropQuietKeeps(x, step);
  }

  lemma RunStep(states: seq<Pair>, steps: seq<Step>, i: nat)
    requires IsRun(states, steps) && i < |steps|
    ensures |states| == |steps| + 1 && Enabled(states[i], steps[i]) && states[i + 1] == Apply(states[i], steps[i])
  {
    hide Enabled, Apply;
  }

  lemma RunStarts(states: seq<Pair>, steps: seq<Step>)
    requires IsRun(states, steps)
    ensures |states| == |steps| + 1 && states[0] == StartPair()
  {
    hide Enabled, Apply;
  }

  lemma StartsWell()
    ensures Inv(StartPair()) && Unprompted(StartPair()) && !Blundered(StartPair().drop.link.log)
  {
  }

  lemma {:induction false} RunKeeps(states: seq<Pair>, steps: seq<Step>, i: nat)
    requires IsRun(states, steps) && i < |states|
    ensures Inv(states[i])
  {
    hide *;
    RunStarts(states, steps);
    StartsWell();
    if i > 0 {
      RunKeeps(states, steps, i - 1);
      RunStep(states, steps, i - 1);
      StepKeeps(states[i - 1], steps[i - 1]);
    }
  }

  /** At most seven messages that are not stops; one stop at most, and it last. */
  ghost predicate WithinBudget(log: seq<Message>) {
    && |log| <= MESSAGES_PER_SIDE
    && (forall i :: 0 <= i < |log| && log[i].Stop? ==> i == |log| - 1)
    && (|log| == MESSAGES_PER_SIDE ==> log[MESSAGES_PER_SIDE - 1].Stop?)
  }

  ghost predicate AllAllowed(from: Side, log: seq<Message>) {
    forall i :: 0 <= i < |log| ==> IsAllowed(from, i, log[i])
  }

  /**
   In every state of every run: each side keeps to its message budget, an end that has not stopped has a message left
   to stop with, at most five restarts are used, and Drop never accuses the page. Unless Drop's first message was a
   stop or its second a restart, every message is one the table of events allows and the page does not accuse Drop.
   */
  lemma InStep(states: seq<Pair>, steps: seq<Step>, i: nat)
    requires IsRun(states, steps) && i < |states|
    ensures
      var x := states[i];
      && WithinBudget(x.drop.link.log) && WithinBudget(x.page.link.log)
      && (!x.drop.link.stopped ==> x.drop.link.sent < MESSAGES_PER_SIDE)
      && (!x.page.link.stopped ==> x.page.link.sent < MESSAGES_PER_SIDE)
      && x.drop.restartsUsed <= RESTARTS
      && !x.drop.violated && AllAllowed(Page, x.page.link.log)
      && (!Blundered(x.drop.link.log) ==> AllAllowed(Drop, x.drop.link.log) && !x.page.violated)
  {
    RunKeeps(states, steps, i);
    LogsAllowed(states[i]);
    hide IsAllowed, DropLog, PageLog, PageCounts, PageSent, AnswersMatch, WithinBudget;
  }

  lemma LogsAllowed(x: Pair)
    requires Inv(x)
    ensures WithinBudget(x.drop.link.log) && WithinBudget(x.page.link.log)
    ensures AllAllowed(Page, x.page.link.log)
    ensures !Blundered(x.drop.link.log) ==> AllAllowed(Drop, x.drop.link.log)
  {
    hide IsAllowed, DropCounts, DropSent, PageCounts, PageSent, AnswersMatch, RestartsInStep;
    assert |x.drop.link.log| == MESSAGES_PER_SIDE ==> DropPlace(x.drop.link.log, MESSAGES_PER_SIDE - 1);
    if !Blundered(x.drop.link.log) {
      forall i | 0 <= i < |x.drop.link.log|
        ensures IsAllowed(Drop, i, x.drop.link.log[i])
      {
        AllowedExactly(i, x.drop.link.log[i]);
        assert DropPlace(x.drop.link.log, i);
      }
    }
    forall i | 0 <= i < |x.page.link.log|
      ensures IsAllowed(Page, i, x.page.link.log[i])
    {
      AllowedExactly(i, x.page.link.log[i]);
    }
  }

  /** The page's next restart has the index of its own next message, and is answered there. */
  ghost predicate PageMeets(x: Pair) {
    var link := x.page.link;
    && (x.page.phase == Sending ==> link.received == link.sent)
    && (x.page.phase == Answering ==>
          link.received == link.sent + 1 && link.sent < |x.drop.link.log| && x.drop.link.log[link.sent].Restart?)
  }

  /** A restart answer that Drop can read is one it awaits, at this index. */
  ghost predicate DropMeets(x: Pair) {
    var index := x.drop.link.received;
    x.drop.phase == Receiving && index < |x.page.link.log| && x.page.link.log[index].RestartAnswer? ==> x.drop.pending == Some(index)
  }

  /** Each restart the page reads is at the index of its own next message, and its answer goes where Drop awaits it. */
  lemma RestartsMeet(states: seq<Pair>, steps: seq<Step>, i: nat)
    requires IsRun(states, steps) && i < |states|
    ensures !states[i].page.link.stopped ==> PageMeets(states[i])
    ensures !states[i].drop.link.stopped ==> DropMeets(states[i])
  {
    RunKeeps(states, steps, i);
    var x := states[i];
    if x.drop.phase == Receiving && !x.drop.link.stopped && x.drop.link.received < |x.page.link.log| {
      AnswerAwaited(x);
    }
    hide DropLog, PageLog, AnswersMatch, LinkInv, DropSent, DropCounts;
  }

  // ---------------------------------------------------------------- when Drop goes wrong

  /** The steps with which Drop goes wrong: a stop before it has sent anything, or a restart when only its invitation has gone. */
  predicate Blunders(x: Pair, step: Step) {
    var link := x.drop.link;
    || (step.DropStops? && link.sent == 0 && !link.stopped && !link.ended)
    || (step.DropOffersRestart? && link.sent == 1 && CanSend(link, step.restart))
  }

  lemma BlunderStep(x: Pair, step: Step)
    requires Inv(x) && Enabled(x, step)
    ensures Blundered(Apply(x, step).drop.link.log) <==> Blundered(x.drop.link.log) || Blunders(x, step)
  {
    if step.DropReads? {
      DropFinds(x);
    }
    hide IsAllowed, PageLog, PageCounts, PageSent, AnswersMatch, RestartsInStep;
    var log, log' := x.drop.link.log, Apply(x, step).drop.link.log;
    assert |log| == x.drop.link.sent && (log' == log || (|log'| == |log| + 1 && log'[..|log|] == log));
    assert forall i :: 0 <= i < |log| ==> log'[i] == log[i];
  }

  /** Drop's log is wrong exactly if some step of the run was one of those two: a condition to check before taking it. */
  lemma {:induction false} BlunderedExactly(states: seq<Pair>, steps: seq<Step>, i: nat)
    requires IsRun(states, steps) && i < |states|
    ensures Blundered(states[i].drop.link.log) <==> exists j :: 0 <= j < i && j < |steps| && Blunders(states[j], steps[j])
  {
    hide *;
    RunStarts(states, steps);
    StartsWell();
    if i > 0 {
      BlunderedExactly(states, steps, i - 1);
      RunKeeps(states, steps, i - 1);
      RunStep(states, steps, i - 1);
      BlunderStep(states[i - 1], steps[i - 1]);
    }
  }

  /** A page that reads on, not stopped, complains exactly about a first message that stops and a second that restarts. */
  lemma NextIsRefused(x: Pair)
    requires Inv(x) && PageCanRead(x) && !x.page.link.stopped
    ensures Apply(x, PageReads).page.violated <==> IsBlunder(x.page.link.received, x.drop.link.log[x.page.link.received])
  {
    PageFinds(x);
    hide IsAllowed, DropLog, PageLog;
  }

  /** A page that has not stopped by itself: it has complained if it has heard Drop go wrong, and is over once stopped. */
  ghost predicate Unprompted(x: Pair) {
    (x.page.link.stopped ==> x.page.phase == Finished) && (HeardBlunder(x) ==> x.page.violated)
  }

  lemma UnpromptedStep(x: Pair, step: Step)
    requires Inv(x) && Enabled(x, step) && Unprompted(x) && !step.PageStops?
    ensures Unprompted(Apply(x, step))
  {
    if step.PageReads? {
      PageFinds(x);
      NextIsRefused(x);
      assert x.drop.link.log == Apply(x, step).drop.link.log;
    } else {
      DropGrows(x, step);
      hide IsAllowed, DropLog, PageLog, LinkInv, DropCounts, DropSent, PageSent, AnswersMatch;
    }
  }

  /** Apart from reading, the page hears nothing new. */
  lemma DropGrows(x: Pair, step: Step)
    requires Inv(x) && Enabled(x, step) && !step.PageReads?
    ensures HeardBlunder(Apply(x, step)) <==> HeardBlunder(x)
  {
    hide IsAllowed;
    var log, log' := x.drop.link.log, Apply(x, step).drop.link.log;
    assert log' == log || (|log'| == |log| + 1 && log'[..|log|] == log);
    assert forall i :: 0 <= i < |log| ==> log'[i] == log[i];
  }

  /**
   In every run in which the page does not stop of its own accord, it accuses Drop exactly when it has read a stop as
   Drop's first message or a restart as its second.
   */
  lemma ComplaintsExactly(states: seq<Pair>, steps: seq<Step>, i: nat)
    requires IsRun(states, steps) && i < |states|
    requires forall j :: 0 <= j < i && j < |steps| ==> !steps[j].PageStops?
    ensures states[i].page.violated <==> HeardBlunder(states[i])
  {
    RunKeeps(states, steps, i);
    StaysUnprompted(states, steps, i);
    hide DropLog, PageLog, LinkInv, DropCounts, DropSent, PageSent, AnswersMatch, PageCounts, HeardBlunder;
  }

  lemma {:induction false} StaysUnprompted(states: seq<Pair>, steps: seq<Step>, i: nat)
    requires IsRun(states, steps) && i < |states|
    requires forall j :: 0 <= j < i && j < |steps| ==> !steps[j].PageStops?
    ensures Unprompted(states[i])
  {
    hide *;
    RunStarts(states, steps);
    StartsWell();
    if i > 0 {
      StaysUnprompted(states, steps, i - 1);
      RunKeeps(states, steps, i - 1);
      RunStep(states, steps, i - 1);
      UnpromptedStep(states[i - 1], steps[i - 1]);
    }
  }

  // ---------------------------------------------------------------- both happen

  /** A run made one step longer. */
  lemma Longer(states: seq<Pair>, steps: seq<Step>, step: Step) returns (states': seq<Pair>, steps': seq<Step>)
    requires IsRun(states, steps) && Enabled(states[|steps|], step)
    ensures IsRun(states', steps') && |steps'| == |steps| + 1
    ensures states'[|steps'|] == Apply(states[|steps|], step)
  {
    states', steps' := states + [Apply(states[|steps|], step)], steps + [step];
    hide Enabled, Apply;
    forall i | 0 <= i < |steps'|
      ensures Enabled(states'[i], steps'[i]) && states'[i + 1] == Apply(states'[i], steps'[i])
    {
      if i < |steps| {
        assert Enabled(states[i], steps[i]) && states[i + 1] == Apply(states[i], steps[i]);
      }
    }
  }

  lemma AtStart() returns (states: seq<Pair>, steps: seq<Step>)
    ensures IsRun(states, steps) && steps == [] && states == [StartPair()]
  {
    states, steps := [StartPair()], [];
  }

  /** Drop stops before its invitation, and the page refuses the stop. */
  lemma EarlyStopHappens()
    ensures exists states: seq<Pair>, steps: seq<Step> :: IsRun(states, steps) && |steps| == 2 && states[2].page.violated
  {
    AllowedExactly(0, Stop(Cancelled));
    var states, steps := AtStart();
    hide IsAllowed, IsRun;
    states, steps := Longer(states, steps, DropStops(Cancelled));
    states, steps := Longer(states, steps, PageReads);
  }

  /** A restart is started once there is a connection, and its message goes before the accept: the page refuses it. */
  lemma EarlyRestartHappens(invite: Message, manifest: Message, restart: Message)
    requires invite.Invite? && manifest.Manifest? && restart.Restart?
    ensures exists states: seq<Pair>, steps: seq<Step> :: IsRun(states, steps) && |steps| == 8 && states[8].page.violated
  {
    AllowedExactly(0, invite);
    AllowedExactly(0, manifest);
    AllowedExactly(1, restart);
    var states, steps := AtStart();
    hide IsAllowed, IsRun;
    states, steps := Longer(states, steps, DropInvites(invite));
    states, steps := Longer(states, steps, PageReads);
    states, steps := Longer(states, steps, PageOffers(manifest));
    states, steps := Longer(states, steps, DropReads);
    states, steps := Longer(states, steps, DropMakesPeer);
    states, steps := Longer(states, steps, DropRestarts);
    states, steps := Longer(states, steps, DropOffersRestart(restart));
    states, steps := Longer(states, steps, PageReads);
  }

  /** The codec takes what such a link sends: a message in its place with proper fields is read as it was written. */
  lemma SentIsRead(e: Readers, context: Context, m: Message, bytes: Blob)
    requires Sound(e) && EncodeMessage(e, m) == Some(bytes) && Fits(e, context, m)
    requires context.index >= 0 && IsAllowed(context.from, context.index, m)
    ensures DecodeMessage(e, bytes, context) == Ok(m)
  {
    hide DecodeMessage, EncodeMessage, Sound, Fits;
    DecodesExactly(e, bytes, context, m);
  }
}
