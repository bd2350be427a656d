/** A session in which nobody stops, declines or fails connects, and every restart in it is answered and applied. */
module SessionProgress {
  import opened Wrappers
  import opened Messages
  import opened Session
  import opened SessionSafety

  /** The steps of two ends that go on: no stop, no refusal, no failed read, nobody leaves. A restart may fail to be offered. */
  predicate GoesOn(step: Step) {
    match step
    case DropDeclines => false
    case DropReadFails => false
    case DropStops(_) => false
    case DropGivesUp => false
    case DropEnds => false
    case PageStops(_) => false
    case PageGivesUp => false
    case PageEnds => false
    case _ => true
  }

  /** Of those, the steps that are due once they can be taken. Whether another restart is started is up to Drop. */
  predicate IsDue(step: Step) {
    GoesOn(step) && !step.DropRestarts? && !step.DropRestartFails?
  }

  predicate Undisturbed(l: LinkState) {
    !l.stopped && !l.ended
  }

  /** Neither end has stopped or left, and a restart that awaits its answer is the next to be answered. */
  ghost predicate Live(x: Pair) {
    && Undisturbed(x.drop.link) && Undisturbed(x.page.link)
    && x.drop.phase != Over && x.drop.phase != Deaf && x.page.phase != Finished
    && !Blundered(x.drop.link.log)
    && (forall i :: 0 <= i < |x.drop.link.log| ==> !x.drop.link.log[i].Decline?)
    && (x.drop.pending.Some? ==> x.drop.restarting && !x.drop.offering && x.drop.link.sent == NextAnswer(x.drop) + 1)
    && (x.drop.restarting && !x.drop.offering && x.drop.pending.None? ==> x.drop.link.sent == NextAnswer(x.drop))
    && (x.drop.phase == Accepting && x.drop.restarting ==> x.drop.offering)
  }

  // ---------------------------------------------------------------- every step keeps it

  lemma DropGoesOn(x: Pair, step: Step)
    requires Inv(x) && Live(x) && Enabled(x, step) && !Blunders(x, step)
    requires step.DropInvites? || step.DropMakesPeer? || step.DropAccepts? || step.DropRestarts? || step.DropOffersRestart?
          || step.DropRestartFails? || step.DropApplies?
    ensures Live(Apply(x, step))
  {
    BlunderStep(x, step);
    hide IsAllowed, PageLog, PageCounts, PageSent, AnswersMatch;
  }

  lemma DropReadGoesOn(x: Pair)
    requires Inv(x) && Live(x) && DropCanRead(x)
    ensures Live(Apply(x, DropReads))
  {
    DropFinds(x);
    PageSaysNoStop(x);
    hide IsAllowed, PageLog, DropLog, PageCounts, PageSent, AnswersMatch;
  }

  lemma PageSaysNoStop(x: Pair)
    requires Inv(x) && Live(x)
    ensures forall i :: 0 <= i < |x.page.link.log| ==> !x.page.link.log[i].Stop?
    ensures forall i :: 0 <= i < |x.drop.link.log| ==> !x.drop.link.log[i].Stop?
  {
  }

  lemma PageReadGoesOn(x: Pair)
    requires Inv(x) && Live(x) && PageCanRead(x)
    ensures Live(Apply(x, PageReads))
  {
    PageFinds(x);
    PageSaysNoStop(x);
    hide IsAllowed, PageLog, DropLog, DropCounts, DropSent, AnswersMatch, RestartsInStep;
  }

  lemma PageSendGoesOn(x: Pair, step: Step)
    requires Inv(x) && Live(x) && Enabled(x, step) && (step.PageOffers? || step.PageAnswers?)
    ensures Live(Apply(x, step))
  {
    hide IsAllowed, PageLog, DropLog, DropCounts, DropSent, RestartsInStep;
  }

  lemma StepGoesOn(x: Pair, step: Step)
    requires Inv(x) && Live(x) && Enabled(x, step) && GoesOn(step) && !Blunders(x, step)
    ensures Live(Apply(x, step))
  {
    hide Inv, Live, Apply;
    match step
    case DropReads => DropReadGoesOn(x);
    case PageReads => PageReadGoesOn(x);
    case PageOffers(_) => PageSendGoesOn(x, step);
    case PageAnswers(_) => PageSendGoesOn(x, step);
    case _ => DropGoesOn(x, step);
  }

  // ---------------------------------------------------------------- what is left to do

  /** What is left: for Drop to set out, for the page to reply, for each message to be read, and for each restart. */
  function Left(x: Pair): int {
    (match x.drop.phase
     case Starting => 9
     case Invited => 5
     case Deciding => 5
     case Accepting => 4
     case _ => 0)
    + 3 * (|x.drop.link.log| - x.page.link.received)
    + (if x.page.phase == Reading || x.page.phase == Granted || x.page.phase == Answering then 2 else 0)
    + (|x.page.link.log| - x.drop.link.received)
    + 6 * (RESTARTS - x.drop.restartsUsed)
    + (if x.drop.restarting then 1 else 0) + (if x.drop.offering then 4 else 0)
  }

  lemma LeftBounded(x: Pair)
    requires Inv(x)
    ensures Left(x) >= 0
  {
    hide DropLog, PageLog, DropSent, AnswersMatch, RestartsInStep, LinkInv;
  }

  lemma DropLeavesLess(x: Pair, step: Step)
    requires Inv(x) && Live(x) && Enabled(x, step) && GoesOn(step) && !step.PageReads? && !step.PageOffers? && !step.PageAnswers?
    ensures Left(Apply(x, step)) < Left(x)
  {
    if step.DropReads? {
      DropFinds(x);
      PageSaysNoStop(x);
    }
    hide IsAllowed, PageLog, DropLog, PageCounts, PageSent, AnswersMatch;
  }

  lemma PageLeavesLess(x: Pair, step: Step)
    requires Inv(x) && Live(x) && Enabled(x, step) && (step.PageReads? || step.PageOffers? || step.PageAnswers?)
    ensures Left(Apply(x, step)) < Left(x)
  {
    if step.PageReads? {
      PageFinds(x);
      PageSaysNoStop(x);
    }
    hide IsAllowed, PageLog, DropLog, DropCounts, DropSent, AnswersMatch, RestartsInStep;
  }

  // ---------------------------------------------------------------- no deadlock

  /** Both ends have read all there is, the page is ready to send and Drop to receive, and no restart is under way. */
  ghost predicate Connected(x: Pair) {
    && x.drop.phase == Receiving && x.page.phase == Sending
    && x.drop.link.received == |x.page.link.log| && x.page.link.received == |x.drop.link.log|
    && !x.drop.restarting && |x.drop.link.log| == |x.page.link.log| >= 2
    && (forall i :: 0 <= i < |x.drop.link.log| ==> DropSaid(i, x.drop.link.log[i]))
    && (forall i :: 0 <= i < |x.page.link.log| ==> PageSaid(i, x.page.link.log[i]))
  }

  /** An invitation, the accept, then restarts. */
  predicate DropSaid(i: nat, m: Message) {
    if i == 0 then m.Invite? else if i == 1 then m.Accept? else m.Restart?
  }

  /** The manifest, the answer, then an answer to each restart. */
  predicate PageSaid(i: nat, m: Message) {
    if i == 0 then m.Manifest? else if i == 1 then m.Answer? else m.RestartAnswer?
  }

  lemma WhatWasSaid(x: Pair)
    requires Inv(x) && Live(x)
    ensures forall i :: 0 <= i < |x.drop.link.log| ==> DropSaid(i, x.drop.link.log[i])
    ensures forall i :: 0 <= i < |x.page.link.log| ==> PageSaid(i, x.page.link.log[i])
  {
    PageSaysNoStop(x);
    forall i | 0 <= i < |x.drop.link.log|
      ensures DropSaid(i, x.drop.link.log[i])
    {
      assert DropPlace(x.drop.link.log, i);
    }
  }

  const SOME_INVITE: Message := Invite(false, [], [], 0)
  const SOME_MANIFEST: Message := Manifest([], 0, [])

  /** Until they are connected some step is due. */
  lemma Due(x: Pair) returns (step: Step)
    requires Inv(x) && Live(x) && !Connected(x)
    ensures Enabled(x, step) && IsDue(step) && !Blunders(x, step)
  {
    match x.drop.phase
    case Starting => step := DropInvites(SOME_INVITE);
    case Deciding => step := DropMakesPeer;
    case Accepting => step := DropAccepts(Accept([]));
    case _ =>
      match x.page.phase {
        case Reading => step := PageOffers(SOME_MANIFEST);
        case Granted => step := PageAnswers(Answer([], []));
        case Answering => step := PageAnswers(RestartAnswer([]));
        case _ =>
          if DropCanRead(x) {
            step := DropReads;
          } else if PageCanRead(x) {
            step := PageReads;
          } else if x.drop.offering {
            step := DropOffersRestart(Restart([]));
          } else {
            step := DropApplies;
            AllRead(x);
          }
      }
  }

  /** With everything read, two ends that go on are connected but for the restart that remains to be applied. */
  lemma AllRead(x: Pair)
    requires Inv(x) && Live(x) && !DropCanRead(x) && !PageCanRead(x) && !x.drop.offering
    requires x.drop.phase in {Invited, Accepted, Receiving} && x.page.phase in {Waiting, Offered, Sending}
    ensures !Connected(x) ==> x.drop.restarting && x.drop.pending.None?
  {
    WhatWasSaid(x);
    hide IsAllowed, PageLog, DropLog, LinkInv, AnswersMatch, DropSaid, PageSaid;
  }

  // ---------------------------------------------------------------- every run that goes on

  /** Nobody stops or leaves, and no restart goes before the accept. */
  ghost predicate GoesOnRun(states: seq<Pair>, steps: seq<Step>) {
    IsRun(states, steps) && forall j :: 0 <= j < |steps| ==> GoesOn(steps[j]) && !Blunders(states[j], steps[j])
  }

  lemma RunGoesOn(states: seq<Pair>, steps: seq<Step>, i: nat)
    requires GoesOnRun(states, steps) && i < |steps|
    ensures IsRun(states, steps) && GoesOn(steps[i]) && i < |states| && !Blunders(states[i], steps[i])
  {
    hide Enabled, Apply, Blunders;
  }

  lemma IsARun(states: seq<Pair>, steps: seq<Step>)
    requires GoesOnRun(states, steps)
    ensures IsRun(states, steps) && |states| == |steps| + 1 && states[0] == StartPair()
  {
    hide Enabled, Apply, Blunders;
  }

  lemma StartGoesOn()
    ensures Live(StartPair()) && Left(StartPair()) == 39
  {
  }

  lemma {:induction false} StaysLive(states: seq<Pair>, steps: seq<Step>, i: nat)
    requires GoesOnRun(states, steps) && i < |states|
    ensures Live(states[i]) && Left(states[i]) + i <= 39
  {
    hide *;
    IsARun(states, steps);
    StartGoesOn();
    if i > 0 {
      StaysLive(states, steps, i - 1);
      RunGoesOn(states, steps, i - 1);
      RunStep(states, steps, i - 1);
      RunKeeps(states, steps, i - 1);
      StepGoesOn(states[i - 1], steps[i - 1]);
      StepLeavesLess(states[i - 1], steps[i - 1]);
    }
  }

  lemma StepLeavesLess(x: Pair, step: Step)
    requires Inv(x) && Live(x) && Enabled(x, step) && GoesOn(step)
    ensures Left(Apply(x, step)) < Left(x)
  {
    hide Inv, Live, Apply, Enabled, Left;
    if step.PageReads? || step.PageOffers? || step.PageAnswers? {
      PageLeavesLess(x, step);
    } else {
      DropLeavesLess(x, step);
    }
  }

  lemma StuckMeansConnected(x: Pair)
    requires Inv(x) && Live(x) && forall step :: IsDue(step) ==> !Enabled(x, step)
    ensures Connected(x)
  {
    hide *;
    if !Connected(x) {
      var step := Due(x);
    }
  }

  /**
   A session cannot deadlock or run for ever: a run in which nobody stops, declines, fails to read or leaves, and no
   restart goes before the accept, has at most thirty-nine steps. When no step is due any more, the page has accepted
   answers to everything: both have read all there is, every restart has been answered at its index and applied.
   */
  lemma ReachesConnected(states: seq<Pair>, steps: seq<Step>)
    requires GoesOnRun(states, steps)
    ensures |steps| <= 39 && |states| == |steps| + 1
    ensures (forall step :: IsDue(step) ==> !Enabled(states[|steps|], step)) ==> Connected(states[|steps|])
  {
    hide *;
    IsARun(states, steps);
    StaysLive(states, steps, |steps|);
    RunKeeps(states, steps, |steps|);
    LeftBounded(states[|steps|]);
    if forall step :: IsDue(step) ==> !Enabled(states[|steps|], step) {
      StuckMeansConnected(states[|steps|]);
    }
  }

  // ---------------------------------------------------------------- it happens

  /** Two ends that have just connected. */
  function Joined(invite: Message, manifest: Message, accept: Message, answer: Message): Pair {
    Pair(DropState(LinkState(2, 2, false, false, [invite, accept]), Receiving, 0, false, false, None, false),
         PageState(LinkState(2, 2, false, false, [manifest, answer]), Sending, false))
  }

  /** Drop has invited and has read the page's manifest. */
  function Offer(invite: Message, manifest: Message): Pair {
    Pair(DropState(LinkState(1, 1, false, false, [invite]), Deciding, 0, false, false, None, false),
         PageState(LinkState(1, 1, false, false, [manifest]), Offered, false))
  }

  lemma OfferRun(invite: Message, manifest: Message) returns (states: seq<Pair>, steps: seq<Step>)
    requires invite.Invite? && manifest.Manifest?
    ensures IsRun(states, steps) && |states| == |steps| + 1 == 5 && states[4] == Offer(invite, manifest)
  {
    hide IsAllowed, IsRun;
    AllowedExactly(0, invite);
    AllowedExactly(0, manifest);
    states, steps := AtStart();
    states, steps := Longer(states, steps, DropInvites(invite));
    states, steps := Longer(states, steps, PageReads);
    states, steps := Longer(states, steps, PageOffers(manifest));
    states, steps := Longer(states, steps, DropReads);
    RunLength(states, steps);
  }

  lemma JoinedRun(invite: Message, manifest: Message, accept: Message, answer: Message)
    returns (states: seq<Pair>, steps: seq<Step>)
    requires invite.Invite? && manifest.Manifest? && accept.Accept? && answer.Answer?
    ensures IsRun(states, steps) && |states| == |steps| + 1 == 10
    ensures states[9] == Joined(invite, manifest, accept, answer)
  {
    hide IsAllowed, IsRun;
    AllowedExactly(1, accept);
    AllowedExactly(1, answer);
    states, steps := OfferRun(invite, manifest);
    states, steps := Longer(states, steps, DropMakesPeer);
    states, steps := Longer(states, steps, DropAccepts(accept));
    states, steps := Longer(states, steps, PageReads);
    states, steps := Longer(states, steps, PageAnswers(answer));
    states, steps := Longer(states, steps, DropReads);
    RunLength(states, steps);
  }

  lemma RunLength(states: seq<Pair>, steps: seq<Step>)
    requires IsRun(states, steps)
    ensures |states| == |steps| + 1
  {
    hide Enabled, Apply;
  }

  /** An offer and its answer are exchanged, then a restart and its answer, and the restart is applied. */
  lemma RestartHappens(invite: Message, manifest: Message, accept: Message, answer: Message, restart: Message, reply: Message)
    requires invite.Invite? && manifest.Manifest? && accept.Accept? && answer.Answer? && restart.Restart? && reply.RestartAnswer?
    ensures exists states: seq<Pair>, steps: seq<Step> ::
              IsRun(states, steps) && |steps| == 15 && |states| == 16 && Connected(states[15])
              && states[15].drop.link.log == [invite, accept, restart] && states[15].page.link.log == [manifest, answer, reply]
  {
    hide IsAllowed, IsRun;
    var states, steps := JoinedRun(invite, manifest, accept, answer);
    AllowedExactly(2, restart);
    AllowedExactly(2, reply);
    states, steps := Longer(states, steps, DropRestarts);
    states, steps := Longer(states, steps, DropOffersRestart(restart));
    states, steps := Longer(states, steps, PageReads);
    states, steps := Longer(states, steps, PageAnswers(reply));
    states, steps := Longer(states, steps, DropReads);
    states, steps := Longer(states, steps, DropApplies);
    RunLength(states, steps);
  }

  // ---------------------------------------------------------------- a stop ends it

  ghost predicate DropHeardStop(x: Pair) {
    exists i :: 0 <= i < x.drop.link.received && i < |x.page.link.log| && x.page.link.log[i].Stop?
  }

  ghost predicate PageHeardStop(x: Pair) {
    exists i :: 0 <= i < x.page.link.received && i < |x.drop.link.log| && x.drop.link.log[i].Stop?
  }

  /** The page's log only grows, and what has been read is in it. */
  lemma PageLogGrows(x: Pair, step: Step)
    requires Inv(x) && Enabled(x, step)
    ensures x.page.link.log <= Apply(x, step).page.link.log && x.drop.link.received <= |x.page.link.log|
  {
    hide Inv, IsAllowed;
    Received(x);
  }

  lemma Received(x: Pair)
    requires Inv(x)
    ensures x.drop.link.received <= |x.page.link.log|
  {
    hide DropLog, PageLog, LinkInv, DropCounts, DropSent, PageSent, AnswersMatch, PageCounts;
  }

  lemma DropReadsStop(x: Pair, step: Step)
    requires Inv(x) && Enabled(x, step)
    ensures x.drop.phase == Over ==> Apply(x, step).drop.phase == Over
    ensures Apply(x, step).drop.link.received == x.drop.link.received
         || (step.DropReads? && Apply(x, step).drop.link.received == x.drop.link.received + 1 <= |x.page.link.log|
             && (x.page.link.log[x.drop.link.received].Stop? ==> Apply(x, step).drop.phase == Over))
  {
    hide Inv, IsAllowed;
  }

  lemma DropHearsStep(x: Pair, step: Step)
    requires Inv(x) && Enabled(x, step) && (DropHeardStop(x) ==> x.drop.phase == Over)
    ensures DropHeardStop(Apply(x, step)) ==> Apply(x, step).drop.phase == Over
  {
    hide Inv, Apply, Enabled;
    PageLogGrows(x, step);
    DropReadsStop(x, step);
    var y := Apply(x, step);
    if i :| 0 <= i < y.drop.link.received && i < |y.page.link.log| && y.page.link.log[i].Stop? {
      if i < x.drop.link.received {
        assert x.page.link.log[i] == y.page.link.log[i];
        assert DropHeardStop(x);
      } else {
        assert i == x.drop.link.received;
      }
    }
  }

  lemma {:induction false} DropHeeds(states: seq<Pair>, steps: seq<Step>, i: nat)
    requires IsRun(states, steps) && i < |states|
    ensures DropHeardStop(states[i]) ==> states[i].drop.phase == Over
  {
    hide IsRun, Inv, Apply, Enabled;
    RunStarts(states, steps);
    if i > 0 {
      DropHeeds(states, steps, i - 1);
      RunKeeps(states, steps, i - 1);
      RunStep(states, steps, i - 1);
      DropHearsStep(states[i - 1], steps[i - 1]);
    }
  }

  /** In every state of every run an end that has read a stop is over, and so sends and reads nothing more. */
  lemma StopsEnd(states: seq<Pair>, steps: seq<Step>, i: nat)
    requires IsRun(states, steps) && i < |states|
    ensures DropHeardStop(states[i]) ==> states[i].drop.phase == Over
    ensures PageHeardStop(states[i]) ==> states[i].page.phase == Finished
  {
    DropHeeds(states, steps, i);
    RunKeeps(states, steps, i);
    hide DropLog, PageLog, LinkInv, DropCounts, DropSent, PageSent, AnswersMatch;
  }
}
