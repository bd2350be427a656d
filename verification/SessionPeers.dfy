/** What each end of a session makes of any message, whatever the other end sends. */
module SessionPeers {
  import opened Wrappers
  import opened Messages
  import opened Session
  import opened SessionSafety

  /** The message that Drop is waiting for. */
  predicate DropExpects(d: DropState, m: Message) {
    match d.phase
    case Invited => d.link.received == 0 && m.Manifest?
    case Accepted => d.link.received == 1 && m.Answer?
    case Receiving => 2 <= d.link.received <= 6 && m.RestartAnswer? && d.pending == Some(d.link.received)
    case _ => false
  }

  /** The message that the page is waiting for. Drop may decline instead of accepting. */
  predicate PageExpects(p: PageState, m: Message) {
    match p.phase
    case Waiting => p.link.received == 0 && m.Invite?
    case Offered => p.link.received == 1 && (m.Accept? || m.Decline?)
    case Sending => 2 <= p.link.received <= 6 && m.Restart? && p.link.received == p.link.sent
    case _ => false
  }

  /** A stop ends the exchange; it may be any message of the eight but Drop's first. */
  predicate IsStopIn(m: Message, index: nat, first: nat) {
    m.Stop? && first <= index <= 7
  }

  /** A link that has read one more message and, unless it had stopped or has none left, stops as failed. */
  predicate StopsAsFailed(l: LinkState, l': LinkState) {
    && l'.received == l.received + 1 && l'.ended == l.ended
    && if l.stopped || l.ended || l.sent >= 8 then l' == l.(received := l'.received, stopped := l'.stopped) && (l.stopped ==> l'.stopped)
       else l'.log == l.log + [Stop(Failed)] && l'.sent == l.sent + 1 && l'.stopped
  }

  /** Once an end has ended the exchange it sends and reads nothing more. */
  lemma EndedStays(x: Pair, step: Step)
    requires Enabled(x, step)
    ensures step.DropEnds? ==> Apply(x, step).drop.link.ended
    ensures step.PageEnds? ==> Apply(x, step).page.link.ended
    ensures x.drop.link.ended ==> Apply(x, step).drop.link.(stopped := x.drop.link.stopped) == x.drop.link
    ensures x.page.link.ended ==> Apply(x, step).page.link.(stopped := x.page.link.stopped) == x.page.link
  {
    hide IsAllowed;
  }

  /** What Drop expects takes it one phase further; a stop ends it; anything else it answers with a stop, and is over. */
  lemma DropTakes(d: DropState, m: Message)
    requires d.phase in {Invited, Accepted, Receiving}
    ensures
      var d' := DropAfterReading(d, m);
      if DropExpects(d, m) then
        d' == d.(link := d.link.(received := d.link.received + 1),
                 phase := if m.Manifest? then Deciding else Receiving,
                 pending := if m.RestartAnswer? then None else d.pending)
      else if IsStopIn(m, d.link.received, 0) then
        d' == d.(link := d.link.(received := d.link.received + 1, stopped := true), phase := Over)
      else
        d' == d.(link := d'.link, phase := Over, violated := d.violated || !d.link.stopped) && StopsAsFailed(d.link, d'.link)
  {
    AllowedExactly(d.link.received, m);
    hide IsAllowed;
  }

  lemma PageTakes(p: PageState, m: Message)
    requires p.phase in {Waiting, Offered, Sending}
    requires p.phase == Waiting ==> p.link.received == 0
    ensures
      var p' := PageAfterReading(p, m);
      if PageExpects(p, m) then
        p' == p.(link := p.link.(received := p.link.received + 1, ended := p.link.ended || m.Decline?),
                 phase := if m.Invite? then Reading else if m.Accept? then Granted else if m.Restart? then Answering else Finished)
      else if IsStopIn(m, p.link.received, 1) then
        p' == p.(link := p.link.(received := p.link.received + 1, stopped := true), phase := Finished)
      else
        p' == p.(link := p'.link, phase := Finished, violated := p.violated || !p.link.stopped) && StopsAsFailed(p.link, p'.link)
  {
    AllowedExactly(p.link.received, m);
    hide IsAllowed;
  }
}
