/** Pacing a relayed send: a token bucket that follows the path, over real time and real tokens. */
module Pacing {
  import opened Wrappers

  /** How many bytes may go now (no number for no limit), and when to ask again if that is none. */
  datatype Verdict = Verdict(bytes: Option<int>, retryMs: Option<int>)

  predicate Refuses(v: Verdict) {
    v.bytes.Some? && v.bytes.value <= 0
  }

  // ---------------------------------------------------------------- the strictest of several rules

  /** The verdict allows what the strictest of the rules allows, and asks again when the soonest of those that refuse asks. */
  ghost predicate IsStrictest(v: Verdict, rules: seq<Verdict>) {
    && (forall i :: 0 <= i < |rules| && rules[i].bytes.Some? ==>
          v.bytes.Some? && 0 <= v.bytes.value <= Max(0, rules[i].bytes.value))
    && (v.bytes.Some? ==> exists i :: 0 <= i < |rules| && AllowsJust(rules[i], v.bytes.value))
    && (!Refuses(v) ==> v.retryMs.None?)
    && (Refuses(v) ==> IsSoonest(v.retryMs, rules))
  }

  /** The rule's number of bytes, a refusal counting as none. */
  predicate AllowsJust(rule: Verdict, bytes: int) {
    rule.bytes.Some? && (rule.bytes.value == bytes || (rule.bytes.value <= 0 && bytes == 0))
  }

  ghost predicate IsSoonest(retryMs: Option<int>, rules: seq<Verdict>) {
    && (forall i :: 0 <= i < |rules| && Refuses(rules[i]) && rules[i].retryMs.Some? ==>
          retryMs.Some? && retryMs.value <= rules[i].retryMs.value)
    && (retryMs.Some? ==> exists i :: 0 <= i < |rules| && Refuses(rules[i]) && rules[i].retryMs == retryMs)
  }

  method Stricter(rules: seq<Verdict>) returns (v: Verdict)
    ensures IsStrictest(v, rules)
  {
    var bytes: Option<int> := None;
    var retryMs: Option<int> := None;
    for i := 0 to |rules|
      invariant forall j :: 0 <= j < i && rules[j].bytes.Some? ==> bytes.Some? && bytes.value <= rules[j].bytes.value
      invariant bytes.Some? ==> exists j :: 0 <= j < i && rules[j].bytes == bytes
      invariant IsSoonest(retryMs, rules[..i])
    {
      ghost var before := rules[..i];
      assert rules[..i + 1] == before + [rules[i]];
      SoonestNext(before, rules[i], retryMs);
      var verdict := rules[i];
      if verdict.bytes.Some? && (bytes.None? || verdict.bytes.value < bytes.value) {
        bytes := verdict.bytes;
      }
      if Refuses(verdict) && verdict.retryMs.Some? {
        retryMs := if retryMs.None? || verdict.retryMs.value < retryMs.value then verdict.retryMs else retryMs;
      }
    }
    assert rules[..|rules|] == rules;
    if bytes.Some? {
      ghost var k :| 0 <= k < |rules| && rules[k].bytes == bytes;
      assert AllowsJust(rules[k], Max(0, bytes.value));
    }
    if bytes.None? || bytes.value > 0 {
      return Verdict(bytes, None);
    }
    v := Verdict(Some(0), retryMs);
  }

  lemma SoonestNext(rules: seq<Verdict>, rule: Verdict, retryMs: Option<int>)
    requires IsSoonest(retryMs, rules)
    ensures
      var next := if Refuses(rule) && rule.retryMs.Some?
                  then (if retryMs.None? || rule.retryMs.value < retryMs.value then rule.retryMs else retryMs)
                  else retryMs;
      IsSoonest(next, rules + [rule])
  {
    var all := rules + [rule];
    assert all[|rules|] == rule;
    if retryMs.Some? {
      var i :| 0 <= i < |rules| && Refuses(rules[i]) && rules[i].retryMs == retryMs;
      assert all[i] == rules[i];
    }
  }

  // ---------------------------------------------------------------- the bucket

  const RELAY_BYTES_PER_SECOND: real := 400_000.0
  const RELAY_BURST_BYTES: real := 65_536.0

  /** A question: the time in milliseconds, the bytes sent so far in all, and what the next frame would carry. */
  datatype Ask = Ask(time: real, sent: int, wanted: int)

  datatype Bucket = Bucket(rate: real, burst: real, tokens: real, lastSent: Option<int>, lastTime: real)

  /** What the rate brings in this many milliseconds. */
  function Earned(rate: real, ms: real): real {
    ms / 1000.0 * rate
  }

  function MinReal(a: real, b: real): real {
    if a < b then a else b
  }

  function Ceiling(x: real): int {
    -(-x).Floor
  }

  function Max(a: int, b: int): int {
    if a > b then a else b
  }

  function Refill(b: Bucket, ask: Ask): Bucket {
    var tokens := if b.lastSent.None? then b.burst
                  else MinReal(b.burst, b.tokens - (ask.sent - b.lastSent.value) as real + Earned(b.rate, ask.time - b.lastTime));
    b.(tokens := tokens, lastSent := Some(ask.sent), lastTime := ask.time)
  }

  function Need(b: Bucket, wanted: int): real {
    MinReal(wanted as real, b.burst)
  }

  function WaitMs(rate: real, missing: real): real
    requires rate > 0.0
  {
    missing / rate * 1000.0
  }

  /** The answer once the bucket has been refilled. */
  function Answer(b: Bucket, wanted: int): Verdict
    requires b.rate > 0.0
  {
    var need := Need(b, wanted);
    if b.tokens >= need then Verdict(Some(Max(1, b.tokens.Floor)), None)
    else Verdict(Some(0), Some(Max(1, Ceiling(WaitMs(b.rate, need - b.tokens)))))
  }

  class RatePacer {
    const rate: real
    const burst: real
    var tokens: real
    var lastSent: Option<int>
    var lastTime: real

    function State(): Bucket
      reads this
    {
      Bucket(rate, burst, tokens, lastSent, lastTime)
    }

    constructor (rate: real, burst: real)
      ensures State() == Bucket(rate, burst, burst, None, 0.0)
    {
      this.rate, this.burst := rate, burst;
      tokens, lastSent, lastTime := burst, None, 0.0;
    }

    method Pacing(time: real, sent: int, wanted: int) returns (v: Verdict)
      requires rate > 0.0
      modifies `tokens, `lastSent, `lastTime
      ensures State() == Refill(old(State()), Ask(time, sent, wanted)) && v == Answer(State(), wanted)
    {
      if lastSent.None? {
        tokens := burst;
      } else {
        tokens := MinReal(burst, tokens - (sent - lastSent.value) as real + (time - lastTime) / 1000.0 * rate);
      }
      lastSent, lastTime := Some(sent), time;
      var need := MinReal(wanted as real, burst);
      if tokens >= need {
        return Verdict(Some(Max(1, tokens.Floor)), None);
      }
      v := Verdict(Some(0), Some(Max(1, Ceiling((need - tokens) / rate * 1000.0))));
    }

    method Reset()
      modifies `lastSent
      ensures State() == old(State()).(lastSent := None)
    {
      lastSent := None;
    }
  }

  // ---------------------------------------------------------------- what a paced stretch allows

  /** The buckets after each question of a stretch that starts with a reset one. */
  function After(b: Bucket, asks: seq<Ask>, n: nat): (r: Bucket)
    requires n <= |asks|
    ensures r.rate == b.rate && r.burst == b.burst
  {
    if n == 0 then b else Refill(After(b, asks, n - 1), asks[n - 1])
  }

  /** Bytes that an answer lets the sender take. */
  function Allowed(b: Bucket, ask: Ask): int
    requires b.rate > 0.0
  {
    Answer(b, ask.wanted).bytes.value
  }

  /** The clock does not go back, frames are not empty, and between two questions no more is sent than was allowed. */
  ghost predicate Obeys(b: Bucket, asks: seq<Ask>)
    requires b.rate > 0.0
  {
    && (forall i :: 0 <= i < |asks| ==> asks[i].wanted >= 1)
    && forall i :: 0 <= i < |asks| - 1 ==>
         asks[i].time <= asks[i + 1].time && 0 <= asks[i + 1].sent - asks[i].sent <= Allowed(After(b, asks, i + 1), asks[i])
  }

  lemma EarnedAdds(rate: real, a: real, b: real)
    ensures Earned(rate, a) + Earned(rate, b) == Earned(rate, a + b)
  {
  }

  /** So many tokens a second: a thousandth of that for a millisecond. */
  lemma EarnedIs(rate: real, ms: real)
    ensures Earned(rate, ms) * 1000.0 == rate * ms
  {
    assert ms / 1000.0 * 1000.0 == ms;
    ThreeFactors(ms / 1000.0, rate, 1000.0);
  }

  lemma ThreeFactors(a: real, b: real, c: real)
    ensures a * b * c == b * (a * c)
  {
  }

  lemma EarnedGrows(rate: real, ms: real)
    requires rate >= 0.0 && ms >= 0.0
    ensures Earned(rate, ms) >= 0.0
  {
  }

  lemma MultiplyGrows(a: real, b: real, rate: real)
    requires rate > 0.0 && a <= b
    ensures a * rate <= b * rate
  {
  }

  lemma CeilingCovers(x: real)
    ensures Ceiling(x) as real >= x
  {
  }

  /** With room for at least one byte, what is allowed is in the bucket. With less it would not be: one byte goes anyway. */
  lemma AllowedIsHeld(b: Bucket, wanted: int)
    requires b.rate > 0.0 && b.tokens <= b.burst && wanted >= 1 && b.tokens >= 0.0
    ensures b.burst >= 1.0 ==> Answer(b, wanted).bytes.value as real <= b.tokens
    ensures b.burst < 1.0 && b.tokens == b.burst ==> Answer(b, wanted).bytes.value as real > b.tokens
  {
  }

  /** The bucket is never overdrawn and never overfull. */
  lemma {:induction false} TokensBounded(b: Bucket, asks: seq<Ask>, n: nat)
    requires b.rate > 0.0 && b.burst >= 1.0 && b.lastSent.None? && Obeys(b, asks) && 0 < n <= |asks|
    ensures 0.0 <= After(b, asks, n).tokens <= b.burst
    ensures After(b, asks, n) == Bucket(b.rate, b.burst, After(b, asks, n).tokens, Some(asks[n - 1].sent), asks[n - 1].time)
  {
    if n > 1 {
      TokensBounded(b, asks, n - 1);
      var before := After(b, asks, n - 1);
      AllowedIsHeld(before, asks[n - 2].wanted);
      EarnedGrows(b.rate, asks[n - 1].time - asks[n - 2].time);
      assert asks[n - 1].sent - asks[n - 2].sent <= Allowed(before, asks[n - 2]);
      hide Answer, Earned;
    }
  }

  lemma TokensStep(b: Bucket, asks: seq<Ask>, n: nat)
    requires b.rate > 0.0 && b.burst >= 1.0 && b.lastSent.None? && Obeys(b, asks) && 0 < n < |asks|
    ensures After(b, asks, n + 1).tokens
         <= After(b, asks, n).tokens - (asks[n].sent - asks[n - 1].sent) as real + Earned(b.rate, asks[n].time - asks[n - 1].time)
  {
    TokensBounded(b, asks, n);
    hide Earned, Obeys;
  }

  lemma {:induction false} TokensSpent(b: Bucket, asks: seq<Ask>, i: nat, j: nat)
    requires b.rate > 0.0 && b.burst >= 1.0 && b.lastSent.None? && Obeys(b, asks) && i <= j < |asks|
    ensures After(b, asks, j + 1).tokens
         <= After(b, asks, i + 1).tokens - (asks[j].sent - asks[i].sent) as real + Earned(b.rate, asks[j].time - asks[i].time)
  {
    if i == j {
      assert Earned(b.rate, 0.0) == 0.0;
    } else {
      hide *;
      TokensSpent(b, asks, i, j - 1);
      TokensStep(b, asks, j);
      EarnedAdds(b.rate, asks[j - 1].time - asks[i].time, asks[j].time - asks[j - 1].time);
    }
  }

  lemma EarnedBound(b: Bucket, asks: seq<Ask>, i: nat, j: nat, sent: int)
    requires b.rate > 0.0 && b.burst >= 1.0 && b.lastSent.None? && Obeys(b, asks) && i <= j < |asks|
    requires sent - asks[j].sent <= Allowed(After(b, asks, j + 1), asks[j])
    ensures (sent - asks[i].sent) as real <= b.burst + Earned(b.rate, asks[j].time - asks[i].time)
  {
    TokensBounded(b, asks, i + 1);
    TokensBounded(b, asks, j + 1);
    TokensSpent(b, asks, i, j);
    AllowedIsHeld(After(b, asks, j + 1), asks[j].wanted);
    hide Earned, Answer, After;
  }

  /**
   Over any stretch between resets no more is sent than the bucket holds plus what the rate, in bytes a second, brings in
   that time in milliseconds, counting what may still go on the strength of the last answer.
   */
  lemma RateBound(b: Bucket, asks: seq<Ask>, i: nat, j: nat, sent: int)
    requires b.rate > 0.0 && b.burst >= 1.0 && b.lastSent.None? && Obeys(b, asks) && i <= j < |asks|
    requires sent - asks[j].sent <= Allowed(After(b, asks, j + 1), asks[j])
    ensures (sent - asks[i].sent) as real * 1000.0 <= b.burst * 1000.0 + b.rate * (asks[j].time - asks[i].time)
  {
    hide *;
    EarnedBound(b, asks, i, j, sent);
    InThousandths((sent - asks[i].sent) as real, b.burst, b.rate, asks[j].time - asks[i].time);
  }

  lemma InThousandths(bytes: real, burst: real, rate: real, ms: real)
    requires bytes <= burst + Earned(rate, ms)
    ensures bytes * 1000.0 <= burst * 1000.0 + rate * ms
  {
    EarnedIs(rate, ms);
    hide *;
  }

  /** A thousand times the tokens there would be if the bucket had no brim. */
  function Grown(b: Bucket, ask: Ask): real
    requires b.lastSent.Some?
  {
    b.tokens * 1000.0 - (ask.sent - b.lastSent.value) as real * 1000.0 + b.rate * (ask.time - b.lastTime)
  }

  lemma RefillIs(b: Bucket, ask: Ask)
    requires b.lastSent.Some?
    ensures Refill(b, ask).tokens * 1000.0 == MinReal(b.burst * 1000.0, Grown(b, ask))
  {
    EarnedIs(b.rate, ask.time - b.lastTime);
    hide Earned;
  }

  /** The first question after a reset finds a full bucket, so it is never refused. */
  lemma FirstIsFull(b: Bucket, ask: Ask)
    requires b.rate > 0.0 && b.lastSent.None? && b.burst >= 1.0
    ensures var bytes := Answer(Refill(b, ask), ask.wanted).bytes.value; bytes >= 1 && bytes as real <= b.burst < (bytes + 1) as real
  {
  }

  /**
   Exactly when the next question is allowed anything, and how much: what has been sent since the last goes out of the
   bucket, what the rate has brought since comes in, and there must be enough for the frame, or for a whole bucket.
   */
  lemma AllowedExactly(b: Bucket, ask: Ask)
    requires b.rate > 0.0 && b.burst >= 1.0 && b.lastSent.Some? && ask.wanted >= 1
    ensures
      var v := Answer(Refill(b, ask), ask.wanted);
      var grown := b.tokens * 1000.0 - (ask.sent - b.lastSent.value) as real * 1000.0 + b.rate * (ask.time - b.lastTime);
      && (Refuses(v) <==> grown < ask.wanted as real * 1000.0 && grown < b.burst * 1000.0)
      && (!Refuses(v) ==>
            && v.bytes.value >= 1
            && v.bytes.value as real * 1000.0 <= grown && v.bytes.value as real <= b.burst
            && ((v.bytes.value + 1) as real * 1000.0 > grown || (v.bytes.value + 1) as real > b.burst))
  {
    RefillIs(b, ask);
    hide Refill;
  }

  /** The time to ask again is the soonest whole number of milliseconds, one at least, in which what is missing comes in. */
  lemma RetryIsSoonest(b: Bucket, wanted: int, ms: int)
    requires b.rate > 0.0 && Refuses(Answer(b, wanted)) && ms >= 1
    ensures
      var need := if wanted as real < b.burst then wanted as real else b.burst;
      ms >= Answer(b, wanted).retryMs.value <==> b.rate * ms as real >= (need - b.tokens) * 1000.0
  {
    var missing := Need(b, wanted) - b.tokens;
    var wait := WaitMs(b.rate, missing);
    assert missing / b.rate * b.rate == missing;
    ThreeFactors(missing / b.rate, b.rate, 1000.0);
    assert b.rate * wait == missing * 1000.0;
    CeilingCovers(wait);
    hide WaitMs;
    if ms as real >= wait {
      MultiplyGrows(wait, ms as real, b.rate);
    } else {
      MultiplyLess(ms as real, wait, b.rate);
    }
  }

  lemma MultiplyLess(a: real, b: real, rate: real)
    requires rate > 0.0 && a < b
    ensures a * rate < b * rate
  {
  }

  /**
   After a refusal, with nothing sent, the same question is allowed exactly once what was missing has come in. When asked
   as soon as told that is enough for a whole frame, or a whole bucket if that is less.
   */
  lemma RetryAllows(b: Bucket, time: real, sent: int, wanted: int, later: Ask)
    requires b.rate > 0.0 && b.burst >= 1.0 && wanted >= 1 && b.lastSent == Some(sent) && b.lastTime == time
    requires Refuses(Answer(b, wanted)) && later.sent == sent && later.wanted == wanted
    ensures
      var need := if wanted as real < b.burst then wanted as real else b.burst;
      var v := Answer(Refill(b, later), wanted);
      && (!Refuses(v) <==> (later.time - time) * b.rate >= (need - b.tokens) * 1000.0)
      && (later.time >= time + Answer(b, wanted).retryMs.value as real ==> v.bytes.value >= need.Floor >= 1)
  {
    hide *;
    RetryIsPositive(b, wanted);
    RefillKeeps(b, later);
    AllowedAgain(b, time, sent, wanted, later);
    AllowsNeed(Refill(b, later), wanted);
    var retry := Answer(b, wanted).retryMs.value;
    if later.time >= time + retry as real {
      RetryIsSoonest(b, wanted, retry);
      MultiplyGrows(retry as real, later.time - time, b.rate);
    }
  }

  lemma RetryIsPositive(b: Bucket, wanted: int)
    requires b.rate > 0.0 && Refuses(Answer(b, wanted))
    ensures Answer(b, wanted).retryMs.Some? && Answer(b, wanted).retryMs.value >= 1
  {
  }

  lemma RefillKeeps(b: Bucket, ask: Ask)
    ensures Refill(b, ask).rate == b.rate && Refill(b, ask).burst == b.burst
  {
  }

  lemma AllowsNeed(b: Bucket, wanted: int)
    requires b.rate > 0.0 && b.burst >= 1.0 && wanted >= 1
    ensures var need := if wanted as real < b.burst then wanted as real else b.burst;
            need >= 1.0 && (!Refuses(Answer(b, wanted)) ==> Answer(b, wanted).bytes.value >= need.Floor >= 1)
  {
  }

  lemma AllowedAgain(b: Bucket, time: real, sent: int, wanted: int, later: Ask)
    requires b.rate > 0.0 && b.burst >= 1.0 && wanted >= 1 && b.lastSent == Some(sent) && b.lastTime == time
    requires Refuses(Answer(b, wanted)) && later.sent == sent && later.wanted == wanted
    ensures var need := if wanted as real < b.burst then wanted as real else b.burst;
            !Refuses(Answer(Refill(b, later), wanted)) <==> (later.time - time) * b.rate >= (need - b.tokens) * 1000.0
  {
    hide Refill, Answer;
    AllowedExactly(b, later);
  }

  // ---------------------------------------------------------------- following the path

  const UNKNOWN_RETRY_MS: int := 250

  datatype Path = Relayed | Direct | Unknown

  datatype PathState = PathState(bucket: Bucket, path: Path)

  /** What happens to the pacing: the sender asks while the protocol's own rule allows so much, or the path is read. */
  datatype PathEvent = Asked(ask: Ask, protocol: nat) | Became(path: Path)

  function PathStep(s: PathState, e: PathEvent): PathState {
    match e
    case Asked(ask, _) => if s.path == Direct then s else s.(bucket := Refill(s.bucket, ask))
    case Became(path) =>
      PathState(if path == Direct && s.path != Direct then s.bucket.(lastSent := None) else s.bucket, path)
  }

  function PathRun(s: PathState, events: seq<PathEvent>): (r: PathState)
    ensures r.bucket.rate == s.bucket.rate && r.bucket.burst == s.bucket.burst
  {
    if |events| == 0 then s else PathStep(PathRun(s, events[..|events| - 1]), events[|events| - 1])
  }

  function AsksOf(events: seq<PathEvent>): seq<Ask> {
    if |events| == 0 then []
    else
      var last := events[|events| - 1];
      AsksOf(events[..|events| - 1]) + if last.Asked? then [last.ask] else []
  }

  /** How many bytes the answer allows in the state that asking has led to. */
  function PathAllowed(s: PathState, wanted: int, protocol: nat): int
    requires s.bucket.rate > 0.0
  {
    if s.path == Direct then protocol
    else
      var paced := Answer(s.bucket, wanted).bytes.value;
      if protocol < paced then protocol else paced
  }

  /** The answers to the questions. */
  function AnswersOf(s: PathState, events: seq<PathEvent>): seq<int>
    requires s.bucket.rate > 0.0
  {
    if |events| == 0 then []
    else
      var last := events[|events| - 1];
      AnswersOf(s, events[..|events| - 1])
      + if last.Asked? then [PathAllowed(PathRun(s, events), last.ask.wanted, last.protocol)] else []
  }

  /** On a direct path the bucket is forgotten, so the stretch that follows starts afresh. */
  lemma {:induction false} DirectForgets(s: PathState, events: seq<PathEvent>)
    requires s.path == Direct ==> s.bucket.lastSent.None?
    ensures PathRun(s, events).path == Direct ==> PathRun(s, events).bucket.lastSent.None?
  {
    if |events| > 0 {
      DirectForgets(s, events[..|events| - 1]);
    }
  }

  lemma {:induction false} AfterPrefix(b: Bucket, asks: seq<Ask>, more: seq<Ask>, n: nat)
    requires n <= |asks|
    ensures After(b, asks + more, n) == After(b, asks, n)
  {
    if n > 0 {
      AfterPrefix(b, asks, more, n - 1);
    }
  }

  ghost predicate NeverDirect(events: seq<PathEvent>) {
    forall i :: 0 <= i < |events| && events[i].Became? ==> events[i].path != Direct
  }

  /** As long as the path does not become direct, the bucket is the one the questions alone make. */
  lemma {:induction false} StretchIsPaced(s: PathState, events: seq<PathEvent>)
    requires s.path != Direct && NeverDirect(events)
    ensures PathRun(s, events).path != Direct
    ensures PathRun(s, events).bucket == After(s.bucket, AsksOf(events), |AsksOf(events)|)
  {
    if |events| > 0 {
      var front, last := events[..|events| - 1], events[|events| - 1];
      StretchIsPaced(s, front);
      if last.Asked? {
        AfterPrefix(s.bucket, AsksOf(front), [last.ask], |AsksOf(front)|);
      } else {
        assert AsksOf(events) == AsksOf(front);
      }
    }
  }

  /** On such a stretch no answer allows more than the bucket would. */
  lemma {:induction false} AnswersWithin(s: PathState, events: seq<PathEvent>, k: nat)
    requires s.bucket.rate > 0.0 && s.path != Direct && NeverDirect(events)
    ensures |AnswersOf(s, events)| == |AsksOf(events)|
    ensures k < |AsksOf(events)| ==>
      AnswersOf(s, events)[k] <= Allowed(After(s.bucket, AsksOf(events), k + 1), AsksOf(events)[k])
  {
    hide Answer, Refill, Max;
    if |events| > 0 {
      var front, last := events[..|events| - 1], events[|events| - 1];
      AnswersWithin(s, front, k);
      StretchIsPaced(s, events);
      if !last.Asked? {
        assert AsksOf(events) == AsksOf(front) && AnswersOf(s, events) == AnswersOf(s, front);
      } else if k < |AsksOf(front)| {
        AfterPrefix(s.bucket, AsksOf(front), [last.ask], k + 1);
      }
    }
  }

  /** The clock does not go back, frames are not empty, and between two questions no more is sent than was answered. */
  ghost predicate TakesAtMost(s: PathState, events: seq<PathEvent>)
    requires s.bucket.rate > 0.0
  {
    var asks, answers := AsksOf(events), AnswersOf(s, events);
    && |answers| == |asks|
    && (forall i :: 0 <= i < |asks| ==> asks[i].wanted >= 1)
    && forall i :: 0 <= i < |asks| - 1 ==>
         asks[i].time <= asks[i + 1].time && 0 <= asks[i + 1].sent - asks[i].sent <= answers[i]
  }

  lemma TakingObeys(s: PathState, events: seq<PathEvent>)
    requires s.bucket.rate > 0.0 && s.path != Direct && NeverDirect(events) && TakesAtMost(s, events)
    ensures Obeys(s.bucket, AsksOf(events))
  {
    var asks := AsksOf(events);
    hide AsksOf, AnswersOf, NeverDirect, After, Allowed;
    forall i | 0 <= i < |asks| - 1
      ensures asks[i + 1].sent - asks[i].sent <= Allowed(After(s.bucket, asks, i + 1), asks[i])
    {
      AnswersWithin(s, events, i);
    }
  }

  /** The pacing as it is made. */
  function PathStart(rate: real, burst: real): PathState {
    PathState(Bucket(rate, burst, burst, None, 0.0), Unknown)
  }

  /** A stretch that is not direct, from the start or from the moment the path stopped being direct. */
  ghost predicate IsStretch(start: PathState, events: seq<PathEvent>, i: nat, j: nat)
    requires i <= j <= |events|
  {
    && PathRun(start, events[..i]).path != Direct && NeverDirect(events[i..j])
    && (i > 0 ==> PathRun(start, events[..i - 1]).path == Direct)
  }

  lemma StretchStartsAfresh(rate: real, burst: real, events: seq<PathEvent>, i: nat, j: nat)
    requires i <= j <= |events| && IsStretch(PathStart(rate, burst), events, i, j)
    ensures var s := PathRun(PathStart(rate, burst), events[..i]);
            s.bucket.lastSent.None? && s.bucket.rate == rate && s.bucket.burst == burst && s.path != Direct && NeverDirect(events[i..j])
  {
    if i > 0 {
      assert events[..i][..i - 1] == events[..i - 1];
      DirectForgets(PathStart(rate, burst), events[..i - 1]);
    }
  }

  /**
   However the path changes, on every stretch where it is relayed or unknown a sender that takes at most what it is
   answered sends at most the burst and what the rate brings in the time, counting what it may still take.
   */
  lemma StretchBound(rate: real, burst: real, events: seq<PathEvent>, i: nat, j: nat, p: nat, q: nat, sent: int)
    requires rate > 0.0 && burst >= 1.0 && i <= j <= |events| && IsStretch(PathStart(rate, burst), events, i, j)
    requires TakesAtMost(PathRun(PathStart(rate, burst), events[..i]), events[i..j])
    requires p <= q < |AsksOf(events[i..j])|
    requires sent - AsksOf(events[i..j])[q].sent <= AnswersOf(PathRun(PathStart(rate, burst), events[..i]), events[i..j])[q]
    ensures var first, last := AsksOf(events[i..j])[p], AsksOf(events[i..j])[q];
            (sent - first.sent) as real * 1000.0 <= burst * 1000.0 + rate * (last.time - first.time)
  {
    hide *;
    var s, stretch := PathRun(PathStart(rate, burst), events[..i]), events[i..j];
    StretchStartsAfresh(rate, burst, events, i, j);
    TakingObeys(s, stretch);
    AnswersWithin(s, stretch, q);
    RateBound(s.bucket, AsksOf(stretch), p, q, sent);
  }

  function SoonerOf(retryMs: Option<int>, latest: int): int {
    if retryMs.None? || retryMs.value > latest then latest else retryMs.value
  }

  class PathPacing {
    const rate: RatePacer
    var path: Path

    ghost function State(): PathState
      reads this, rate
    {
      PathState(rate.State(), path)
    }

    constructor (rate: real, burst: real)
      requires rate > 0.0
      ensures State() == PathStart(rate, burst) && fresh(this.rate)
    {
      this.rate := new RatePacer(rate, burst);
      path := Unknown;
    }

    /** Switching to a direct path forgets the bucket. */
    method SetPath(next: Path)
      modifies `path, rate
      ensures State() == PathStep(old(State()), Became(next))
    {
      if next == Direct && path != Direct {
        rate.Reset();
      }
      path := next;
    }

    /**
     `protocol` is what the protocol's own rule allows. No answer allows more than that, and none but a direct path's
     more than the bucket's. When the bucket is what refuses, the sender is told when to ask again.
     */
    method Pacing(protocol: nat, time: real, sent: int, wanted: int) returns (v: Verdict)
      requires rate.rate > 0.0
      modifies rate
      ensures State() == PathStep(old(State()), Asked(Ask(time, sent, wanted), protocol))
      ensures v.bytes == Some(PathAllowed(State(), wanted, protocol)) && 0 <= v.bytes.value <= protocol
      ensures path == Direct ==> v == Verdict(Some(protocol), None)
      ensures path != Direct ==>
        var paced := Answer(State().bucket, wanted).bytes.value;
        v.bytes.value <= paced && (v.bytes.value == protocol || v.bytes.value == paced)
      ensures path == Relayed ==> v.retryMs == Answer(State().bucket, wanted).retryMs
      ensures path == Unknown && v.bytes.value > 0 ==> v.retryMs.None?
      ensures path == Unknown && v.bytes.value == 0 ==>
        var paced := Answer(State().bucket, wanted).retryMs;
        && v.retryMs.Some? && v.retryMs.value <= 250 && (v.retryMs.value == 250 || v.retryMs == paced)
        && (paced.Some? ==> v.retryMs.value <= paced.value)
    {
      if path == Direct {
        return Verdict(Some(protocol), None);
      }
      var paced := rate.Pacing(time, sent, wanted);
      var rules := [Verdict(Some(protocol), None), paced];
      v := Stricter(rules);
      assert rules[0].bytes == Some(protocol) && rules[1] == paced;
      if path == Unknown && v.bytes == Some(0) {
        v := Verdict(Some(0), Some(SoonerOf(v.retryMs, UNKNOWN_RETRY_MS)));
      }
    }
  }
}
