/**
 One token bucket, crates/pqc-proxy/src/rate_limiter.rs:11-56, over real-valued time and tokens.
 */
module TokenBucket {
  import opened Wrappers
  import opened Clock

  /** A rate limit: so many requests per window of seconds. */
  datatype Limit = Limit(capacity: nat, window: nat)

  /** `refillRate` is None for a window of zero seconds, where the source divides by zero. */
  datatype BucketState = BucketState(tokens: real, lastRefill: real, capacity: real, refillRate: Option<real>)

  /** The quotient of missing tokens and rate: a number of seconds, infinite if the rate is zero,
      and not a number if the rate is that of no requests per zero seconds. */
  datatype RetryTime = Seconds(value: real) | Infinite | Undefined

  datatype RateLimitResult = Allowed | Limited(retryAfter: RetryTime)

  // ----- Specification -----

  function RateOf(limit: Limit): Option<real> {
    if limit.window == 0 then None else Some(limit.capacity as real / limit.window as real)
  }

  function Full(limit: Limit, now: real): BucketState {
    BucketState(limit.capacity as real, now, limit.capacity as real, RateOf(limit))
  }

  function Min(a: real, b: real): real {
    if a <= b then a else b
  }

  /** The tokens that come in during that many seconds. */
  function Gain(seconds: real, rate: real): real {
    seconds * rate
  }

  /** An infinite rate fills the bucket at any time, even if no time has passed: the product is
      then not a number, and the source's minimum prefers the capacity to it. */
  function RefilledTokens(b: BucketState, now: real): real {
    match b.refillRate
    case None => b.capacity
    case Some(rate) => Min(b.tokens + Gain(Elapsed(b.lastRefill, now), rate), b.capacity)
  }

  function Refilled(b: BucketState, now: real): BucketState {
    b.(tokens := RefilledTokens(b, now), lastRefill := now)
  }

  function Checked(b: BucketState, now: real): BucketState {
    var r := Refilled(b, now);
    if r.tokens >= 1.0 then r.(tokens := r.tokens - 1.0) else r
  }

  predicate Admits(b: BucketState, now: real) {
    Refilled(b, now).tokens >= 1.0
  }

  function RetryAfter(b: BucketState): RetryTime {
    if b.tokens >= 1.0 then Seconds(0.0)
    else
      match b.refillRate
      case None => if b.capacity > 0.0 then Seconds(0.0) else Undefined
      case Some(rate) => if rate == 0.0 then Infinite else Seconds((1.0 - b.tokens) / rate)
  }

  function Answer(b: BucketState, now: real): RateLimitResult {
    if Admits(b, now) then Allowed else Limited(RetryAfter(Checked(b, now)))
  }

  /** Between no and all tokens, last touched no later than now. */
  predicate Sound(b: BucketState, now: real) {
    && 0.0 <= b.tokens <= b.capacity
    && (b.refillRate.Some? ==> b.refillRate.value >= 0.0)
    && b.lastRefill <= now
  }

  /** A sound bucket made for the limit. */
  predicate Fits(b: BucketState, limit: Limit, now: real) {
    Sound(b, now) && b.capacity == limit.capacity as real && b.refillRate == RateOf(limit)
  }

  predicate Ascending(times: seq<real>, start: real) {
    && (times != [] ==> start <= times[0])
    && forall i :: 0 < i < |times| ==> times[i - 1] <= times[i]
  }

  /** The bucket after checks at the given times. */
  function After(b: BucketState, times: seq<real>): BucketState
    decreases |times|
  {
    if times == [] then b else After(Checked(b, times[0]), times[1..])
  }

  /** How many of the checks are allowed. */
  function AllowedCount(b: BucketState, times: seq<real>): nat
    decreases |times|
  {
    if times == [] then 0
    else (if Admits(b, times[0]) then 1 else 0) + AllowedCount(Checked(b, times[0]), times[1..])
  }

  /** The answers to checks at the given times. */
  function BucketAnswers(b: BucketState, times: seq<real>): (answers: seq<RateLimitResult>)
    ensures |answers| == |times|
    decreases |times|
  {
    if times == [] then [] else [Answer(b, times[0])] + BucketAnswers(Checked(b, times[0]), times[1..])
  }

  function CountAllowed(answers: seq<RateLimitResult>): nat {
    if answers == [] then 0 else (if answers[0].Allowed? then 1 else 0) + CountAllowed(answers[1..])
  }

  // ----- The bucket object -----

  class Bucket {
    var tokens: real
    var lastRefill: real
    var capacity: real
    var refillRate: Option<real>

    function State(): BucketState
      reads this
    {
      BucketState(tokens, lastRefill, capacity, refillRate)
    }

    constructor (limit: Limit, now: real)
      ensures State() == Full(limit, now)
    {
      tokens := limit.capacity as real;
      lastRefill := now;
      capacity := limit.capacity as real;
      refillRate := if limit.window == 0 then None else Some(limit.capacity as real / limit.window as real);
    }

    method Refill(now: real)
      modifies this`tokens, this`lastRefill
      ensures State() == Refilled(old(State()), now)
      ensures lastRefill == now && tokens <= capacity
      ensures Sound(old(State()), now) ==> tokens >= old(tokens)
    {
      var elapsed := Elapsed(lastRefill, now);
      match refillRate {
        case None => tokens := capacity;
        case Some(rate) =>
          if rate >= 0.0 {
            GainSign(elapsed, rate);
          }
          tokens := Min(tokens + elapsed * rate, capacity);
      }
      lastRefill := now;
    }

    method TryConsume(now: real) returns (allowed: bool)
      modifies this`tokens, this`lastRefill
      ensures State() == Checked(old(State()), now)
      ensures allowed <==> Admits(old(State()), now)
    {
      Refill(now);
      if tokens >= 1.0 {
        tokens := tokens - 1.0;
        allowed := true;
      } else {
        allowed := false;
      }
    }

    method EstimateRetry() returns (retry: RetryTime)
      ensures retry == RetryAfter(State())
    {
      if tokens >= 1.0 {
        return Seconds(0.0);
      }
      match refillRate {
        case None => retry := if capacity > 0.0 then Seconds(0.0) else Undefined;
        case Some(rate) => retry := if rate == 0.0 then Infinite else Seconds((1.0 - tokens) / rate);
      }
    }
  }

  // ----- Properties -----

  lemma GainMonotone(a: real, b: real, r: real)
    requires a <= b && r >= 0.0
    ensures Gain(a, r) <= Gain(b, r)
    ensures a < b && r > 0.0 ==> Gain(a, r) < Gain(b, r)
  {
    GainAdd(a, b - a, r);
    assert a + (b - a) == b;
    GainSign(b - a, r);
    hide Gain;
  }

  lemma GainSign(seconds: real, r: real)
    requires seconds >= 0.0 && r >= 0.0
    ensures Gain(seconds, r) >= 0.0
    ensures seconds > 0.0 && r > 0.0 ==> Gain(seconds, r) > 0.0
  {}

  lemma GainAdd(a: real, b: real, r: real)
    ensures Gain(a + b, r) == Gain(a, r) + Gain(b, r)
  {}

  lemma GainZero(r: real)
    ensures Gain(0.0, r) == 0.0
  {}

  lemma RateFacts(b: BucketState, limit: Limit, now: real)
    requires Fits(b, limit, now)
    ensures b.refillRate.None? <==> limit.window == 0
    ensures limit.window > 0 && limit.capacity > 0 ==> b.refillRate.value > 0.0
    ensures limit.window > 0 ==> Gain(limit.window as real, b.refillRate.value) == b.capacity
  {}

  lemma FitsLater(b: BucketState, limit: Limit, t1: real, t2: real)
    requires Fits(b, limit, t1) && t1 <= t2
    ensures Fits(b, limit, t2)
  {}

  lemma SoundLater(b: BucketState, t1: real, t2: real)
    requires Sound(b, t1) && t1 <= t2
    ensures Sound(b, t2)
  {}

  lemma CheckedSound(b: BucketState, now: real)
    requires Sound(b, now)
    ensures Sound(Refilled(b, now), now) && Sound(Checked(b, now), now)
    ensures b.tokens <= Refilled(b, now).tokens <= b.capacity
    ensures
      var b' := Checked(b, now);
      && (if Admits(b, now) then 1.0 else 0.0) + b'.tokens == Refilled(b, now).tokens
      && b'.refillRate == b.refillRate && b'.capacity == b.capacity && b'.lastRefill == now
  {
    hide Gain;
    if b.refillRate.Some? {
      GainMonotone(0.0, Elapsed(b.lastRefill, now), b.refillRate.value);
      GainZero(b.refillRate.value);
    }
  }

  lemma CheckedFits(b: BucketState, limit: Limit, now: real)
    requires Fits(b, limit, now)
    ensures Fits(Refilled(b, now), limit, now) && Fits(Checked(b, now), limit, now)
  {
    hide Sound, RefilledTokens;
    CheckedSound(b, now);
  }

  /** Refilling at t1 and then at t2 is refilling once at t2. */
  lemma RefillPathIndependent(b: BucketState, t1: real, t2: real)
    requires Sound(b, t1) && t1 <= t2
    ensures Refilled(Refilled(b, t1), t2) == Refilled(b, t2)
  {
    hide Gain;
    if b.refillRate.Some? {
      var rate := b.refillRate.value;
      GainMonotone(0.0, t2 - t1, rate);
      GainZero(rate);
      GainAdd(t1 - b.lastRefill, t2 - t1, rate);
      assert t2 - b.lastRefill == (t1 - b.lastRefill) + (t2 - t1);
    }
  }

  /** Denied checks only refill, so they change no later answer. */
  lemma {:induction false} DeniedChecksInvisible(b: BucketState, times: seq<real>, now: real)
    requires times != [] && Sound(b, times[0]) && Ascending(times + [now], times[0])
    requires AllowedCount(b, times) == 0
    ensures Refilled(After(b, times), now) == Refilled(b, now)
    decreases |times|
  {
    hide Refilled, Sound;
    var first, rest := times[0], times[1..];
    CheckedSound(b, first);
    if rest == [] {
      assert After(b, times) == Refilled(b, first);
      assert (times + [now])[1] == now;
      RefillPathIndependent(b, first, now);
    } else {
      assert rest + [now] == (times + [now])[1..];
      AscendingRest(times + [now], first);
      SoundLater(Checked(b, first), first, rest[0]);
      DeniedChecksInvisible(Checked(b, first), rest, now);
      AscendingLast(times + [now], first, first);
      RefillPathIndependent(b, first, now);
    }
  }

  lemma AscendingRest(times: seq<real>, start: real)
    requires Ascending(times, start) && times != []
    ensures Ascending(times[1..], times[0])
    ensures |times| > 1 ==> times[0] <= times[1] && Ascending(times[1..], times[1])
  {}

  lemma {:induction false} AscendingLast(times: seq<real>, start: real, t: real)
    requires Ascending(times, start) && times != [] && t <= times[0]
    ensures t <= times[|times| - 1]
  {
    if |times| == 1 {
    } else {
      AscendingRest(times, start);
      AscendingLast(times[1..], times[0], t);
    }
  }

  /** After a refusal that names r, the next check is allowed if and only if at least r has
      passed, however many refused checks come in between. */
  lemma RetryExact(b: BucketState, limit: Limit, t: real, between: seq<real>, now: real)
    requires limit.capacity >= 1 && Fits(b, limit, t)
    requires !Admits(b, t) && Ascending(between + [now], t)
    requires AllowedCount(Checked(b, t), between) == 0
    ensures Answer(b, t).Limited? && Answer(b, t).retryAfter.Seconds?
    ensures
      var denied := Checked(b, t);
      Admits(After(denied, between), now) <==> now - t >= Answer(b, t).retryAfter.value
  {
    var denied := Checked(b, t);
    CheckedFits(b, limit, t);
    AscendingLast(between + [now], t, t);
    if between == [] {
      assert After(denied, between) == denied;
    } else {
      AscendingBetween(between, now, t);
      SoundLater(denied, t, between[0]);
      DeniedChecksInvisible(denied, between, now);
    }
    RetryThreshold(denied, limit, t, now);
  }

  /** The retry time of a bucket is when it next has a token: not before, and from then on. There is no
      such time exactly if the capacity is 0. */
  lemma RetryAfterMeans(b: BucketState, limit: Limit, now: real)
    requires Fits(b, limit, b.lastRefill) && now >= b.lastRefill
    ensures RetryAfter(b).Seconds? <==> limit.capacity > 0
    ensures RetryAfter(b).Undefined? <==> limit.capacity == 0 && limit.window == 0
    ensures RetryAfter(b).Seconds? ==>
      RetryAfter(b).value >= 0.0 && (Admits(b, now) <==> now - b.lastRefill >= RetryAfter(b).value)
    ensures limit.capacity == 0 ==> !Admits(b, now)
  {
    RateFacts(b, limit, b.lastRefill);
    CheckedSound(b, now);
    if limit.window > 0 && limit.capacity > 0 && b.tokens < 1.0 {
      RetryThreshold(b, limit, b.lastRefill, now);
      PositiveQuotient(1.0 - b.tokens, b.refillRate.value);
    }
    hide Gain;
  }

  lemma PositiveQuotient(a: real, r: real)
    requires a > 0.0 && r > 0.0
    ensures a / r > 0.0
  {}

  lemma AscendingBetween(between: seq<real>, now: real, t: real)
    requires Ascending(between + [now], t) && between != []
    ensures t <= between[0] && Ascending(between + [now], between[0])
  {
    assert (between + [now])[0] == between[0];
  }

  lemma RetryThreshold(b: BucketState, limit: Limit, t: real, now: real)
    requires limit.capacity >= 1 && limit.window > 0 && Fits(b, limit, t) && b.tokens < 1.0 && b.lastRefill == t <= now
    ensures b.refillRate.value > 0.0
    ensures Admits(b, now) <==> now - t >= (1.0 - b.tokens) / b.refillRate.value
  {
    RateFacts(b, limit, t);
    var rate := b.refillRate.value;
    var r := (1.0 - b.tokens) / rate;
    assert Gain(r, rate) == 1.0 - b.tokens;
    hide Gain, Fits;
    if now - t >= r {
      GainMonotone(r, now - t, rate);
    } else {
      GainMonotone(now - t, r, rate);
    }
    assert Elapsed(b.lastRefill, now) == now - t;
    AdmitsWhen(b, now);
  }

  lemma AdmitsWhen(b: BucketState, now: real)
    requires b.capacity >= 1.0 && b.refillRate.Some?
    ensures Admits(b, now) <==> b.tokens + Gain(Elapsed(b.lastRefill, now), b.refillRate.value) >= 1.0
  {
    hide Gain;
  }

  /** Under a window of zero seconds every check is allowed, or none if the capacity is 0. */
  lemma ZeroWindow(b: BucketState, limit: Limit, now: real)
    requires Fits(b, limit, now) && limit.window == 0
    ensures Admits(b, now) <==> limit.capacity >= 1
  {}

  /** Tokens left plus requests allowed never exceed what was there and has come in. */
  lemma {:induction false} AdmissionBudget(b: BucketState, times: seq<real>)
    requires times != [] && Sound(b, times[0]) && b.refillRate.Some? && Ascending(times, times[0])
    ensures AllowedCount(b, times) as real + After(b, times).tokens
         <= Refilled(b, times[0]).tokens + Gain(times[|times| - 1] - times[0], b.refillRate.value)
    ensures Sound(After(b, times), times[|times| - 1])
    decreases |times|
  {
    hide Refilled, Checked, Sound, Admits, Gain;
    GainZero(b.refillRate.value);
    var first, rest, last := times[0], times[1..], times[|times| - 1];
    CheckedSound(b, first);
    if rest == [] {
      assert AllowedCount(Checked(b, first), rest) == 0;
    } else {
      var b' := Checked(b, first);
      AscendingRest(times, first);
      SoundLater(b', first, rest[0]);
      AdmissionBudget(b', rest);
      RefillGain(b', first, rest[0]);
      GainAdd(last - rest[0], rest[0] - first, b.refillRate.value);
      assert last - first == (last - rest[0]) + (rest[0] - first);
    }
  }

  lemma RefillGain(b: BucketState, t: real, now: real)
    requires b.refillRate.Some? && b.lastRefill == t <= now
    ensures Refilled(b, now).tokens <= b.tokens + Gain(now - t, b.refillRate.value)
  {
    hide Gain;
  }

  lemma AdmissionWithin(b: BucketState, times: seq<real>, d: real)
    requires times != [] && Sound(b, times[0]) && b.refillRate.Some? && Ascending(times, times[0])
    requires times[|times| - 1] - times[0] <= d
    ensures AllowedCount(b, times) as real <= b.capacity + Gain(d, b.refillRate.value)
  {
    AdmissionBudget(b, times);
    GainMonotone(times[|times| - 1] - times[0], d, b.refillRate.value);
    CheckedSound(b, times[0]);
    TokensNonNegative(After(b, times), times[|times| - 1]);
    hide *;
  }

  lemma TokensNonNegative(b: BucketState, t: real)
    requires Sound(b, t)
    ensures b.tokens >= 0.0
  {}

  /** In any run of checks, at most capacity + d * capacity / window of those within a span of
      d seconds are allowed. */
  lemma AdmissionBound(b: BucketState, limit: Limit, times: seq<real>, d: real)
    requires limit.window > 0 && times != [] && Fits(b, limit, times[0]) && Ascending(times, times[0])
    requires times[|times| - 1] - times[0] <= d
    ensures AllowedCount(b, times) as real
         <= limit.capacity as real + d * (limit.capacity as real / limit.window as real)
  {
    hide AllowedCount, Ascending;
    AdmissionWithin(b, times, d);
    assert Gain(d, b.refillRate.value) == d * (limit.capacity as real / limit.window as real);
  }

  lemma {:induction false} CountIsAllowedCount(b: BucketState, times: seq<real>)
    ensures CountAllowed(BucketAnswers(b, times)) == AllowedCount(b, times)
    decreases |times|
  {
    hide Checked, Admits, RetryAfter;
    if times == [] {
    } else {
      CountIsAllowedCount(Checked(b, times[0]), times[1..]);
      assert BucketAnswers(b, times)[1..] == BucketAnswers(Checked(b, times[0]), times[1..]);
    }
  }

  lemma {:induction false} BucketAnswersConcat(b: BucketState, first: seq<real>, second: seq<real>)
    ensures BucketAnswers(b, first + second) == BucketAnswers(b, first) + BucketAnswers(After(b, first), second)
    ensures After(b, first + second) == After(After(b, first), second)
    ensures AllowedCount(b, first + second) == AllowedCount(b, first) + AllowedCount(After(b, first), second)
    decreases |first|
  {
    hide Checked, Answer, Admits;
    if first == [] {
      assert first + second == second;
    } else {
      BucketAnswersConcat(Checked(b, first[0]), first[1..], second);
      assert (first + second)[1..] == first[1..] + second;
    }
  }

  /** n checks at one time. */
  function Burst(n: nat, t: real): (times: seq<real>)
    ensures |times| == n && forall i :: 0 <= i < n ==> times[i] == t
  {
    seq(n, _ => t)
  }

  /** A burst of as many checks as there are whole tokens is allowed in full. */
  lemma {:induction false} BurstAllowed(b: BucketState, t: real, n: nat)
    requires b.refillRate.Some? && b.lastRefill == t && n as real <= b.tokens <= b.capacity
    ensures AllowedCount(b, Burst(n, t)) == n
    ensures After(b, Burst(n, t)) == b.(tokens := b.tokens - n as real)
    decreases n
  {
    hide Gain;
    if n == 0 {
    } else {
      assert Burst(n, t)[1..] == Burst(n - 1, t);
      GainZero(b.refillRate.value);
      assert Checked(b, t) == b.(tokens := b.tokens - 1.0);
      BurstAllowed(Checked(b, t), t, n - 1);
    }
  }

  /** An empty bucket idle for less than a window cannot allow a burst of its whole capacity. */
  lemma BurstRefused(b: BucketState, limit: Limit, t: real)
    requires limit.capacity >= 1 && b.lastRefill <= t && Fits(b, limit, t) && b.tokens == 0.0
    requires t - b.lastRefill < limit.window as real
    ensures AllowedCount(b, Burst(limit.capacity, t)) < limit.capacity
  {
    hide Refilled, Sound, Gain;
    var times := Burst(limit.capacity, t);
    AdmissionBudget(b, times);
    hide AllowedCount, After;
    assert times[0] == t && times[|times| - 1] == t;
    GainZero(b.refillRate.value);
    PartialRefill(b, limit, t);
    TokensNonNegative(After(b, times), t);
    assert AllowedCount(b, times) as real < limit.capacity as real;
  }

  lemma PartialRefill(b: BucketState, limit: Limit, t: real)
    requires limit.capacity >= 1 && b.lastRefill <= t && Fits(b, limit, t) && b.tokens == 0.0
    requires t - b.lastRefill < limit.window as real
    ensures Refilled(b, t).tokens < limit.capacity as real
  {
    RateFacts(b, limit, t);
    hide Gain;
    GainMonotone(t - b.lastRefill, limit.window as real, b.refillRate.value);
  }

  /** Bursts allow at most k checks if and only if there are fewer than k + 1 tokens. */
  lemma BurstsBoundedIff(b: BucketState, t: real, k: nat)
    requires Sound(b, t)
    ensures (forall n: nat :: AllowedCount(b, Burst(n, t)) <= k)
      <==> if b.refillRate.None? then b.capacity < 1.0 else Refilled(b, t).tokens < k as real + 1.0
  {
    if b.refillRate.None? {
      ZeroWindowBurst(b, t, k + 1);
      forall n: nat | b.capacity < 1.0
        ensures AllowedCount(b, Burst(n, t)) <= k
      {
        ZeroWindowBurst(b, t, n);
      }
    } else if Refilled(b, t).tokens < k as real + 1.0 {
      forall n: nat
        ensures AllowedCount(b, Burst(n, t)) <= k
      {
        BurstWithin(b, t, n);
      }
    } else {
      CheckedSound(b, t);
      BurstAllowed(Refilled(b, t), t, k + 1);
      RefilledBurst(b, t, k + 1);
    }
  }

  lemma {:induction false} ZeroWindowBurst(b: BucketState, t: real, n: nat)
    requires b.refillRate.None?
    ensures AllowedCount(b, Burst(n, t)) == if b.capacity >= 1.0 then n else 0
    decreases n
  {
    if n == 0 {
    } else {
      assert Burst(n, t)[1..] == Burst(n - 1, t);
      ZeroWindowBurst(Checked(b, t), t, n - 1);
    }
  }

  lemma BurstWithin(b: BucketState, t: real, n: nat)
    requires Sound(b, t) && b.refillRate.Some?
    ensures AllowedCount(b, Burst(n, t)) as real <= Refilled(b, t).tokens
  {
    CheckedSound(b, t);
    hide Refilled, Gain;
    if n > 0 {
      AdmissionBudget(b, Burst(n, t));
      GainZero(b.refillRate.value);
      TokensNonNegative(After(b, Burst(n, t)), t);
    }
  }

  lemma RefilledBurst(b: BucketState, t: real, n: nat)
    requires Sound(b, t) && n > 0
    ensures AllowedCount(b, Burst(n, t)) == AllowedCount(Refilled(b, t), Burst(n, t))
  {
    RefillPathIndependent(b, t, t);
    var r, times := Refilled(b, t), Burst(n, t);
    assert Checked(r, t) == Checked(b, t) && Admits(r, t) == Admits(b, t) by {
      hide Refilled;
    }
    hide *;
    CountFirst(b, times); CountFirst(r, times);
  }

  lemma CountFirst(b: BucketState, times: seq<real>)
    requires times != []
    ensures AllowedCount(b, times)
      == (if Admits(b, times[0]) then 1 else 0) + AllowedCount(Checked(b, times[0]), times[1..])
  {
    hide Admits, Checked;
  }
}
