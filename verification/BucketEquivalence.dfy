/**
 Which limits and buckets no sequence of checks tells apart, crates/pqc-proxy/src/rate_limiter.rs:20-55.
 */
module BucketEquivalence {
  import opened TokenBucket

  predicate NeverAllows(b: BucketState) {
    b.capacity == 0.0 && (b.refillRate.None? || b.refillRate.value == 0.0)
  }

  predicate AlwaysAllows(b: BucketState) {
    b.capacity >= 1.0 && b.refillRate.None?
  }

  predicate Alike(b: BucketState, c: BucketState) {
    || b == c
    || (NeverAllows(b) && NeverAllows(c) && b.refillRate == c.refillRate)
    || (AlwaysAllows(b) && AlwaysAllows(c))
  }

  /** Once full, the bucket is like a new one for the limit. */
  predicate Suits(b: BucketState, limit: Limit) {
    Alike(Full(limit, b.lastRefill), b.(tokens := b.capacity))
  }

  /** The same limit, or both allow nothing and name the same retry time, or both have a window of
      zero seconds and allow all. */
  predicate Equivalent(a: Limit, b: Limit) {
    || a == b
    || (a.capacity == 0 && b.capacity == 0 && (a.window == 0 <==> b.window == 0))
    || (a.window == 0 && b.window == 0 && a.capacity >= 1 && b.capacity >= 1)
  }

  predicate IsFullBy(b: BucketState, now: real) {
    RefilledTokens(b, now) == b.capacity
  }

  lemma AlikeChecked(b: BucketState, c: BucketState, now: real)
    requires Sound(b, now) && Sound(c, now) && Alike(b, c)
    ensures Answer(b, now) == Answer(c, now) && Alike(Checked(b, now), Checked(c, now))
  {
    CheckedSound(b, now); CheckedSound(c, now);
    hide Gain;
  }

  lemma {:induction false} AlikeAnswers(b: BucketState, c: BucketState, times: seq<real>)
    requires times != [] ==> Sound(b, times[0]) && Sound(c, times[0]) && Ascending(times, times[0])
    requires Alike(b, c)
    ensures BucketAnswers(b, times) == BucketAnswers(c, times)
    decreases |times|
  {
    hide Alike, Sound, Checked, Answer;
    if times == [] {
    } else {
      var now, rest := times[0], times[1..];
      var b', c' := Checked(b, now), Checked(c, now);
      AlikeChecked(b, c, now);
      CheckedSound(b, now); CheckedSound(c, now);
      if rest != [] {
        AscendingRest(times, now);
        SoundLater(b', now, rest[0]); SoundLater(c', now, rest[0]);
      }
      AlikeAnswers(b', c', rest);
    }
  }

  /** A full bucket answers as one made now for a limit that suits it. */
  lemma FullBucketAlike(b: BucketState, limit: Limit, now: real)
    requires Suits(b, limit) && IsFullBy(b, now)
    ensures Answer(b, now) == Answer(Full(limit, now), now)
    ensures Alike(Checked(Full(limit, now), now), Checked(b, now))
  {
    hide Gain;
    if limit.window > 0 {
      GainZero(RateOf(limit).value);
    }
  }

  lemma FullBucketAnswers(b: BucketState, limit: Limit, times: seq<real>)
    requires times != [] && Sound(b, times[0]) && Ascending(times, times[0])
    requires Suits(b, limit) && IsFullBy(b, times[0])
    ensures BucketAnswers(b, times) == BucketAnswers(Full(limit, times[0]), times)
  {
    hide Sound, Checked, Answer, Full;
    var now, rest := times[0], times[1..];
    var full := Full(limit, now);
    FullSound(limit, now);
    CheckedSound(b, now); CheckedSound(full, now);
    FullBucketAlike(b, limit, now);
    if rest != [] {
      AscendingRest(times, now);
      SoundLater(Checked(b, now), now, rest[0]); SoundLater(Checked(full, now), now, rest[0]);
    }
    AlikeAnswers(Checked(full, now), Checked(b, now), rest);
  }

  lemma FullSound(limit: Limit, now: real)
    ensures Fits(Full(limit, now), limit, now) && Sound(Full(limit, now), now)
  {}

  lemma EquivalentSuits(b: BucketState, a: Limit, limit: Limit, now: real)
    requires Fits(b, a, now) && Equivalent(a, limit)
    ensures Suits(b, limit)
  {}

  lemma SuitsAlike(b: BucketState, c: BucketState, limit: Limit)
    requires Alike(b, c) && Suits(b, limit)
    ensures Suits(c, limit)
  {}

  // ----- Telling limits apart -----

  lemma {:induction false} AfterKeepsShape(b: BucketState, times: seq<real>)
    ensures After(b, times).capacity == b.capacity && After(b, times).refillRate == b.refillRate
    decreases |times|
  {
    if times == [] {
    } else {
      AfterKeepsShape(Checked(b, times[0]), times[1..]);
      hide RefilledTokens;
    }
  }

  lemma LastAnswer(b: BucketState, t: real, n: nat)
    ensures BucketAnswers(b, Burst(n + 1, t))[n] == Answer(After(b, Burst(n, t)), t)
  {
    hide Checked, Answer;
    assert Burst(n + 1, t) == Burst(n, t) + [t];
    BucketAnswersConcat(b, Burst(n, t), [t]);
    assert BucketAnswers(After(b, Burst(n, t)), [t])[0] == Answer(After(b, Burst(n, t)), t);
  }

  /** The retry time of an empty bucket. */
  function EmptyRetry(limit: Limit): RetryTime
    requires limit.window > 0 || limit.capacity == 0
  {
    if limit.window == 0 then Undefined
    else if limit.capacity == 0 then Infinite
    else Seconds(1.0 / RateOf(limit).value)
  }

  /** From a full bucket a burst is allowed up to the capacity; the next check is refused for the
      time one token takes. */
  lemma BurstFromFull(limit: Limit, t: real, n: nat)
    requires n <= limit.capacity || limit.window == 0
    ensures
      BucketAnswers(Full(limit, t), Burst(n + 1, t))[n]
      == if n < limit.capacity || (limit.window == 0 && limit.capacity >= 1) then Allowed
         else Limited(EmptyRetry(limit))
  {
    hide Checked, Answer, After, BucketAnswers, RefilledTokens;
    var b := Full(limit, t);
    LastAnswer(b, t, n);
    AfterKeepsShape(b, Burst(n, t));
    if limit.window == 0 {
      ZeroWindowAnswer(After(b, Burst(n, t)), t);
    } else {
      BurstAllowed(b, t, n);
      StillAnswer(b.(tokens := b.tokens - n as real), t);
      if n == limit.capacity {
        assert RetryAfter(b.(tokens := 0.0)) == EmptyRetry(limit);
      }
    }
  }

  lemma ZeroWindowAnswer(b: BucketState, t: real)
    requires b.refillRate.None?
    ensures Answer(b, t) == if b.capacity >= 1.0 then Allowed else Limited(RetryAfter(b.(tokens := b.capacity)))
  {}

  /** The answer when no time has passed. */
  lemma StillAnswer(b: BucketState, t: real)
    requires b.refillRate.Some? && b.lastRefill == t && b.tokens <= b.capacity
    ensures Answer(b, t) == if b.tokens >= 1.0 then Allowed else Limited(RetryAfter(b))
  {
    hide Gain;
    GainZero(b.refillRate.value);
  }

  predicate Refuses(limit: Limit) {
    limit.window > 0 || limit.capacity == 0
  }

  predicate RefusesFirst(a: Limit, b: Limit) {
    Refuses(a) && (Refuses(b) ==> a.capacity <= b.capacity)
  }

  /** One check more than a allows at one time tells it from b, if a is the first to refuse. */
  lemma BurstTells(a: Limit, b: Limit, t: real)
    requires !Equivalent(a, b) && RefusesFirst(a, b)
    ensures BucketAnswers(Full(a, t), Burst(a.capacity + 1, t)) != BucketAnswers(Full(b, t), Burst(a.capacity + 1, t))
  {
    hide BucketAnswers, RateOf, Full;
    BurstFromFull(a, t, a.capacity);
    BurstFromFull(b, t, a.capacity);
    if a.capacity == b.capacity && a.capacity > 0 && b.window > 0 {
      RatesDiffer(a, b);
    }
  }

  /** A burst that tells two limits apart, unless they are equivalent. */
  function TellingBurst(a: Limit, b: Limit, t: real): (times: seq<real>)
    ensures times != [] && Ascending(times, t) && forall i :: 0 <= i < |times| ==> times[i] == t
  {
    Burst((if RefusesFirst(a, b) then a.capacity else b.capacity) + 1, t)
  }

  lemma TellingBurstTells(a: Limit, b: Limit, t: real)
    requires !Equivalent(a, b)
    ensures BucketAnswers(Full(a, t), TellingBurst(a, b, t)) != BucketAnswers(Full(b, t), TellingBurst(a, b, t))
  {
    hide Full, BucketAnswers;
    if RefusesFirst(a, b) {
      BurstTells(a, b, t);
    } else {
      BurstTells(b, a, t);
    }
  }

  lemma RatesDiffer(a: Limit, b: Limit)
    requires a.capacity == b.capacity >= 1 && a.window > 0 && b.window > 0 && a.window != b.window
    ensures 1.0 / RateOf(a).value != 1.0 / RateOf(b).value
  {
    OneTokenTime(a);
    OneTokenTime(b);
    hide RateOf;
  }

  lemma OneTokenTime(limit: Limit)
    requires limit.window > 0 && limit.capacity >= 1
    ensures limit.capacity as real * (1.0 / RateOf(limit).value) == limit.window as real
  {
    var c, w := limit.capacity as real, limit.window as real;
    var r := c / w;
    assert r * w == c && r > 0.0;
    assert r * (1.0 / r) == 1.0;
  }

  /** Limits are equivalent if and only if no sequence of checks tells new buckets of them apart. */
  lemma EquivalentIff(a: Limit, b: Limit)
    ensures Equivalent(a, b) <==>
      forall times :: times != [] && Ascending(times, times[0]) ==>
        BucketAnswers(Full(a, times[0]), times) == BucketAnswers(Full(b, times[0]), times)
  {
    hide BucketAnswers;
    if Equivalent(a, b) {
      forall times | times != [] && Ascending(times, times[0])
        ensures BucketAnswers(Full(a, times[0]), times) == BucketAnswers(Full(b, times[0]), times)
      {
        AlikeAnswers(Full(a, times[0]), Full(b, times[0]), times);
      }
    } else {
      hide Equivalent, Full, Ascending;
      TellingBurstTells(a, b, 0.0);
      assert TellingBurst(a, b, 0.0)[0] == 0.0;
    }
  }
}
