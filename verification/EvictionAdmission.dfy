/**
 How much clean-ups let through that evict buckets too early or where the limit has changed,
 crates/pqc-proxy/src/rate_limiter.rs:91-122.
 */
module EvictionAdmission {
  import opened Wrappers
  import opened Clock
  import opened TokenBucket
  import opened BucketEquivalence
  import opened RateLimiting
  import opened EarlyEviction

  predicate EvictsHarmfully(default: Limit, m: Buckets, ops: seq<Op>, key: RateLimitKey)
    requires ops != []
  {
    Evicts(m, ops[0], key) && !Harmless(m[key], NextLimit(default, ops[1..], key), ops[0].maxAge)
  }

  /** How many evictions of the key's buckets in the run are harmful. */
  function HarmfulCount(default: Limit, m: Buckets, ops: seq<Op>, key: RateLimitKey): nat
    decreases |ops|
  {
    if ops == [] then 0
    else
      (if EvictsHarmfully(default, m, ops, key) then 1 else 0)
      + HarmfulCount(default, Step(default, m, ops[0]), ops[1..], key)
  }

  lemma {:induction false} HarmlessIffNoneHarmful(default: Limit, m: Buckets, ops: seq<Op>, key: RateLimitKey)
    ensures EvictsHarmlessly(default, m, ops, key) <==> HarmfulCount(default, m, ops, key) == 0
    decreases |ops|
  {
    hide Step, Harmless, Evicts;
    if ops == [] {
    } else {
      HarmlessIffNoneHarmful(default, Step(default, m, ops[0]), ops[1..], key);
    }
  }

  // ----- The bound -----

  /** No limit has a larger capacity or rate, or a window of zero seconds. */
  predicate Within(limits: set<Limit>, capacity: real, rate: real) {
    forall limit :: limit in limits ==>
      limit.window > 0 && limit.capacity as real <= capacity && RateOf(limit).value <= rate
  }

  predicate BucketWithin(b: BucketState, capacity: real, rate: real, now: real) {
    Sound(b, now) && b.refillRate.Some? && b.capacity <= capacity && b.refillRate.value <= rate
  }

  /** The tokens there are for the key's next check if it comes now. */
  function Available(m: Buckets, next: Option<Limit>, key: RateLimitKey, now: real): real {
    if key in m then RefilledTokens(m[key], now)
    else if next.Some? then next.value.capacity as real
    else 0.0
  }

  lemma AvailableLater(m: Buckets, next: Option<Limit>, key: RateLimitKey, capacity: real, rate: real,
                       start: real, now: real)
    requires start <= now && rate >= 0.0
    requires key in m ==> BucketWithin(m[key], capacity, rate, start)
    ensures Available(m, next, key, now) <= Available(m, next, key, start) + Gain(now - start, rate)
    ensures key in m ==> BucketWithin(m[key], capacity, rate, now)
  {
    GainSign(now - start, rate);
    if key in m {
      var b := m[key];
      var r := b.refillRate.value;
      GainAdd(start - b.lastRefill, now - start, r);
      assert now - b.lastRefill == (start - b.lastRefill) + (now - start);
      RateMonotone(now - start, r, rate);
      GainSign(now - start, r);
      hide Gain;
    }
  }

  lemma RateMonotone(seconds: real, r: real, rate: real)
    requires seconds >= 0.0 && r <= rate
    ensures Gain(seconds, r) <= Gain(seconds, rate)
  {}

  lemma CheckWithin(b: BucketState, capacity: real, rate: real, now: real)
    requires BucketWithin(b, capacity, rate, now)
    ensures BucketWithin(Checked(b, now), capacity, rate, now)
    ensures RefilledTokens(Checked(b, now), now) + (if Admits(b, now) then 1.0 else 0.0) == RefilledTokens(b, now)
  {
    CheckedSound(b, now);
    GainZero(b.refillRate.value);
    hide Gain;
  }

  /** A harmless eviction leaves as much available as there was. */
  lemma HarmlessAvailable(m: Buckets, op: Op, key: RateLimitKey, next: Option<Limit>, capacity: real, rate: real)
    requires Evicts(m, op, key) && Harmless(m[key], next, op.maxAge) && BucketWithin(m[key], capacity, rate, op.now)
    requires next.Some? ==> next.value.window > 0
    ensures Available(Retained(m, op.maxAge, op.now), next, key, op.now) <= Available(m, next, key, op.now)
  {
    var b := m[key];
    CheckedSound(b, op.now);
    if next.Some? {
      IdleIsFull(b, next.value, op.maxAge, op.now);
    }
    hide Gain, Elapsed;
  }

  /** Requests allowed never exceed what is available, what comes in, and a capacity for each
      harmful eviction. */
  lemma {:induction false} EvictionBudget(default: Limit, m: Buckets, ops: seq<Op>, key: RateLimitKey,
                                          limits: set<Limit>, capacity: real, rate: real, start: real)
    requires Timed(ops, start) && LimitsIn(default, ops, key, limits)
    requires Within(limits, capacity, rate) && capacity >= 0.0 && rate >= 0.0
    requires key in m ==> BucketWithin(m[key], capacity, rate, start)
    ensures CountAllowed(Answers(default, m, ops, key)) as real
         <= Available(m, NextLimit(default, ops, key), key, start)
            + Charge(HarmfulCount(default, m, ops, key), capacity) + Gain(EndTime(ops, start) - start, rate)
    decreases |ops|
  {
    hide *;
    if ops == [] {
      NothingBudget(default, m, ops, key, start, capacity, rate);
    } else {
      var op, rest, next := ops[0], ops[1..], NextLimit(default, ops, key);
      RunStep(default, m, ops, key, limits, start);
      AvailableLater(m, next, key, capacity, rate, start, op.now);
      var m' := Step(default, m, op);
      StepBudget(default, m, ops, key, limits, capacity, rate);
      EvictionBudget(default, m', rest, key, limits, capacity, rate, op.now);
      GainAdd(op.now - start, EndTime(rest, op.now) - op.now, rate);
      assert EndTime(rest, op.now) - start == (op.now - start) + (EndTime(rest, op.now) - op.now);
    }
  }

  /** k times a capacity. */
  function Charge(k: nat, capacity: real): real {
    k as real * capacity
  }

  lemma NothingBudget(default: Limit, m: Buckets, ops: seq<Op>, key: RateLimitKey, start: real, capacity: real,
                      rate: real)
    requires ops == [] && (key in m ==> BucketWithin(m[key], capacity, rate, start))
    ensures CountAllowed(Answers(default, m, ops, key)) == 0
    ensures Available(m, NextLimit(default, ops, key), key, start) >= 0.0
    ensures Charge(HarmfulCount(default, m, ops, key), capacity) == 0.0
    ensures Gain(EndTime(ops, start) - start, rate) == 0.0
  {
    if key in m {
      CheckedSound(m[key], start);
    }
  }

  lemma RunStep(default: Limit, m: Buckets, ops: seq<Op>, key: RateLimitKey, limits: set<Limit>, start: real)
    requires ops != [] && Timed(ops, start) && LimitsIn(default, ops, key, limits)
    ensures start <= ops[0].now && Timed(ops[1..], ops[0].now) && LimitsIn(default, ops[1..], key, limits)
    ensures EndTime(ops[1..], ops[0].now) == EndTime(ops, start)
  {
    assert forall o :: o in ops[1..] ==> o in ops;
  }

  /** What the first operation of a run allows, it takes from what is available; only a harmful
      eviction makes more available, and at most a capacity. */
  lemma StepBudget(default: Limit, m: Buckets, ops: seq<Op>, key: RateLimitKey, limits: set<Limit>, capacity: real,
                   rate: real)
    requires ops != [] && LimitsIn(default, ops, key, limits) && Within(limits, capacity, rate) && capacity >= 0.0
    requires key in m ==> BucketWithin(m[key], capacity, rate, ops[0].now)
    ensures
      var op, rest := ops[0], ops[1..];
      var m' := Step(default, m, op);
      var before := Available(m, NextLimit(default, ops, key), key, op.now);
      var after := Available(m', NextLimit(default, rest, key), key, op.now);
      && (key in m' ==> BucketWithin(m'[key], capacity, rate, op.now))
      && CountAllowed(Answers(default, m, ops, key)) as real
         + Charge(HarmfulCount(default, m', rest, key), capacity) + after
         <= CountAllowed(Answers(default, m', rest, key)) as real
            + Charge(HarmfulCount(default, m, ops, key), capacity) + before
  {
    var op, rest := ops[0], ops[1..];
    assert forall o :: o in rest ==> o in ops;
    CountFirstAnswer(default, m, ops, key);
    FirstNextLimit(default, ops, key);
    HarmfulStep(default, m, ops, key, capacity);
    NextLimitIn(default, rest, key, limits);
    if IsCheckOf(op, key) {
      assert op in ops;
      CheckStep(default, m, op, key, capacity, rate, NextLimit(default, rest, key));
      hide *;
    } else {
      hide Within, Available, BucketWithin, HarmfulCount, Answers, CountAllowed, Step, NextLimit, Charge;
      OtherStep(default, m, ops, key, limits, capacity, rate);
    }
  }

  lemma FirstNextLimit(default: Limit, ops: seq<Op>, key: RateLimitKey)
    requires ops != []
    ensures NextLimit(default, ops, key)
      == if IsCheckOf(ops[0], key) then Some(Effective(default, ops[0].routeLimit))
         else NextLimit(default, ops[1..], key)
  {}

  lemma HarmfulStep(default: Limit, m: Buckets, ops: seq<Op>, key: RateLimitKey, capacity: real)
    requires ops != []
    ensures Charge(HarmfulCount(default, m, ops, key), capacity)
      == Charge(HarmfulCount(default, Step(default, m, ops[0]), ops[1..], key), capacity)
         + if EvictsHarmfully(default, m, ops, key) then capacity else 0.0
  {
    ChargeOneMore(HarmfulCount(default, Step(default, m, ops[0]), ops[1..], key), capacity);
    hide Step, EvictsHarmfully, Charge;
  }

  lemma ChargeOneMore(k: nat, capacity: real)
    ensures Charge(k + 1, capacity) == Charge(k, capacity) + capacity
  {}

  lemma CheckStep(default: Limit, m: Buckets, op: Op, key: RateLimitKey, capacity: real, rate: real,
                  next: Option<Limit>)
    requires IsCheckOf(op, key) && Within({Effective(default, op.routeLimit)}, capacity, rate)
    requires key in m ==> BucketWithin(m[key], capacity, rate, op.now)
    ensures
      var m', limit := Step(default, m, op), Effective(default, op.routeLimit);
      && key in m' && BucketWithin(m'[key], capacity, rate, op.now)
      && Available(m', next, key, op.now) + (if AnswerTo(default, m, op).Allowed? then 1.0 else 0.0)
         == Available(m, Some(limit), key, op.now)
  {
    var limit := Effective(default, op.routeLimit);
    FullWithin(limit, capacity, rate, op.now);
    CheckWithin(BucketFor(m, key, limit, op.now), capacity, rate, op.now);
    hide Checked, Full, RefilledTokens, Admits, Within, BucketWithin, RetryAfter;
  }

  lemma OtherStep(default: Limit, m: Buckets, ops: seq<Op>, key: RateLimitKey, limits: set<Limit>, capacity: real,
                  rate: real)
    requires ops != [] && !IsCheckOf(ops[0], key) && Within(limits, capacity, rate) && capacity >= 0.0
    requires var next := NextLimit(default, ops[1..], key); next.Some? ==> next.value in limits
    requires key in m ==> BucketWithin(m[key], capacity, rate, ops[0].now)
    ensures
      var op, m', next := ops[0], Step(default, m, ops[0]), NextLimit(default, ops[1..], key);
      && (key in m' ==> key in m && m'[key] == m[key])
      && Available(m', next, key, op.now)
         <= Available(m, next, key, op.now) + if EvictsHarmfully(default, m, ops, key) then capacity else 0.0
  {
    hide RefilledTokens, BucketWithin, NextLimit, Harmless, RateOf, Checked, Full;
    var op, next := ops[0], NextLimit(default, ops[1..], key);
    if Evicts(m, op, key) {
      if Harmless(m[key], next, op.maxAge) {
        HarmlessAvailable(m, op, key, next, capacity, rate);
      } else {
        TokensAvailable(m[key], capacity, rate, op.now);
      }
    }
  }

  lemma TokensAvailable(b: BucketState, capacity: real, rate: real, now: real)
    requires BucketWithin(b, capacity, rate, now)
    ensures 0.0 <= RefilledTokens(b, now) <= capacity
  {
    CheckedSound(b, now);
  }

  lemma FullWithin(limit: Limit, capacity: real, rate: real, now: real)
    requires Within({limit}, capacity, rate)
    ensures BucketWithin(Full(limit, now), capacity, rate, now)
    ensures RefilledTokens(Full(limit, now), now) == limit.capacity as real
  {
    assert limit in {limit};
    FullSound(limit, now);
    GainZero(RateOf(limit).value);
  }

  lemma CountFirstAnswer(default: Limit, m: Buckets, ops: seq<Op>, key: RateLimitKey)
    requires ops != []
    ensures CountAllowed(Answers(default, m, ops, key))
      == CountAllowed(Answers(default, Step(default, m, ops[0]), ops[1..], key))
         + if IsCheckOf(ops[0], key) && AnswerTo(default, m, ops[0]).Allowed? then 1 else 0
  {
    hide Step, AnswerTo;
    if IsCheckOf(ops[0], key) {
      assert Answers(default, m, ops, key)[1..] == Answers(default, Step(default, m, ops[0]), ops[1..], key);
    }
  }

  /** After any run, in any span of seconds with k harmful evictions of the key's buckets, at most
      (k + 1) * capacity + span * rate requests of the key are allowed, if no limit its checks
      have carried has more than that capacity and rate. */
  lemma AdmissionWithEvictions(default: Limit, before: seq<Op>, during: seq<Op>, key: RateLimitKey,
                               limits: set<Limit>, capacity: real, rate: real, start: real, span: real)
    requires Timed(before, start) && Timed(during, EndTime(before, start)) && during != []
    requires LimitsIn(default, before, key, limits) && LimitsIn(default, during, key, limits)
    requires Within(limits, capacity, rate) && capacity >= 0.0 && rate >= 0.0
    requires forall op :: op in during ==> op.now <= during[0].now + span
    ensures
      var m := AfterOps(default, map[], before);
      CountAllowed(Answers(default, m, during, key)) as real
      <= Charge(HarmfulCount(default, m, during, key) + 1, capacity) + Gain(span, rate)
  {
    var m := AfterOps(default, map[], before);
    hide *;
    TimedFromFirst(during, EndTime(before, start));
    BucketWithinAfter(default, before, key, limits, capacity, rate, start, during[0].now);
    AdmissionFrom(default, m, during, key, limits, capacity, rate, span);
  }

  lemma BucketWithinAfter(default: Limit, before: seq<Op>, key: RateLimitKey, limits: set<Limit>, capacity: real,
                          rate: real, start: real, now: real)
    requires Timed(before, start) && LimitsIn(default, before, key, limits) && Within(limits, capacity, rate)
    requires EndTime(before, start) <= now
    ensures
      var m := AfterOps(default, map[], before);
      key in m ==> BucketWithin(m[key], capacity, rate, now)
  {
    var m := AfterOps(default, map[], before);
    BucketFits(default, map[], before, key, limits, start);
    hide AfterOps;
    if key in m {
      var limit :| limit in limits && Fits(m[key], limit, EndTime(before, start));
      FitsWithin(m[key], limit, limits, capacity, rate, EndTime(before, start));
      SoundLater(m[key], EndTime(before, start), now);
    }
  }

  lemma AdmissionFrom(default: Limit, m: Buckets, ops: seq<Op>, key: RateLimitKey, limits: set<Limit>,
                      capacity: real, rate: real, span: real)
    requires ops != [] && Timed(ops, ops[0].now) && LimitsIn(default, ops, key, limits)
    requires Within(limits, capacity, rate) && capacity >= 0.0 && rate >= 0.0
    requires key in m ==> BucketWithin(m[key], capacity, rate, ops[0].now)
    requires forall op :: op in ops ==> op.now <= ops[0].now + span
    ensures CountAllowed(Answers(default, m, ops, key)) as real
         <= Charge(HarmfulCount(default, m, ops, key) + 1, capacity) + Gain(span, rate)
  {
    var t := ops[0].now;
    assert ops[|ops| - 1] in ops && EndTime(ops, t) == ops[|ops| - 1].now;
    NextLimitIn(default, ops, key, limits);
    hide *;
    AvailableWithin(m, NextLimit(default, ops, key), key, limits, capacity, rate, t);
    GainMonotone(EndTime(ops, t) - t, span, rate);
    ChargeOneMore(HarmfulCount(default, m, ops, key), capacity);
    EvictionBudget(default, m, ops, key, limits, capacity, rate, t);
  }

  lemma TimedFromFirst(ops: seq<Op>, start: real)
    requires Timed(ops, start) && ops != []
    ensures start <= ops[0].now && Timed(ops, ops[0].now)
  {}

  lemma FitsWithin(b: BucketState, limit: Limit, limits: set<Limit>, capacity: real, rate: real, now: real)
    requires limit in limits && Fits(b, limit, now) && Within(limits, capacity, rate)
    ensures BucketWithin(b, capacity, rate, now)
  {}

  lemma AvailableWithin(m: Buckets, next: Option<Limit>, key: RateLimitKey, limits: set<Limit>, capacity: real,
                        rate: real, now: real)
    requires Within(limits, capacity, rate) && capacity >= 0.0 && (next.Some? ==> next.value in limits)
    requires key in m ==> BucketWithin(m[key], capacity, rate, now)
    ensures Available(m, next, key, now) <= capacity
  {
    if key in m {
      TokensAvailable(m[key], capacity, rate, now);
    }
    hide RefilledTokens;
  }

  // ----- The bound is attained -----

  /** Bursts of the whole capacity at one time, with an eviction before each but the first. */
  function Bursts(key: RateLimitKey, limit: Limit, k: nat): seq<Op> {
    Checks(key, limit, limit.capacity, 0.0)
    + if k == 0 then [] else [Cleanup(0.0, 0.0)] + Bursts(key, limit, k - 1)
  }

  lemma {:induction false} CountConcat(a: seq<RateLimitResult>, b: seq<RateLimitResult>)
    ensures CountAllowed(a + b) == CountAllowed(a) + CountAllowed(b)
  {
    if a == [] {
      assert a + b == b;
    } else {
      CountConcat(a[1..], b);
      assert (a + b)[1..] == a[1..] + b;
    }
  }

  lemma {:induction false} NoCleanupsHarmful(default: Limit, m: Buckets, a: seq<Op>, b: seq<Op>, key: RateLimitKey)
    requires NoCleanups(a)
    ensures HarmfulCount(default, m, a + b, key) == HarmfulCount(default, AfterOps(default, m, a), b, key)
    decreases |a|
  {
    hide Step, Harmless;
    if a == [] {
      assert a + b == b;
    } else {
      assert a[0] in a && (a + b)[0] == a[0] && (a + b)[1..] == a[1..] + b;
      NoCleanupsHarmful(default, Step(default, m, a[0]), a[1..], b, key);
    }
  }

  /** A burst of the whole capacity on a new bucket is allowed and empties it. */
  lemma FirstBurst(default: Limit, m: Buckets, key: RateLimitKey, limit: Limit)
    requires limit.capacity > 0 && limit.window > 0 && key !in m
    ensures
      var ops := Checks(key, limit, limit.capacity, 0.0);
      && CountAllowed(Answers(default, m, ops, key)) == limit.capacity
      && Local(AfterOps(default, m, ops), key) == Some(Full(limit, 0.0).(tokens := 0.0))
  {
    var b := Full(limit, 0.0);
    BurstAnswers(default, m, key, limit, limit.capacity, 0.0);
    BurstAllowed(b, 0.0, limit.capacity);
    hide Answers, AfterOps, BucketAnswers, CountAllowed, Burst, Checks;
    CountIsAllowedCount(b, Burst(limit.capacity, 0.0));
  }

  /** Evicting what a burst has just emptied is harmful. */
  lemma EvictEmptied(default: Limit, m: Buckets, rest: seq<Op>, key: RateLimitKey, limit: Limit)
    requires limit.capacity > 0 && limit.window > 0 && key in m && m[key].lastRefill == 0.0
    requires NextLimit(default, rest, key) == Some(limit)
    ensures
      var ops, m' := [Cleanup(0.0, 0.0)] + rest, Step(default, m, Cleanup(0.0, 0.0));
      && key !in m' && HarmfulCount(default, m, ops, key) == 1 + HarmfulCount(default, m', rest, key)
      && Answers(default, m, ops, key) == Answers(default, m', rest, key)
  {
    assert ([Cleanup(0.0, 0.0)] + rest)[1..] == rest;
  }

  lemma BurstsCons(key: RateLimitKey, limit: Limit, k: nat)
    requires limit.capacity > 0
    ensures Bursts(key, limit, k) != [] && Bursts(key, limit, k)[0] == Check(key, Some(limit), 0.0)
    ensures
      var burst := Checks(key, limit, limit.capacity, 0.0);
      Bursts(key, limit, k) == if k == 0 then burst else burst + ([Cleanup(0.0, 0.0)] + Bursts(key, limit, k - 1))
  {
    assert Checks(key, limit, limit.capacity, 0.0)[0] == Check(key, Some(limit), 0.0);
    hide Checks;
  }

  lemma {:induction false} BurstsOps(key: RateLimitKey, limit: Limit, k: nat)
    requires limit.capacity > 0
    ensures forall op :: op in Bursts(key, limit, k) ==> op == Check(key, Some(limit), 0.0) || op == Cleanup(0.0, 0.0)
  {
    var burst := Checks(key, limit, limit.capacity, 0.0);
    forall op | op in burst
      ensures op == Check(key, Some(limit), 0.0)
    {}
    BurstsCons(key, limit, k);
    hide Checks, Bursts;
    if k == 0 {
    } else {
      BurstsOps(key, limit, k - 1);
    }
  }

  lemma {:induction false} TimedAt(ops: seq<Op>, t: real)
    requires forall op :: op in ops ==> op.now == t
    ensures Timed(ops, t) && EndTime(ops, t) == t
  {
    if ops == [] {
    } else {
      TimedAt(ops[1..], t);
      assert ops[0] in ops && ops[|ops| - 1] in ops;
    }
  }

  lemma BurstsRun(default: Limit, key: RateLimitKey, limit: Limit, k: nat)
    requires limit.capacity > 0
    ensures
      var ops := Bursts(key, limit, k);
      && ops != [] && Timed(ops, 0.0) && EndTime(ops, 0.0) == 0.0 && LimitsIn(default, ops, key, {limit})
      && NextLimit(default, ops, key) == Some(limit)
  {
    var ops := Bursts(key, limit, k);
    BurstsCons(key, limit, k);
    FirstNextLimit(default, ops, key);
    BurstsOps(key, limit, k);
    hide Bursts, NextLimit, Timed, EndTime;
    TimedAt(ops, 0.0);
  }

  /** The limiter after the first burst and the eviction. */
  function AfterFirst(default: Limit, m: Buckets, key: RateLimitKey, limit: Limit): Buckets {
    Step(default, AfterOps(default, m, Checks(key, limit, limit.capacity, 0.0)), Cleanup(0.0, 0.0))
  }

  lemma BurstsStep(default: Limit, m: Buckets, key: RateLimitKey, limit: Limit, k: nat)
    requires limit.capacity > 0 && limit.window > 0 && key !in m && k > 0
    ensures
      var ops, rest, m' := Bursts(key, limit, k), Bursts(key, limit, k - 1), AfterFirst(default, m, key, limit);
      && key !in m' && HarmfulCount(default, m, ops, key) == 1 + HarmfulCount(default, m', rest, key)
      && CountAllowed(Answers(default, m, ops, key))
         == limit.capacity + CountAllowed(Answers(default, m', rest, key))
  {
    var burst := Checks(key, limit, limit.capacity, 0.0);
    var used, rest := AfterOps(default, m, burst), Bursts(key, limit, k - 1);
    FirstBurst(default, m, key, limit);
    assert NoCleanups(burst);
    assert used[key].lastRefill == 0.0;
    BurstsCons(key, limit, k);
    BurstsRun(default, key, limit, k - 1);
    var tail := [Cleanup(0.0, 0.0)] + rest;
    var evicted := Step(default, used, Cleanup(0.0, 0.0));
    assert evicted == AfterFirst(default, m, key, limit);
    hide *;
    EvictEmptied(default, used, rest, key, limit);
    NoCleanupsHarmful(default, m, burst, tail, key);
    AnswersConcat(default, m, burst, tail, key);
    CountConcat(Answers(default, m, burst, key), Answers(default, evicted, rest, key));
  }

  lemma LastBurst(default: Limit, m: Buckets, key: RateLimitKey, limit: Limit)
    requires limit.capacity > 0 && limit.window > 0 && key !in m
    ensures HarmfulCount(default, m, Bursts(key, limit, 0), key) == 0
    ensures CountAllowed(Answers(default, m, Bursts(key, limit, 0), key)) == limit.capacity
  {
    var burst := Checks(key, limit, limit.capacity, 0.0);
    FirstBurst(default, m, key, limit);
    BurstsCons(key, limit, 0);
    assert NoCleanups(burst);
    hide NoCleanups, Checks, Answers, Bursts, HarmfulCount;
    NoCleanupsHarmless(default, m, burst, key);
    HarmlessIffNoneHarmful(default, m, burst, key);
  }

  /** k harmful evictions let through k + 1 times the capacity at a single time. */
  lemma {:induction false} BoundAttained(default: Limit, m: Buckets, key: RateLimitKey, limit: Limit, k: nat)
    requires limit.capacity > 0 && limit.window > 0 && key !in m
    ensures
      var ops := Bursts(key, limit, k);
      && ops != [] && Timed(ops, 0.0) && EndTime(ops, 0.0) == 0.0 && LimitsIn(default, ops, key, {limit})
      && HarmfulCount(default, m, ops, key) == k
      && CountAllowed(Answers(default, m, ops, key)) as real == Charge(k + 1, limit.capacity as real)
    decreases k
  {
    hide *;
    BurstsRun(default, key, limit, k);
    ChargeOneMore(k, limit.capacity as real);
    if k == 0 {
      LastBurst(default, m, key, limit);
      ChargeNone(limit.capacity as real);
    } else {
      BurstsStep(default, m, key, limit, k);
      BoundAttained(default, AfterFirst(default, m, key, limit), key, limit, k - 1);
    }
  }

  lemma ChargeNone(capacity: real)
    ensures Charge(0, capacity) == 0.0
  {}
}
