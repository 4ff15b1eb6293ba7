/**
 When clean-ups at one age are unobservable, crates/pqc-proxy/src/rate_limiter.rs:91-122 and
 crates/pqc-gateway/src/main.rs:167-176: late enough, and no change of the key's limit.
 */
module EarlyEviction {
  import opened Wrappers
  import opened TokenBucket
  import opened BucketEquivalence
  import opened RateLimiting

  /** A run on an empty limiter in which the key's checks carry the limits and all clean-ups have
      the one age. */
  predicate EvictingRun(default: Limit, ops: seq<Op>, key: RateLimitKey, limits: set<Limit>, maxAge: real) {
    && Timed(ops, 0.0) && LimitsIn(default, ops, key, limits)
    && forall op :: op in ops && op.Cleanup? ==> op.maxAge == maxAge
  }

  predicate SameAnswers(default: Limit, ops: seq<Op>, key: RateLimitKey) {
    Answers(default, map[], ops, key) == Answers(default, map[], WithoutCleanups(ops), key)
  }

  ghost predicate Unobservable(default: Limit, key: RateLimitKey, limits: set<Limit>, maxAge: real) {
    forall ops :: EvictingRun(default, ops, key, limits, maxAge) ==> SameAnswers(default, ops, key)
  }

  /** The limits are all alike and the age is at least their windows. */
  predicate SafeAge(limits: set<Limit>, maxAge: real) {
    && (forall a, b :: a in limits && b in limits ==> Equivalent(a, b))
    && (forall limit :: limit in limits ==> LateEnough(limit, maxAge))
  }

  // ----- Safe ages evict harmlessly -----

  lemma {:induction false} NextLimitIn(default: Limit, ops: seq<Op>, key: RateLimitKey, limits: set<Limit>)
    requires LimitsIn(default, ops, key, limits)
    ensures var next := NextLimit(default, ops, key); next.Some? ==> next.value in limits
  {
    if ops == [] {
    } else {
      assert ops[0] in ops && forall op :: op in ops[1..] ==> op in ops;
      NextLimitIn(default, ops[1..], key, limits);
    }
  }

  lemma {:induction false} SafeRunHarmless(default: Limit, m: Buckets, ops: seq<Op>, key: RateLimitKey,
                                           limits: set<Limit>, maxAge: real, start: real)
    requires Timed(ops, start) && LimitsIn(default, ops, key, limits) && SafeAge(limits, maxAge)
    requires forall op :: op in ops && op.Cleanup? ==> op.maxAge == maxAge
    requires FitsOneOf(m, key, limits, start)
    ensures EvictsHarmlessly(default, m, ops, key)
    decreases |ops|
  {
    hide Step, Fits, Equivalent, LateEnough, Suits;
    if ops == [] {
    } else {
      var op, rest := ops[0], ops[1..];
      assert op in ops && forall o :: o in rest ==> o in ops;
      StepFits(default, m, op, key, limits, start);
      SafeRunHarmless(default, Step(default, m, op), rest, key, limits, maxAge, op.now);
      NextLimitIn(default, rest, key, limits);
      var next := NextLimit(default, rest, key);
      if Evicts(m, op, key) && next.Some? {
        var limit :| limit in limits && Fits(m[key], limit, start);
        EquivalentSuits(m[key], limit, next.value, start);
      }
    }
  }

  // ----- Other ages and changed limits are observable -----

  /** A burst, an eviction as soon as the age allows, and a second burst. */
  function Revealing(key: RateLimitKey, a: Limit, n: nat, b: Limit, n': nat, maxAge: real, t: real): seq<Op> {
    Checks(key, a, n, 0.0) + [Cleanup(maxAge, maxAge)] + Checks(key, b, n', t)
  }

  lemma {:induction false} AnswersConcat(default: Limit, m: Buckets, first: seq<Op>, second: seq<Op>, key: RateLimitKey)
    ensures Answers(default, m, first + second, key)
         == Answers(default, m, first, key) + Answers(default, AfterOps(default, m, first), second, key)
    decreases |first|
  {
    hide Step, AnswerTo;
    if first == [] {
      assert first + second == second;
    } else {
      AnswersConcat(default, Step(default, m, first[0]), first[1..], second, key);
      assert (first + second)[1..] == first[1..] + second;
    }
  }

  lemma WithoutCleanupsCons(op: Op, ops: seq<Op>)
    ensures op.Cleanup? ==> WithoutCleanups([op] + ops) == WithoutCleanups(ops)
    ensures op.Check? ==> WithoutCleanups([op] + ops) == [op] + WithoutCleanups(ops)
  {
    assert ([op] + ops)[1..] == ops;
  }

  lemma {:induction false} WithoutCleanupsConcat(a: seq<Op>, b: seq<Op>)
    ensures WithoutCleanups(a + b) == WithoutCleanups(a) + WithoutCleanups(b)
  {
    if a == [] {
      assert a + b == b;
    } else {
      hide *;
      var tail := a[1..];
      assert a == [a[0]] + tail && a + b == [a[0]] + (tail + b);
      WithoutCleanupsConcat(tail, b);
      WithoutCleanupsCons(a[0], tail);
      WithoutCleanupsCons(a[0], tail + b);
    }
  }

  lemma {:induction false} TimedConcat(a: seq<Op>, b: seq<Op>, start: real)
    requires Timed(a, start) && Timed(b, EndTime(a, start))
    ensures Timed(a + b, start)
    decreases |a|
  {
    if a == [] {
      assert a + b == b;
    } else {
      assert EndTime(a[1..], a[0].now) == EndTime(a, start);
      TimedConcat(a[1..], b, a[0].now);
      assert (a + b)[1..] == a[1..] + b;
    }
  }

  lemma RevealingKept(default: Limit, key: RateLimitKey, a: Limit, n: nat, b: Limit, n': nat, maxAge: real, t: real)
    ensures WithoutCleanups(Revealing(key, a, n, b, n', maxAge, t)) == Checks(key, a, n, 0.0) + Checks(key, b, n', t)
  {
    var first, evict, second := Checks(key, a, n, 0.0), [Cleanup(maxAge, maxAge)], Checks(key, b, n', t);
    ChecksTimes(default, key, a, n, 0.0); ChecksTimes(default, key, b, n', t);
    assert WithoutCleanups(evict) == [];
    hide WithoutCleanups, Checks;
    WithoutCleanupsConcat(first + evict, second);
    WithoutCleanupsConcat(first, evict);
    assert first + [] == first;
  }

  lemma RevealingRun(default: Limit, key: RateLimitKey, a: Limit, n: nat, b: Limit, n': nat, maxAge: real, t: real,
                     limits: set<Limit>)
    requires n > 0 && 0.0 <= maxAge <= t && a in limits && b in limits
    ensures EvictingRun(default, Revealing(key, a, n, b, n', maxAge, t), key, limits, maxAge)
  {
    var first, evict, second := Checks(key, a, n, 0.0), [Cleanup(maxAge, maxAge)], Checks(key, b, n', t);
    ChecksTimes(default, key, a, n, 0.0); ChecksTimes(default, key, b, n', t);
    assert Timed(evict, EndTime(first, 0.0)) by {
      assert evict[1..] == [];
    }
    TimedConcat(first, evict, 0.0);
    assert EndTime(first + evict, 0.0) == maxAge;
    LaterStart(second, t, maxAge);
    TimedConcat(first + evict, second, 0.0);
    hide Timed;
    forall op | op in Revealing(key, a, n, b, n', maxAge, t)
      ensures op == Check(key, Some(a), 0.0) || op == Cleanup(maxAge, maxAge) || op == Check(key, Some(b), t)
    {}
  }

  lemma LaterStart(ops: seq<Op>, t: real, start: real)
    requires Timed(ops, t) && start <= t
    ensures Timed(ops, start)
  {}

  /** The answers to a burst of the key. */
  lemma BurstAnswers(default: Limit, m: Buckets, key: RateLimitKey, limit: Limit, n: nat, t: real)
    requires n > 0
    ensures
      var ops, b := Checks(key, limit, n, t), BucketFor(m, key, limit, t);
      && Answers(default, m, ops, key) == BucketAnswers(b, Burst(n, t))
      && Local(AfterOps(default, m, ops), key) == Some(After(b, Burst(n, t)))
  {
    ChecksTimes(default, key, limit, n, t);
    AnswersAreBucketAnswers(default, m, Checks(key, limit, n, t), key);
    hide Answers, AfterOps, BucketAnswers, Times, After;
  }

  lemma {:induction false} AfterTime(b: BucketState, n: nat, t: real)
    requires n > 0
    ensures After(b, Burst(n, t)).lastRefill == t
    decreases n
  {
    hide RefilledTokens;
    assert Burst(n, t)[1..] == Burst(n - 1, t);
    if n == 1 {
      assert After(b, Burst(n, t)) == Checked(b, t);
    } else {
      AfterTime(Checked(b, t), n - 1, t);
    }
  }

  lemma EvictedAt(default: Limit, m: Buckets, key: RateLimitKey, maxAge: real)
    requires key in m && m[key].lastRefill == 0.0 && maxAge >= 0.0
    ensures key !in AfterOps(default, m, [Cleanup(maxAge, maxAge)])
    ensures Answers(default, m, [Cleanup(maxAge, maxAge)], key) == []
  {
    var ops := [Cleanup(maxAge, maxAge)];
    assert ops[1..] == [];
    assert AfterOps(default, m, ops) == Step(default, m, ops[0]);
  }

  /** Such a run shows the eviction if and only if a new bucket of the second limit and the bucket
      that the first burst leaves answer the second burst differently. */
  lemma RevealingIff(default: Limit, key: RateLimitKey, a: Limit, n: nat, b: Limit, n': nat, maxAge: real, t: real)
    requires n > 0 && n' > 0 && maxAge >= 0.0
    ensures SameAnswers(default, Revealing(key, a, n, b, n', maxAge, t), key) <==>
      BucketAnswers(Full(b, t), Burst(n', t)) == BucketAnswers(After(Full(a, 0.0), Burst(n, 0.0)), Burst(n', t))
  {
    var first, evict, second := Checks(key, a, n, 0.0), [Cleanup(maxAge, maxAge)], Checks(key, b, n', t);
    var m := AfterOps(default, map[], first);
    BurstAnswers(default, map[], key, a, n, 0.0);
    AfterTime(Full(a, 0.0), n, 0.0);
    EvictedAt(default, m, key, maxAge);
    BurstAnswers(default, AfterOps(default, m, evict), key, b, n', t);
    BurstAnswers(default, m, key, b, n', t);
    RevealingKept(default, key, a, n, b, n', maxAge, t);
    hide Answers, AfterOps, Checks, Full, BucketAnswers, After, Burst, WithoutCleanups;
    assert first + evict + second == first + (evict + second);
    AnswersConcat(default, m, evict, second, key);
    AnswersConcat(default, map[], first, evict + second, key);
    AnswersConcat(default, map[], first, second, key);
    assert [] + Answers(default, AfterOps(default, m, evict), second, key)
        == Answers(default, AfterOps(default, m, evict), second, key);
    SamePrefixConcat(Answers(default, map[], first, key), Answers(default, AfterOps(default, m, evict), second, key),
                     Answers(default, m, second, key));
  }

  lemma SamePrefixConcat<T>(p: seq<T>, a: seq<T>, b: seq<T>)
    ensures p + a == p + b <==> a == b
  {
    if p + a == p + b {
      assert (p + a)[|p|..] == a && (p + b)[|p|..] == b;
    }
  }

  /** Too early: use up the capacity, evict, and ask for it all again. */
  lemma EarlyReveals(default: Limit, key: RateLimitKey, limit: Limit, maxAge: real)
    requires !LateEnough(limit, maxAge) && maxAge >= 0.0
    ensures !SameAnswers(default, Revealing(key, limit, limit.capacity, limit, limit.capacity, maxAge, maxAge), key)
  {
    var n := limit.capacity;
    var empty := Full(limit, 0.0).(tokens := 0.0);
    BurstAllowed(Full(limit, 0.0), 0.0, n);
    BurstAllowed(Full(limit, maxAge), maxAge, n);
    BurstRefused(empty, limit, maxAge);
    hide AllowedCount, After, Burst, BucketAnswers, Full;
    CountIsAllowedCount(Full(limit, maxAge), Burst(n, maxAge));
    CountIsAllowedCount(empty, Burst(n, maxAge));
    RevealingIff(default, key, limit, n, limit, n, maxAge, maxAge);
  }

  /** The earliest time at which the age has passed and a bucket of the limit is full again. */
  function FullAgain(limit: Limit, maxAge: real): real {
    if maxAge >= limit.window as real then maxAge else limit.window as real
  }

  /** Changed: one check under a, and after the eviction a burst under b that tells them apart. */
  function ChangedLimitRun(key: RateLimitKey, a: Limit, b: Limit, maxAge: real): seq<Op> {
    var t := FullAgain(a, maxAge);
    Revealing(key, a, 1, b, |TellingBurst(a, b, t)|, maxAge, t)
  }

  lemma ChangedLimitReveals(default: Limit, key: RateLimitKey, a: Limit, b: Limit, maxAge: real)
    requires !Equivalent(a, b) && maxAge >= 0.0
    ensures !SameAnswers(default, ChangedLimitRun(key, a, b, maxAge), key)
  {
    var t := FullAgain(a, maxAge);
    var times, c := TellingBurst(a, b, t), After(Full(a, 0.0), Burst(1, 0.0));
    assert times == Burst(|times|, t);
    OneCheckFits(a);
    FitsLater(c, a, 0.0, t);
    EquivalentSuits(c, a, a, t);
    AfterTime(Full(a, 0.0), 1, 0.0);
    IdleIsFull(c, a, a.window as real, t);
    FullBucketAnswers(c, a, times);
    TellingBurstTells(a, b, t);
    hide Full, BucketAnswers, After, Burst, TellingBurst;
    RevealingIff(default, key, a, 1, b, |times|, maxAge, t);
  }

  lemma OneCheckFits(limit: Limit)
    ensures Fits(After(Full(limit, 0.0), Burst(1, 0.0)), limit, 0.0)
  {
    FullSound(limit, 0.0);
    hide Fits, Full, Checked;
    CheckedFits(Full(limit, 0.0), limit, 0.0);
    assert Burst(1, 0.0)[1..] == [];
    assert After(Full(limit, 0.0), Burst(1, 0.0)) == Checked(Full(limit, 0.0), 0.0);
  }

  /** Clean-ups at an age are unobservable in all runs in which a key's checks carry the limits if
      and only if the limits are all alike and the age is at least their windows. */
  lemma EvictionUnobservableIff(default: Limit, key: RateLimitKey, limits: set<Limit>, maxAge: real)
    requires maxAge >= 0.0
    ensures Unobservable(default, key, limits, maxAge) <==> SafeAge(limits, maxAge)
  {
    hide Answers, WithoutCleanups, Revealing, Equivalent, LateEnough, EvictsHarmlessly, SameAnswers, EvictingRun;
    if SafeAge(limits, maxAge) {
      forall ops | EvictingRun(default, ops, key, limits, maxAge)
        ensures SameAnswers(default, ops, key)
      {
        SafeRunSame(default, ops, key, limits, maxAge);
      }
    } else if a, b :| a in limits && b in limits && !Equivalent(a, b) {
      ChangedLimitReveals(default, key, a, b, maxAge);
      var t := FullAgain(a, maxAge);
      RevealingRun(default, key, a, 1, b, |TellingBurst(a, b, t)|, maxAge, t, limits);
    } else {
      var limit :| limit in limits && !LateEnough(limit, maxAge);
      EarlyReveals(default, key, limit, maxAge);
      PositiveCapacity(limit, maxAge);
      RevealingRun(default, key, limit, limit.capacity, limit, limit.capacity, maxAge, maxAge, limits);
    }
  }

  lemma PositiveCapacity(limit: Limit, maxAge: real)
    requires !LateEnough(limit, maxAge)
    ensures limit.capacity > 0
  {}

  lemma SafeRunSame(default: Limit, ops: seq<Op>, key: RateLimitKey, limits: set<Limit>, maxAge: real)
    requires EvictingRun(default, ops, key, limits, maxAge) && SafeAge(limits, maxAge)
    ensures SameAnswers(default, ops, key)
  {
    hide Answers, WithoutCleanups, EvictsHarmlessly, SafeAge;
    SafeRunHarmless(default, map[], ops, key, limits, maxAge, 0.0);
    EvictionUnobservable(default, map[], map[], ops, key, 0.0);
  }

  /** The gateway evicts at 600 seconds. That is late for limits of 1 and of 2 requests a minute,
      but not where a reload changes the one to the other: after the eviction both checks of 2 a
      minute are allowed, without it the older bucket refuses the second. */
  lemma RaisedLimitReveals(default: Limit, key: RateLimitKey)
    ensures
      var one, two := Limit(1, 60), Limit(2, 60);
      var ops := [Check(key, Some(one), 0.0), Cleanup(600.0, 600.0), Check(key, Some(two), 600.0),
                  Check(key, Some(two), 600.0)];
      && LateEnough(one, 600.0) && LateEnough(two, 600.0)
      && EvictingRun(default, ops, key, {one, two}, 600.0) && !SameAnswers(default, ops, key)
  {
    hide EvictingRun, SameAnswers;
    var one, two := Limit(1, 60), Limit(2, 60);
    ChangedLimitReveals(default, key, one, two, 600.0);
    RevealingRun(default, key, one, 1, two, 2, 600.0, 600.0, {one, two});
    assert ChangedLimitRun(key, one, two, 600.0)
        == [Check(key, Some(one), 0.0), Cleanup(600.0, 600.0), Check(key, Some(two), 600.0),
            Check(key, Some(two), 600.0)];
  }
}
