/**
 The limiter over all keys, crates/pqc-proxy/src/rate_limiter.rs:58-128: its object, and runs of
 interleaved checks and clean-ups.
 */
module RateLimiting {
  import opened Wrappers
  import opened Clock
  import opened TokenBucket
  import opened BucketEquivalence

  datatype RateLimitKey = RateLimitKey(routeId: string, clientIp: string)

  type Buckets = map<RateLimitKey, BucketState>

  datatype Op =
    | Check(key: RateLimitKey, routeLimit: Option<Limit>, now: real)
    | Cleanup(maxAge: real, now: real)

  // ----- Specification -----

  /** A route's own limit overrides the default. */
  function Effective(default: Limit, routeLimit: Option<Limit>): Limit {
    if routeLimit.Some? then routeLimit.value else default
  }

  /** The limit matters only when the bucket is created. */
  function BucketFor(m: Buckets, key: RateLimitKey, limit: Limit, now: real): BucketState {
    if key in m then m[key] else Full(limit, now)
  }

  function Retained(m: Buckets, maxAge: real, now: real): Buckets {
    map key | key in m && Elapsed(m[key].lastRefill, now) < maxAge :: m[key]
  }

  function Step(default: Limit, m: Buckets, op: Op): Buckets {
    match op
    case Check(key, routeLimit, now) =>
      m[key := Checked(BucketFor(m, key, Effective(default, routeLimit), now), now)]
    case Cleanup(maxAge, now) => Retained(m, maxAge, now)
  }

  function AnswerTo(default: Limit, m: Buckets, op: Op): RateLimitResult
    requires op.Check?
  {
    Answer(BucketFor(m, op.key, Effective(default, op.routeLimit), op.now), op.now)
  }

  function AfterOps(default: Limit, m: Buckets, ops: seq<Op>): Buckets
    decreases |ops|
  {
    if ops == [] then m else AfterOps(default, Step(default, m, ops[0]), ops[1..])
  }

  /** The answers to the checks of one key, in order. */
  function Answers(default: Limit, m: Buckets, ops: seq<Op>, key: RateLimitKey): (answers: seq<RateLimitResult>)
    ensures |answers| == |Times(ops, key)|
    decreases |ops|
  {
    if ops == [] then []
    else
      var rest := Answers(default, Step(default, m, ops[0]), ops[1..], key);
      if IsCheckOf(ops[0], key) then [AnswerTo(default, m, ops[0])] + rest else rest
  }

  predicate IsCheckOf(op: Op, key: RateLimitKey) {
    op.Check? && op.key == key
  }

  /** The times of the key's checks. */
  function Times(ops: seq<Op>, key: RateLimitKey): seq<real> {
    if ops == [] then []
    else if IsCheckOf(ops[0], key) then [ops[0].now] + Times(ops[1..], key)
    else Times(ops[1..], key)
  }

  // ----- The limiter object -----

  class RateLimiter {
    var buckets: map<RateLimitKey, Bucket>
    const defaultLimit: Limit

    /** No two keys share a bucket. */
    ghost predicate Valid()
      reads this
    {
      forall k1, k2 :: k1 in buckets && k2 in buckets && buckets[k1] == buckets[k2] ==> k1 == k2
    }

    ghost function State(): Buckets
      reads this, buckets.Values
    {
      map key | key in buckets :: buckets[key].State()
    }

    constructor (defaultLimit: Limit)
      ensures Valid() && State() == map[] && this.defaultLimit == defaultLimit
    {
      this.defaultLimit := defaultLimit;
      buckets := map[];
    }

    method Check(key: RateLimitKey, routeLimit: Option<Limit>, now: real) returns (result: RateLimitResult)
      requires Valid()
      modifies this, buckets.Values
      ensures Valid() && fresh(buckets.Values - old(buckets.Values))
      ensures State() == Step(defaultLimit, old(State()), Op.Check(key, routeLimit, now))
      ensures result == AnswerTo(defaultLimit, old(State()), Op.Check(key, routeLimit, now))
    {
      hide Full, Checked, Admits, RetryAfter, BucketFor, Valid, State;
      var limit := if routeLimit.Some? then routeLimit.value else defaultLimit;
      EntryOrInsert(key, limit, now);
      var allowed := Consume(key, now);
      if allowed {
        result := Allowed;
      } else {
        StateAt(key);
        var retry := buckets[key].EstimateRetry();
        result := Limited(retry);
      }
    }

    /** Takes a token from the key's bucket; all other buckets stay as they are. */
    method Consume(key: RateLimitKey, now: real) returns (allowed: bool)
      requires Valid() && key in buckets
      modifies buckets[key]
      ensures key in State() && allowed == Admits(old(State())[key], now)
      ensures State() == old(State())[key := Checked(old(State())[key], now)]
    {
      hide Checked, Admits;
      allowed := buckets[key].TryConsume(now);
    }

    lemma StateAt(key: RateLimitKey)
      requires key in buckets
      ensures key in State() && State()[key] == buckets[key].State()
    {}

    method EntryOrInsert(key: RateLimitKey, limit: Limit, now: real)
      requires Valid()
      modifies this`buckets
      ensures Valid() && fresh(buckets.Values - old(buckets.Values))
      ensures key in buckets && key in State()
      ensures State() == old(State())[key := BucketFor(old(State()), key, limit, now)]
    {
      hide Full;
      if key !in buckets {
        var entry := new Bucket(limit, now);
        buckets := buckets[key := entry];
      } else {
        assert State() == State()[key := State()[key]];
      }
    }

    method Cleanup(maxAge: real, now: real)
      requires Valid()
      modifies this
      ensures Valid() && buckets.Values <= old(buckets.Values)
      ensures State() == Step(defaultLimit, old(State()), Op.Cleanup(maxAge, now))
    {
      buckets := map key | key in buckets && Elapsed(buckets[key].lastRefill, now) < maxAge :: buckets[key];
    }
  }

  // ----- Where a limit comes from -----

  /** A check of an unknown key makes a bucket for the route's own limit, or else for the default one;
      it is full but for the token that the check takes, if there is one. */
  lemma NewBucket(default: Limit, m: Buckets, key: RateLimitKey, routeLimit: Option<Limit>, now: real)
    requires key !in m
    ensures
      var m' := Step(default, m, Check(key, routeLimit, now));
      var limit := match routeLimit case None => default case Some(own) => own;
      && m'.Keys == m.Keys + {key} && (forall other :: other in m ==> m'[other] == m[other])
      && m'[key].capacity == limit.capacity as real && m'[key].lastRefill == now
      && (m'[key].refillRate.None? <==> limit.window == 0)
      && (limit.window > 0 ==> m'[key].refillRate.value * limit.window as real == limit.capacity as real)
      && m'[key].tokens == (if limit.capacity == 0 then 0.0 else (limit.capacity - 1) as real)
      && (AnswerTo(default, m, Check(key, routeLimit, now)).Allowed? <==> limit.capacity > 0)
  {
    hide Gain, RetryAfter;
    var limit := Effective(default, routeLimit);
    if limit.window > 0 {
      GainZero(RateOf(limit).value);
    }
  }

  // ----- Other keys have no effect -----

  function Local(m: Buckets, key: RateLimitKey): Option<BucketState> {
    if key in m then Some(m[key]) else None
  }

  /** The clean-ups and the checks of one key. */
  function Only(ops: seq<Op>, key: RateLimitKey): (r: seq<Op>)
    ensures forall op :: op in r ==> op in ops && (op.Check? ==> op.key == key)
    ensures |r| <= |ops|
  {
    if ops == [] then []
    else if ops[0].Cleanup? || ops[0].key == key then [ops[0]] + Only(ops[1..], key)
    else Only(ops[1..], key)
  }

  lemma StepLocal(default: Limit, m: Buckets, m': Buckets, op: Op, key: RateLimitKey)
    requires Local(m, key) == Local(m', key)
    ensures Local(Step(default, m, op), key) == Local(Step(default, m', op), key)
    ensures op.Check? && op.key != key ==> Local(Step(default, m, op), key) == Local(m, key)
  {
    hide Checked, Full;
  }

  /** The answers for a key are those of a run in which no other key is ever checked. */
  lemma {:induction false} OtherKeysInvisible(default: Limit, m: Buckets, m': Buckets, ops: seq<Op>, key: RateLimitKey)
    requires Local(m, key) == Local(m', key)
    ensures Answers(default, m, ops, key) == Answers(default, m', Only(ops, key), key)
    decreases |ops|
  {
    hide Step, Answer;
    if ops == [] {
    } else {
      var op, rest := ops[0], ops[1..];
      StepLocal(default, m, m', op, key);
      if op.Check? && op.key != key {
        OtherKeysInvisible(default, Step(default, m, op), m', rest, key);
        assert Only(ops, key) == Only(rest, key);
      } else {
        OtherKeysInvisible(default, Step(default, m, op), Step(default, m', op), rest, key);
        assert Only(ops, key) == [op] + Only(rest, key);
        assert ([op] + Only(rest, key))[1..] == Only(rest, key);
      }
    }
  }

  // ----- Harmless eviction is unobservable -----

  predicate Timed(ops: seq<Op>, start: real)
    decreases |ops|
  {
    ops == [] || (start <= ops[0].now && Timed(ops[1..], ops[0].now))
  }

  function WithoutCleanups(ops: seq<Op>): (r: seq<Op>)
    ensures forall op :: op in r ==> op in ops && op.Check?
  {
    if ops == [] then []
    else if ops[0].Cleanup? then WithoutCleanups(ops[1..])
    else [ops[0]] + WithoutCleanups(ops[1..])
  }

  /** The limit that the key's next check carries, if there is one. */
  function NextLimit(default: Limit, ops: seq<Op>, key: RateLimitKey): (limit: Option<Limit>)
    ensures limit.Some? <==> Times(ops, key) != []
  {
    if ops == [] then None
    else if IsCheckOf(ops[0], key) then Some(Effective(default, ops[0].routeLimit))
    else NextLimit(default, ops[1..], key)
  }

  /** Evicting a bucket this old loses nothing; with capacity 0 there is nothing to lose. */
  predicate LateEnough(limit: Limit, maxAge: real) {
    limit.capacity == 0 || maxAge >= limit.window as real
  }

  /** The evicted bucket is old enough, and the next check puts one for the same limit in its place. */
  predicate Harmless(b: BucketState, next: Option<Limit>, maxAge: real) {
    next.Some? ==> Suits(b, next.value) && LateEnough(next.value, maxAge)
  }

  predicate Evicts(m: Buckets, op: Op, key: RateLimitKey) {
    op.Cleanup? && key in m && key !in Retained(m, op.maxAge, op.now)
  }

  /** All evictions of the key's buckets in the run are harmless. */
  predicate EvictsHarmlessly(default: Limit, m: Buckets, ops: seq<Op>, key: RateLimitKey)
    decreases |ops|
  {
    ops == [] ||
    (&& (Evicts(m, ops[0], key) ==> Harmless(m[key], NextLimit(default, ops[1..], key), ops[0].maxAge))
     && EvictsHarmlessly(default, Step(default, m, ops[0]), ops[1..], key))
  }

  /** The evicting limiter has a bucket like the keeping one's, or none where that one is full and
      the next check makes a bucket like it. */
  predicate Matches(evicting: Option<BucketState>, keeping: Option<BucketState>, next: Option<Limit>, now: real) {
    && (evicting.Some? ==> Sound(evicting.value, now))
    && (keeping.Some? ==> Sound(keeping.value, now))
    && if evicting.Some? then keeping.Some? && Alike(evicting.value, keeping.value)
       else keeping.Some? && next.Some? ==> Suits(keeping.value, next.value) && IsFullBy(keeping.value, now)
  }

  lemma IsFullByLater(b: BucketState, start: real, now: real)
    requires Sound(b, start) && IsFullBy(b, start) && start <= now
    ensures IsFullBy(b, now)
  {
    hide Gain;
    if b.refillRate.Some? {
      GainMonotone(Elapsed(b.lastRefill, start), Elapsed(b.lastRefill, now), b.refillRate.value);
    }
  }

  /** A bucket idle for a window has refilled. */
  lemma IdleIsFull(b: BucketState, limit: Limit, maxAge: real, now: real)
    requires Sound(b, now) && Suits(b, limit) && LateEnough(limit, maxAge) && Elapsed(b.lastRefill, now) >= maxAge
    ensures IsFullBy(b, now)
  {
    if b.refillRate.Some? {
      var rate := b.refillRate.value;
      if NeverAllows(b) {
        assert Gain(Elapsed(b.lastRefill, now), rate) == 0.0;
      } else {
        RateFacts(b, limit, now);
        hide Gain;
        GainMonotone(limit.window as real, Elapsed(b.lastRefill, now), rate);
      }
    }
  }

  lemma MatchesLater(e: Option<BucketState>, f: Option<BucketState>, next: Option<Limit>, start: real, now: real)
    requires Matches(e, f, next, start) && start <= now
    ensures Matches(e, f, next, now)
  {
    hide Alike, Suits, IsFullBy;
    if f.Some? && e.None? && next.Some? {
      IsFullByLater(f.value, start, now);
    }
  }

  lemma MatchingCheck(default: Limit, m: Buckets, m': Buckets, op: Op, key: RateLimitKey, next: Option<Limit>,
                      start: real)
    requires IsCheckOf(op, key) && start <= op.now
    requires Matches(Local(m, key), Local(m', key), Some(Effective(default, op.routeLimit)), start)
    ensures AnswerTo(default, m, op) == AnswerTo(default, m', op)
    ensures Matches(Local(Step(default, m, op), key), Local(Step(default, m', op), key), next, op.now)
  {
    var now, limit := op.now, Effective(default, op.routeLimit);
    MatchesLater(Local(m, key), Local(m', key), Some(limit), start, now);
    var b, b' := BucketFor(m, key, limit, now), BucketFor(m', key, limit, now);
    FullSound(limit, now);
    CheckedSound(b, now); CheckedSound(b', now);
    hide Checked, Sound, Alike, Suits, IsFullBy, Full, Answer;
    if key !in m && key in m' {
      FullBucketAlike(b', limit, now);
    } else if key in m {
      AlikeChecked(b, b', now);
    } else {
      AlikeRefl(Checked(b, now));
    }
  }

  lemma AlikeRefl(b: BucketState)
    ensures Alike(b, b)
  {}

  lemma CleanupLocal(default: Limit, m: Buckets, op: Op, key: RateLimitKey)
    requires op.Cleanup?
    ensures Local(Step(default, m, op), key) == if Evicts(m, op, key) then None else Local(m, key)
    ensures Evicts(m, op, key) ==> Elapsed(m[key].lastRefill, op.now) >= op.maxAge
  {}

  lemma MatchingCleanup(default: Limit, m: Buckets, m': Buckets, op: Op, key: RateLimitKey, next: Option<Limit>,
                        start: real)
    requires op.Cleanup? && (Evicts(m, op, key) ==> Harmless(m[key], next, op.maxAge)) && start <= op.now
    requires Matches(Local(m, key), Local(m', key), next, start)
    ensures Matches(Local(Step(default, m, op), key), Local(m', key), next, op.now)
  {
    MatchesLater(Local(m, key), Local(m', key), next, start, op.now);
    CleanupLocal(default, m, op, key);
    hide Step, Sound, Alike, Suits, IsFullBy, LateEnough, Elapsed, Evicts;
    if Evicts(m, op, key) && next.Some? {
      IdleIsFull(m[key], next.value, op.maxAge, op.now);
      SuitsAlike(m[key], m'[key], next.value);
      AlikeFull(m[key], m'[key], op.now);
    }
  }

  lemma AlikeFull(b: BucketState, c: BucketState, now: real)
    requires Sound(c, now) && Alike(b, c) && IsFullBy(b, now)
    ensures IsFullBy(c, now)
  {
    if NeverAllows(c) && c.refillRate.Some? {
      assert Gain(Elapsed(c.lastRefill, now), c.refillRate.value) == 0.0;
    }
  }

  /** Clean-ups that evict harmlessly, interleaved anywhere, change no answer for the key. */
  lemma {:induction false} EvictionUnobservable(default: Limit, m: Buckets, m': Buckets, ops: seq<Op>,
                                                key: RateLimitKey, start: real)
    requires Timed(ops, start) && EvictsHarmlessly(default, m, ops, key)
    requires Matches(Local(m, key), Local(m', key), NextLimit(default, ops, key), start)
    ensures Answers(default, m, ops, key) == Answers(default, m', WithoutCleanups(ops), key)
    decreases |ops|
  {
    hide Step, Matches, Local, AnswerTo, Harmless, Evicts;
    if ops == [] {
    } else {
      var op, rest, kept := ops[0], ops[1..], WithoutCleanups(ops[1..]);
      var next, following := Step(default, m, op), NextLimit(default, rest, key);
      if op.Cleanup? {
        MatchingCleanup(default, m, m', op, key, following, start);
        EvictionUnobservable(default, next, m', rest, key, op.now);
        assert WithoutCleanups(ops) == kept;
      } else {
        var next' := Step(default, m', op);
        if op.key == key {
          MatchingCheck(default, m, m', op, key, following, start);
        } else {
          MatchesLater(Local(m, key), Local(m', key), following, start, op.now);
          StepLocal(default, m, m, op, key); StepLocal(default, m', m', op, key);
        }
        EvictionUnobservable(default, next, next', rest, key, op.now);
        assert WithoutCleanups(ops) == [op] + kept && ([op] + kept)[1..] == kept;
      }
    }
  }

  // ----- A key's answers are those of its bucket -----

  predicate NoCleanups(ops: seq<Op>) {
    forall op :: op in ops ==> op.Check?
  }

  /** The bucket that the key's next check meets or makes. */
  function FirstBucket(default: Limit, m: Buckets, ops: seq<Op>, key: RateLimitKey): BucketState
    requires Times(ops, key) != []
  {
    BucketFor(m, key, NextLimit(default, ops, key).value, Times(ops, key)[0])
  }

  /** Without clean-ups a key's checks go through one bucket, whatever limits they carry. */
  lemma {:induction false} AnswersAreBucketAnswers(default: Limit, m: Buckets, ops: seq<Op>, key: RateLimitKey)
    requires NoCleanups(ops)
    ensures
      var times := Times(ops, key);
      if times == [] then Answers(default, m, ops, key) == [] && Local(AfterOps(default, m, ops), key) == Local(m, key)
      else
        var b := FirstBucket(default, m, ops, key);
        && Answers(default, m, ops, key) == BucketAnswers(b, times)
        && Local(AfterOps(default, m, ops), key) == Some(After(b, times))
    decreases |ops|
  {
    hide Checked, Full, Answer, AnswerTo;
    if ops == [] {
    } else {
      var op, rest := ops[0], ops[1..];
      var next := Step(default, m, op);
      assert forall o :: o in rest ==> o in ops;
      AnswersAreBucketAnswers(default, next, rest, key);
      if op.key == key {
        FirstAnswer(default, m, op, key);
        hide Step, BucketFor;
        assert Times(ops, key) == [op.now] + Times(rest, key);
        assert ([op.now] + Times(rest, key))[1..] == Times(rest, key);
      } else {
        StepLocal(default, m, m, op, key);
        hide Step;
        assert Times(ops, key) == Times(rest, key);
        assert Answers(default, m, ops, key) == Answers(default, next, rest, key);
      }
    }
  }

  lemma FirstAnswer(default: Limit, m: Buckets, op: Op, key: RateLimitKey)
    requires IsCheckOf(op, key)
    ensures
      var b, next := BucketFor(m, key, Effective(default, op.routeLimit), op.now), Step(default, m, op);
      && AnswerTo(default, m, op) == Answer(b, op.now) && Local(next, key) == Some(Checked(b, op.now))
      && (forall limit, t :: BucketFor(next, key, limit, t) == Checked(b, op.now))
  {
    hide Checked, Answer, Full;
  }

  /** A limit matters only where a bucket is made: two runs with the key's checks at the same times
      and the same bucket at the first of them answer alike, whatever limits the checks carry. */
  lemma LaterLimitsIgnored(default: Limit, m: Buckets, ops: seq<Op>, default': Limit, m': Buckets, ops': seq<Op>,
                           key: RateLimitKey)
    requires NoCleanups(ops) && NoCleanups(ops') && Times(ops, key) == Times(ops', key)
    requires Times(ops, key) != [] ==> FirstBucket(default, m, ops, key) == FirstBucket(default', m', ops', key)
    ensures Answers(default, m, ops, key) == Answers(default', m', ops', key)
  {
    AnswersAreBucketAnswers(default, m, ops, key);
    AnswersAreBucketAnswers(default', m', ops', key);
    hide Times, Answers, BucketAnswers, BucketFor;
  }

  lemma {:induction false} TimesAscending(ops: seq<Op>, key: RateLimitKey, start: real)
    requires Timed(ops, start)
    ensures Ascending(Times(ops, key), start)
    decreases |ops|
  {
    if ops == [] {
    } else {
      TimesAscending(ops[1..], key, ops[0].now);
    }
  }

  lemma {:induction false} TimesBounded(ops: seq<Op>, key: RateLimitKey, bound: real)
    requires forall op :: op in ops ==> op.now <= bound
    ensures forall i :: 0 <= i < |Times(ops, key)| ==> Times(ops, key)[i] <= bound
  {
    if ops == [] {
    } else {
      TimesBounded(ops[1..], key, bound);
    }
  }

  lemma {:induction false} WithoutCleanupsKeeps(default: Limit, ops: seq<Op>, key: RateLimitKey)
    ensures Times(WithoutCleanups(ops), key) == Times(ops, key)
    ensures NextLimit(default, WithoutCleanups(ops), key) == NextLimit(default, ops, key)
  {
    if ops == [] {
    } else {
      WithoutCleanupsKeeps(default, ops[1..], key);
      var kept := WithoutCleanups(ops[1..]);
      if ops[0].Check? {
        assert WithoutCleanups(ops) == [ops[0]] + kept && ([ops[0]] + kept)[1..] == kept;
      } else {
        assert WithoutCleanups(ops) == kept;
      }
    }
  }

  /** With harmless evictions, too, a key's answers are those of one bucket. */
  lemma HarmlessBucketAnswers(default: Limit, m: Buckets, ops: seq<Op>, key: RateLimitKey, start: real)
    requires Timed(ops, start) && EvictsHarmlessly(default, m, ops, key)
    requires key in m ==> Sound(m[key], start)
    ensures
      if Times(ops, key) == [] then Answers(default, m, ops, key) == []
      else Answers(default, m, ops, key) == BucketAnswers(FirstBucket(default, m, ops, key), Times(ops, key))
  {
    if key in m {
      AlikeRefl(m[key]);
    }
    EvictionUnobservable(default, m, m, ops, key, start);
    WithoutCleanupsKeeps(default, ops, key);
    AnswersAreBucketAnswers(default, m, WithoutCleanups(ops), key);
  }

  /** Without clean-ups nothing is evicted. */
  lemma {:induction false} NoCleanupsHarmless(default: Limit, m: Buckets, ops: seq<Op>, key: RateLimitKey)
    requires NoCleanups(ops)
    ensures EvictsHarmlessly(default, m, ops, key)
    decreases |ops|
  {
    hide Step;
    if ops == [] {
    } else {
      assert ops[0] in ops;
      NoCleanupsHarmless(default, Step(default, m, ops[0]), ops[1..], key);
    }
  }

  // ----- Runs of the whole limiter -----

  function EndTime(ops: seq<Op>, start: real): real {
    if ops == [] then start else ops[|ops| - 1].now
  }

  predicate LimitsIn(default: Limit, ops: seq<Op>, key: RateLimitKey, limits: set<Limit>) {
    forall op :: op in ops && IsCheckOf(op, key) ==> Effective(default, op.routeLimit) in limits
  }

  /** The key's bucket, if any, was made for one of the limits. */
  predicate FitsOneOf(m: Buckets, key: RateLimitKey, limits: set<Limit>, now: real) {
    key in m ==> exists limit :: limit in limits && Fits(m[key], limit, now)
  }

  /** In every run the key's bucket, if any, has between 0 and capacity tokens, and its capacity
      and rate are those of one of the limits the key's checks carried. */
  lemma {:induction false} BucketFits(default: Limit, m: Buckets, ops: seq<Op>, key: RateLimitKey, limits: set<Limit>,
                                      start: real)
    requires Timed(ops, start) && LimitsIn(default, ops, key, limits) && FitsOneOf(m, key, limits, start)
    ensures FitsOneOf(AfterOps(default, m, ops), key, limits, EndTime(ops, start))
    decreases |ops|
  {
    hide Step, FitsOneOf;
    if ops == [] {
    } else {
      var op, rest := ops[0], ops[1..];
      StepFits(default, m, op, key, limits, start);
      assert forall o :: o in rest ==> o in ops;
      BucketFits(default, Step(default, m, op), rest, key, limits, op.now);
      assert EndTime(rest, op.now) == EndTime(ops, start);
    }
  }

  lemma StepFits(default: Limit, m: Buckets, op: Op, key: RateLimitKey, limits: set<Limit>, start: real)
    requires start <= op.now && LimitsIn(default, [op], key, limits) && FitsOneOf(m, key, limits, start)
    ensures FitsOneOf(Step(default, m, op), key, limits, op.now)
  {
    hide Checked, Fits, Full;
    if key in m {
      var limit :| limit in limits && Fits(m[key], limit, start);
      FitsLater(m[key], limit, start, op.now);
      CheckedFits(m[key], limit, op.now);
    } else if IsCheckOf(op, key) {
      var limit := Effective(default, op.routeLimit);
      assert op in [op];
      FullSound(limit, op.now);
      CheckedFits(Full(limit, op.now), limit, op.now);
    }
  }

  /** The limit of the bucket that the key's next check meets or makes. */
  predicate LiveLimit(default: Limit, m: Buckets, ops: seq<Op>, key: RateLimitKey, limit: Limit, now: real) {
    if key in m then Fits(m[key], limit, now) else NextLimit(default, ops, key) in {Some(limit), None}
  }

  lemma FirstBucketFits(default: Limit, m: Buckets, ops: seq<Op>, key: RateLimitKey, limit: Limit, start: real)
    requires Timed(ops, start) && LiveLimit(default, m, ops, key, limit, start) && Times(ops, key) != []
    ensures Fits(FirstBucket(default, m, ops, key), limit, Times(ops, key)[0])
    ensures Ascending(Times(ops, key), Times(ops, key)[0])
  {
    TimesAscending(ops, key, start);
    if key in m {
      FitsLater(m[key], limit, start, Times(ops, key)[0]);
    } else {
      FullSound(limit, Times(ops, key)[0]);
    }
  }

  /** After any run, in any span of seconds without harmful eviction, at most capacity + span *
      capacity / window requests of a key are allowed, by the limit of the key's bucket: whatever
      the other keys do and whatever limits the key's later checks carry. */
  lemma AdmissionAnyInterval(default: Limit, before: seq<Op>, during: seq<Op>, key: RateLimitKey, limit: Limit,
                             start: real, span: real)
    requires Timed(before, start) && Timed(during, EndTime(before, start)) && during != [] && span >= 0.0
    requires EvictsHarmlessly(default, AfterOps(default, map[], before), during, key)
    requires LiveLimit(default, AfterOps(default, map[], before), during, key, limit, EndTime(before, start))
    requires forall op :: op in during ==> op.now <= during[0].now + span
    requires limit.window > 0
    ensures
      var m := AfterOps(default, map[], before);
      CountAllowed(Answers(default, m, during, key)) as real
      <= limit.capacity as real + span * (limit.capacity as real / limit.window as real)
  {
    var m, t := AfterOps(default, map[], before), EndTime(before, start);
    HarmlessBucketAnswers(default, m, during, key, t);
    TimesAscending(during, key, during[0].now);
    TimesBounded(during, key, during[0].now + span);
    var times := Times(during, key);
    if times == [] {
      SpanNonNegative(limit, span);
    } else {
      FirstBucketFits(default, m, during, key, limit, t);
      hide *;
      CountIsAllowedCount(FirstBucket(default, m, during, key), times);
      AdmissionBound(FirstBucket(default, m, during, key), limit, times, span);
    }
  }

  lemma SpanNonNegative(limit: Limit, span: real)
    requires limit.window > 0 && span >= 0.0
    ensures limit.capacity as real + span * (limit.capacity as real / limit.window as real) >= 0.0
    ensures CountAllowed([]) == 0
  {
    assert limit.capacity as real / limit.window as real >= 0.0;
    GainZero(limit.capacity as real / limit.window as real);
    GainMonotone(0.0, span, limit.capacity as real / limit.window as real);
  }

  /** If a key's first check in a run is refused with retry time r and all its later ones but the
      last are refused too, the last is allowed if and only if at least r has passed. */
  lemma RetryExactInRuns(default: Limit, m: Buckets, ops: seq<Op>, key: RateLimitKey, limit: Limit, start: real)
    requires Timed(ops, start) && EvictsHarmlessly(default, m, ops, key)
    requires LiveLimit(default, m, ops, key, limit, start) && limit.capacity >= 1
    requires |Times(ops, key)| >= 2
    requires forall i :: 0 <= i < |Times(ops, key)| - 1 ==> Answers(default, m, ops, key)[i].Limited?
    ensures
      var times, answers := Times(ops, key), Answers(default, m, ops, key);
      var last := |times| - 1;
      && answers[0].retryAfter.Seconds?
      && (answers[last].Allowed? <==> times[last] - times[0] >= answers[0].retryAfter.value)
  {
    HarmlessBucketAnswers(default, m, ops, key, start);
    FirstBucketFits(default, m, ops, key, limit, start);
    hide Times, Answers, Timed;
    RetryExactForBucket(FirstBucket(default, m, ops, key), limit, Times(ops, key));
  }

  lemma RetryExactForBucket(b: BucketState, limit: Limit, times: seq<real>)
    requires |times| >= 2 && Fits(b, limit, times[0]) && limit.capacity >= 1
    requires Ascending(times, times[0])
    requires forall i :: 0 <= i < |times| - 1 ==> BucketAnswers(b, times)[i].Limited?
    ensures
      var answers, last := BucketAnswers(b, times), |times| - 1;
      && answers[0].retryAfter.Seconds?
      && (answers[last].Allowed? <==> times[last] - times[0] >= answers[0].retryAfter.value)
  {
    hide Checked, Admits, Fits, RetryAfter;
    var t, now, between := times[0], times[|times| - 1], times[1..|times| - 1];
    var answers := BucketAnswers(b, times);
    assert times[1..] == between + [now];
    BucketAnswersConcat(Checked(b, t), between, [now]);
    assert forall i :: 0 <= i < |between| ==> BucketAnswers(Checked(b, t), between)[i] == answers[i + 1];
    NoneAllowed(BucketAnswers(Checked(b, t), between));
    CountIsAllowedCount(Checked(b, t), between);
    RetryExact(b, limit, t, between, now);
  }

  lemma {:induction false} NoneAllowed(answers: seq<RateLimitResult>)
    requires forall i :: 0 <= i < |answers| ==> answers[i].Limited?
    ensures CountAllowed(answers) == 0
  {
    if answers == [] {
    } else {
      NoneAllowed(answers[1..]);
    }
  }

  // ----- A lowered limit -----

  /** n checks of the key at one time, under one limit. */
  function Checks(key: RateLimitKey, limit: Limit, n: nat, t: real): (ops: seq<Op>)
    ensures |ops| == n && forall i :: 0 <= i < n ==> ops[i] == Check(key, Some(limit), t)
  {
    seq(n, _ => Check(key, Some(limit), t))
  }

  lemma {:induction false} ChecksTimes(default: Limit, key: RateLimitKey, limit: Limit, n: nat, t: real)
    ensures Times(Checks(key, limit, n, t), key) == Burst(n, t)
    ensures n > 0 ==> NextLimit(default, Checks(key, limit, n, t), key) == Some(limit)
    ensures WithoutCleanups(Checks(key, limit, n, t)) == Checks(key, limit, n, t)
    ensures Timed(Checks(key, limit, n, t), t)
  {
    if n == 0 {
    } else {
      ChecksTimes(default, key, limit, n - 1, t);
      assert Checks(key, limit, n, t)[1..] == Checks(key, limit, n - 1, t);
    }
  }

  /** Bursts of checks under a new limit stay within its capacity if and only if the key's bucket,
      made for an older limit, has less than one token more than that. */
  lemma NewLimitEnforcedIff(default: Limit, m: Buckets, key: RateLimitKey, made: Limit, carried: Limit, t: real)
    requires key in m && Fits(m[key], made, t)
    ensures
      (forall n: nat :: CountAllowed(Answers(default, m, Checks(key, carried, n, t), key)) <= carried.capacity)
      <==> if made.window == 0 then made.capacity == 0 else Refilled(m[key], t).tokens < carried.capacity as real + 1.0
  {
    forall n: nat
      ensures CountAllowed(Answers(default, m, Checks(key, carried, n, t), key)) == AllowedCount(m[key], Burst(n, t))
    {
      ChecksAllowed(default, m, key, carried, n, t);
    }
    hide Answers, Checks, CountAllowed;
    BurstsBoundedIff(m[key], t, carried.capacity);
    hide AllowedCount, Burst, Refilled;
  }

  lemma ChecksAllowed(default: Limit, m: Buckets, key: RateLimitKey, limit: Limit, n: nat, t: real)
    requires key in m
    ensures CountAllowed(Answers(default, m, Checks(key, limit, n, t), key)) == AllowedCount(m[key], Burst(n, t))
  {
    ChecksTimes(default, key, limit, n, t);
    AnswersAreBucketAnswers(default, m, Checks(key, limit, n, t), key);
    hide Answers, BucketAnswers, Times, Checks;
    CountIsAllowedCount(m[key], Burst(n, t));
  }

  /** In particular a lowered limit is not enforced on a bucket that is full. */
  lemma LoweredLimitIgnored(default: Limit, m: Buckets, key: RateLimitKey, made: Limit, carried: Limit, t: real)
    requires key in m && Fits(m[key], made, t) && IsFullBy(m[key], t) && carried.capacity < made.capacity
    ensures exists n: nat :: CountAllowed(Answers(default, m, Checks(key, carried, n, t), key)) > carried.capacity
  {
    hide Answers, Checks, CountAllowed;
    NewLimitEnforcedIff(default, m, key, made, carried, t);
  }
}
