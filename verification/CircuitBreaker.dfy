/**
 Per-upstream circuit breakers, crates/pqc-proxy/src/circuit_breaker.rs:15-219. The clock is the
 `now` of every event. A history is the sequence of events of one upstream from start-up on.
 */
module CircuitBreaker {
  import opened Wrappers
  import opened Clock

  datatype CircuitState = Closed | Open | HalfOpen

  datatype Config = Config(failureThreshold: nat, recoveryTimeout: real)

  datatype Circuit = Circuit(
    state: CircuitState,
    consecutiveFailures: nat,
    lastFailure: Option<real>,
    lastSuccess: Option<real>,
    lastHealthCheck: Option<real>,
    totalRequests: nat,
    totalFailures: nat,
    totalOpens: nat,
    config: Config,
    healthy: bool)

  datatype Event =
    | Register(custom: Option<Config>)
    | Request(now: real)
    | Success(now: real)
    | Failure(now: real)
    | Health(ok: bool, now: real)

  // ----- Specification of one event -----

  function NewCircuit(config: Config): Circuit {
    Circuit(Closed, 0, None, None, None, 0, 0, 0, config, true)
  }

  /** Whether the recovery timeout has passed since a recorded failure; never without one. */
  predicate Recovered(lastFailure: Option<real>, now: real, timeout: real) {
    lastFailure.Some? && Elapsed(lastFailure.value, now) >= timeout
  }

  predicate Admitted(c: Circuit, now: real) {
    c.state == Open ==> Recovered(c.lastFailure, now, c.config.recoveryTimeout)
  }

  function Requested(c: Circuit, now: real): Circuit {
    c.(totalRequests := c.totalRequests + 1,
       state := if c.state == Open && Admitted(c, now) then HalfOpen else c.state)
  }

  function Succeeded(c: Circuit, now: real): Circuit {
    c.(consecutiveFailures := 0, lastSuccess := Some(now), state := Closed, healthy := true)
  }

  /** One more failure in state Closed reaches the threshold. */
  predicate Trips(c: Circuit) {
    c.state == Closed && c.consecutiveFailures + 1 >= c.config.failureThreshold
  }

  function Failed(c: Circuit, now: real): Circuit {
    var opens := c.state == HalfOpen || Trips(c);
    c.(consecutiveFailures := c.consecutiveFailures + 1,
       totalFailures := c.totalFailures + 1,
       lastFailure := Some(now),
       state := if opens then Open else c.state,
       totalOpens := c.totalOpens + if opens then 1 else 0,
       healthy := c.healthy && !Trips(c))
  }

  function HealthChecked(c: Circuit, ok: bool, now: real): Circuit {
    var c' := c.(lastHealthCheck := Some(now), healthy := ok);
    if ok && c.state == Open then c'.(state := HalfOpen)
    else if !ok && c.state == Closed then
      c'.(consecutiveFailures := c.consecutiveFailures + 1,
          state := if Trips(c) then Open else Closed,
          totalOpens := c.totalOpens + if Trips(c) then 1 else 0)
    else c'
  }

  /** Requests and failures register an unknown upstream; successes and health checks ignore it. */
  function React(default: Config, c: Option<Circuit>, e: Event): Option<Circuit> {
    match e
    case Register(custom) => if c.Some? then c else Some(NewCircuit(if custom.Some? then custom.value else default))
    case Request(now) => Some(Requested(OrNew(default, c), now))
    case Success(now) => if c.None? then None else Some(Succeeded(c.value, now))
    case Failure(now) => Some(Failed(OrNew(default, c), now))
    case Health(ok, now) => if c.None? then None else Some(HealthChecked(c.value, ok, now))
  }

  function OrNew(default: Config, c: Option<Circuit>): Circuit {
    if c.Some? then c.value else NewCircuit(default)
  }

  // ----- The manager -----

  type Circuits = map<string, Circuit>

  function Local(circuits: Circuits, upstream: string): Option<Circuit> {
    if upstream in circuits then Some(circuits[upstream]) else None
  }

  function Step(default: Config, circuits: Circuits, upstream: string, e: Event): Circuits {
    match React(default, Local(circuits, upstream), e)
    case None => circuits
    case Some(c) => circuits[upstream := c]
  }

  class CircuitBreakerManager {
    var circuits: Circuits
    const defaultConfig: Config

    constructor (defaultConfig: Config)
      ensures circuits == map[] && this.defaultConfig == defaultConfig
    {
      this.circuits := map[];
      this.defaultConfig := defaultConfig;
    }

    method RegisterUpstream(upstream: string, config: Option<Config>)
      modifies this`circuits
      ensures circuits == Step(defaultConfig, old(circuits), upstream, Register(config))
      ensures upstream in circuits && old(circuits).Keys <= circuits.Keys
    {
      if upstream !in circuits {
        var cfg := if config.Some? then config.value else defaultConfig;
        circuits := circuits[upstream := NewCircuit(cfg)];
      } else {
        assert circuits == circuits[upstream := circuits[upstream]];
      }
    }

    /** The entry for the upstream, inserted if it is missing. */
    method EntryOrInsert(upstream: string) returns (circuit: Circuit)
      modifies this`circuits
      ensures circuit == OrNew(defaultConfig, Local(old(circuits), upstream))
      ensures circuits == old(circuits)[upstream := circuit]
    {
      if upstream !in circuits {
        circuits := circuits[upstream := NewCircuit(defaultConfig)];
      } else {
        assert circuits == circuits[upstream := circuits[upstream]];
      }
      circuit := circuits[upstream];
    }

    /** Err(Open) if the request is blocked. */
    method CheckRequest(upstream: string, now: real) returns (result: Result<(), CircuitState>)
      modifies this`circuits
      ensures circuits == Step(defaultConfig, old(circuits), upstream, Request(now))
      ensures result ==
        if Admitted(OrNew(defaultConfig, Local(old(circuits), upstream)), now) then Ok(()) else Err(Open)
    {
      var circuit := EntryOrInsert(upstream);
      circuit := circuit.(totalRequests := circuit.totalRequests + 1);
      result := Ok(());
      match circuit.state {
        case Closed =>
        case HalfOpen =>
        case Open =>
          result := Err(Open);
          if circuit.lastFailure.Some? {
            if Elapsed(circuit.lastFailure.value, now) >= circuit.config.recoveryTimeout {
              circuit := circuit.(state := HalfOpen);
              result := Ok(());
            }
          }
      }
      circuits := circuits[upstream := circuit];
    }

    method RecordSuccess(upstream: string, now: real)
      modifies this`circuits
      ensures circuits == Step(defaultConfig, old(circuits), upstream, Success(now))
    {
      if upstream in circuits {
        var circuit := circuits[upstream];
        circuit := circuit.(consecutiveFailures := 0);
        circuit := circuit.(lastSuccess := Some(now));
        circuit := circuit.(state := Closed);
        circuit := circuit.(healthy := true);
        circuits := circuits[upstream := circuit];
      }
    }

    method RecordFailure(upstream: string, now: real)
      modifies this`circuits
      ensures circuits == Step(defaultConfig, old(circuits), upstream, Failure(now))
    {
      var circuit := EntryOrInsert(upstream);
      circuit := circuit.(consecutiveFailures := circuit.consecutiveFailures + 1);
      circuit := circuit.(totalFailures := circuit.totalFailures + 1);
      circuit := circuit.(lastFailure := Some(now));
      match circuit.state {
        case HalfOpen =>
          circuit := circuit.(state := Open);
          circuit := circuit.(totalOpens := circuit.totalOpens + 1);
        case Closed =>
          if circuit.consecutiveFailures >= circuit.config.failureThreshold {
            circuit := circuit.(state := Open);
            circuit := circuit.(totalOpens := circuit.totalOpens + 1);
            circuit := circuit.(healthy := false);
          }
        case Open =>
      }
      circuits := circuits[upstream := circuit];
    }

    method UpdateHealth(upstream: string, healthy: bool, now: real)
      modifies this`circuits
      ensures circuits == Step(defaultConfig, old(circuits), upstream, Health(healthy, now))
    {
      if upstream in circuits {
        var circuit := circuits[upstream];
        circuit := circuit.(lastHealthCheck := Some(now));
        circuit := circuit.(healthy := healthy);
        if healthy && circuit.state == Open {
          circuit := circuit.(state := HalfOpen);
        } else if !healthy && circuit.state == Closed {
          circuit := circuit.(consecutiveFailures := circuit.consecutiveFailures + 1);
          if circuit.consecutiveFailures >= circuit.config.failureThreshold {
            circuit := circuit.(state := Open);
            circuit := circuit.(totalOpens := circuit.totalOpens + 1);
          }
        }
        circuits := circuits[upstream := circuit];
      }
    }
  }

  // ----- Histories -----

  /** One upstream's circuit after its events, newest last. */
  function After(default: Config, c: Option<Circuit>, events: seq<Event>): Option<Circuit> {
    if events == [] then c
    else React(default, After(default, c, events[..|events| - 1]), events[|events| - 1])
  }

  datatype Tagged = Tagged(upstream: string, event: Event)

  function RunAll(default: Config, circuits: Circuits, events: seq<Tagged>): Circuits {
    if events == [] then circuits
    else
      var last := events[|events| - 1];
      Step(default, RunAll(default, circuits, events[..|events| - 1]), last.upstream, last.event)
  }

  function EventsOf(events: seq<Tagged>, upstream: string): seq<Event> {
    if events == [] then []
    else
      var last, before := events[|events| - 1], EventsOf(events[..|events| - 1], upstream);
      if last.upstream == upstream then before + [last.event] else before
  }

  /** An upstream's circuit depends on its own events only. */
  lemma {:induction false} UpstreamsIndependent(default: Config, circuits: Circuits, events: seq<Tagged>,
                                                upstream: string)
    ensures Local(RunAll(default, circuits, events), upstream)
         == After(default, Local(circuits, upstream), EventsOf(events, upstream))
  {
    hide React;
    if events == [] {
    } else {
      var last, before := events[|events| - 1], events[..|events| - 1];
      UpstreamsIndependent(default, circuits, before, upstream);
      if last.upstream == upstream {
        var mine := EventsOf(before, upstream);
        assert (mine + [last.event])[..|mine|] == mine;
        ReactKeeps(default, Local(RunAll(default, circuits, before), upstream), last.event);
      }
    }
  }

  lemma ReactKeeps(default: Config, c: Option<Circuit>, e: Event)
    ensures c.Some? ==> React(default, c, e).Some? && React(default, c, e).value.config == c.value.config
  {}

  /** The circuit before the i-th event. */
  function Before(default: Config, events: seq<Event>, i: nat): Option<Circuit>
    requires i <= |events|
  {
    After(default, None, events[..i])
  }

  /** The i-th event counts as a failure: a failed request, or a bad health check while Closed. */
  predicate Counts(default: Config, events: seq<Event>, i: nat)
    requires i < |events|
  {
    CountsIn(Before(default, events, i), events[i])
  }

  predicate CountsIn(c: Option<Circuit>, e: Event) {
    e.Failure? || (e.Health? && !e.ok && c.Some? && c.value.state == Closed)
  }

  /** The i-th event makes the circuit enter state Open. */
  predicate Opens(default: Config, events: seq<Event>, i: nat)
    requires i < |events|
  {
    IsOpen(Before(default, events, i + 1)) && !IsOpen(Before(default, events, i))
  }

  predicate IsOpen(c: Option<Circuit>) {
    c.Some? && c.value.state == Open
  }

  function CountTrue(marks: seq<bool>): nat {
    if marks == [] then 0
    else CountTrue(marks[..|marks| - 1]) + if marks[|marks| - 1] then 1 else 0
  }

  /** For each event whether it counts as a failure. */
  function FailureMarks(default: Config, events: seq<Event>): (marks: seq<bool>)
    ensures |marks| == |events|
    ensures forall i :: 0 <= i < |events| ==> marks[i] == Counts(default, events, i)
  {
    seq(|events|, i requires 0 <= i < |events| => Counts(default, events, i))
  }

  /** For each event whether it opens the circuit. */
  function OpenMarks(default: Config, events: seq<Event>): (marks: seq<bool>)
    ensures |marks| == |events|
    ensures forall i :: 0 <= i < |events| ==> marks[i] == Opens(default, events, i)
  {
    seq(|events|, i requires 0 <= i < |events| => Opens(default, events, i))
  }

  /** The index after the last success, or 0. */
  function SinceSuccess(events: seq<Event>): (i: nat)
    ensures i <= |events|
    ensures forall j :: i <= j < |events| ==> !events[j].Success?
    ensures i > 0 ==> events[i - 1].Success?
  {
    if events == [] then 0
    else if events[|events| - 1].Success? then |events|
    else SinceSuccess(events[..|events| - 1])
  }

  function FailuresSinceSuccess(default: Config, events: seq<Event>): nat {
    CountTrue(FailureMarks(default, events)[SinceSuccess(events)..])
  }

  function TimesOpened(default: Config, events: seq<Event>): nat {
    CountTrue(OpenMarks(default, events))
  }

  // ----- What every history keeps -----

  /** Marks and counts of a history in terms of those of its beginning. */
  lemma MarksStep(default: Config, events: seq<Event>)
    requires events != []
    ensures
      var n := |events| - 1;
      && FailuresSinceSuccess(default, events)
         == (if events[n].Success? then 0
             else FailuresSinceSuccess(default, events[..n]) + if Counts(default, events, n) then 1 else 0)
      && TimesOpened(default, events)
         == TimesOpened(default, events[..n]) + if Opens(default, events, n) then 1 else 0
  {
    hide Opens, Counts;
    var n := |events| - 1;
    var before := events[..n];
    forall i | 0 <= i < n
      ensures Counts(default, events, i) == Counts(default, before, i)
      ensures Opens(default, events, i) == Opens(default, before, i)
    {
      SamePrefix(default, events, i);
    }
    assert OpenMarks(default, events)[..n] == OpenMarks(default, before);
    var from, marks := SinceSuccess(events), FailureMarks(default, events);
    if events[n].Success? {
      assert marks[from..] == [];
    } else {
      assert from == SinceSuccess(before);
      assert marks[from..][..n - from] == FailureMarks(default, before)[from..];
    }
  }

  lemma SamePrefix(default: Config, events: seq<Event>, i: nat)
    requires i + 1 < |events|
    ensures Counts(default, events, i) == Counts(default, events[..|events| - 1], i)
    ensures Opens(default, events, i) == Opens(default, events[..|events| - 1], i)
  {
    var before := events[..|events| - 1];
    assert before[..i] == events[..i] && before[..i + 1] == events[..i + 1];
  }

  /** The circuit's counters are these, and with a threshold of at least 1 it is Closed exactly
      below it. */
  predicate Agrees(c: Option<Circuit>, failures: nat, opens: nat) {
    match c
    case None => failures == 0 && opens == 0
    case Some(c) =>
      && c.consecutiveFailures == failures
      && c.totalOpens == opens
      && (c.config.failureThreshold >= 1 ==>
            (c.state == Closed <==> c.consecutiveFailures < c.config.failureThreshold))
  }

  lemma ReactAgrees(default: Config, c: Option<Circuit>, e: Event, failures: nat, opens: nat)
    requires Agrees(c, failures, opens)
    ensures
      var c' := React(default, c, e);
      Agrees(c', if e.Success? then 0 else failures + if CountsIn(c, e) then 1 else 0,
             opens + if IsOpen(c') && !IsOpen(c) then 1 else 0)
  {
    match e {
      case Register(_) =>
      case Request(_) =>
      case Success(_) =>
      case Failure(_) =>
      case Health(_, _) =>
    }
  }

  /** In every reachable state of a circuit with threshold at least 1: it is Closed exactly when
      the counter is below the threshold; the counter is the number of counted failures since
      the last success; and the open count is the number of events that opened it. */
  lemma {:induction false} HistoryInvariant(default: Config, events: seq<Event>)
    ensures Agrees(After(default, None, events), FailuresSinceSuccess(default, events), TimesOpened(default, events))
  {
    if events == [] {
    } else {
      hide FailuresSinceSuccess, TimesOpened, Agrees, CountsIn, IsOpen;
      var n := |events| - 1;
      var before := events[..n];
      HistoryInvariant(default, before);
      MarksStep(default, events);
      assert events[..n + 1] == events;
      ReactAgrees(default, After(default, None, before), events[n],
                  FailuresSinceSuccess(default, before), TimesOpened(default, before));
    }
  }

  /** A threshold of 0 breaks the rule, and only that does: such a circuit starts out Closed with
      its counter at the threshold. */
  lemma ClosedBelowThresholdIff(default: Config)
    ensures (forall events :: ClosedBelowThreshold(After(default, None, events), default))
      <==> default.failureThreshold >= 1
  {
    if default.failureThreshold >= 1 {
      forall events
        ensures ClosedBelowThreshold(After(default, None, events), default)
      {
        HistoryInvariant(default, events);
      }
    } else {
      var events := [Register(None)];
      assert events[..0] == [];
      assert After(default, None, events) == Some(NewCircuit(default));
    }
  }

  predicate ClosedBelowThreshold(c: Option<Circuit>, default: Config) {
    c.Some? && c.value.config == default ==>
      (c.value.state == Closed <==> c.value.consecutiveFailures < default.failureThreshold)
  }

  // ----- Failing fast -----

  /** No success and no good health check. */
  predicate NoRecovery(events: seq<Event>) {
    forall e :: e in events ==> !e.Success? && !(e.Health? && e.ok)
  }

  /** The time of the most recent recorded failure. */
  function LatestFailure(c: Circuit, events: seq<Event>): Option<real> {
    if events == [] then c.lastFailure
    else if events[|events| - 1].Failure? then Some(events[|events| - 1].now)
    else LatestFailure(c, events[..|events| - 1])
  }

  /** No request comes after the recovery timeout of the failure before it. */
  predicate AllTooEarly(c: Circuit, events: seq<Event>) {
    forall i :: 0 <= i < |events| && events[i].Request? ==>
      !Recovered(LatestFailure(c, events[..i]), events[i].now, c.config.recoveryTimeout)
  }

  /** While every request so far came too early the circuit stays Open, and the next request is
      admitted if and only if the timeout has passed since the most recent recorded failure. */
  lemma {:induction false} FailsFast(default: Config, c: Circuit, events: seq<Event>, now: real)
    requires c.state == Open && NoRecovery(events) && AllTooEarly(c, events)
    ensures
      var c' := After(default, Some(c), events);
      && c'.Some? && c'.value.state == Open && c'.value.config == c.config
      && c'.value.lastFailure == LatestFailure(c, events)
      && (Admitted(c'.value, now) <==> Recovered(LatestFailure(c, events), now, c.config.recoveryTimeout))
  {
    if events == [] {
    } else {
      var n := |events| - 1;
      var before := events[..n];
      assert events[n] in events;
      forall i | 0 <= i < n
        ensures before[..i] == events[..i] && before[i] == events[i]
      {}
      assert NoRecovery(before) && AllTooEarly(c, before);
      FailsFast(default, c, before, if events[n].Register? then now else events[n].now);
    }
  }

  /** Every request of such a stretch is refused. */
  lemma RefusedThroughout(default: Config, c: Circuit, events: seq<Event>, i: nat)
    requires c.state == Open && NoRecovery(events) && AllTooEarly(c, events)
    requires i < |events| && events[i].Request?
    ensures After(default, Some(c), events[..i]).Some?
    ensures !Admitted(After(default, Some(c), events[..i]).value, events[i].now)
  {
    forall j | 0 <= j < i
      ensures events[..i][..j] == events[..j]
    {}
    FailsFast(default, c, events[..i], events[i].now);
  }

  /** A circuit that has never had a recorded request failure, so that health checks opened it,
      refuses every request until a success or a good health check. */
  lemma OpenedByHealthStaysShut(default: Config, history: seq<Event>, events: seq<Event>, now: real)
    requires forall e :: e in history + events ==> !e.Failure?
    requires After(default, None, history).Some? && After(default, None, history).value.state == Open
    requires NoRecovery(events)
    ensures
      var c' := After(default, After(default, None, history), events);
      c'.Some? && c'.value.state == Open && !Admitted(c'.value, now)
  {
    forall e | e in history
      ensures !e.Failure?
    {
      assert e in history + events;
    }
    NeverFailed(default, history);
    var c := After(default, None, history).value;
    forall i | 0 <= i <= |events|
      ensures LatestFailure(c, events[..i]).None?
    {
      forall e | e in events[..i]
        ensures !e.Failure?
      {
        assert e in history + events;
      }
      NoLatestFailure(c, events[..i]);
    }
    assert events[..|events|] == events;
    FailsFast(default, c, events, now);
  }

  lemma {:induction false} NeverFailed(default: Config, events: seq<Event>)
    requires forall e :: e in events ==> !e.Failure?
    ensures var c := After(default, None, events); c.Some? ==> c.value.lastFailure.None?
  {
    if events == [] {
    } else {
      NeverFailed(default, events[..|events| - 1]);
      assert events[|events| - 1] in events;
    }
  }

  lemma {:induction false} NoLatestFailure(c: Circuit, events: seq<Event>)
    requires c.lastFailure.None? && forall e :: e in events ==> !e.Failure?
    ensures LatestFailure(c, events).None?
  {
    if events == [] {
    } else {
      assert events[|events| - 1] in events;
      NoLatestFailure(c, events[..|events| - 1]);
    }
  }

  // ----- The probes of a half-open circuit -----

  /** No success and no recorded failure: the outcome of the probe is still open. */
  predicate Undecided(events: seq<Event>) {
    forall e :: e in events ==> !e.Success? && !e.Failure?
  }

  /** A half-open circuit stays so until an outcome is recorded, and admits at every time. */
  lemma {:induction false} HalfOpenAdmits(default: Config, c: Circuit, events: seq<Event>, now: real)
    requires c.state == HalfOpen && Undecided(events)
    ensures var c' := After(default, Some(c), events); c'.Some? && c'.value.state == HalfOpen && Admitted(c'.value, now)
  {
    if events == [] {
    } else {
      var n := |events| - 1;
      assert events[n] in events;
      HalfOpenAdmits(default, c, events[..n], now);
    }
  }

  /** For each event whether it is a request. */
  function RequestMarks(events: seq<Event>): (marks: seq<bool>)
    ensures |marks| == |events| && forall i :: 0 <= i < |events| ==> marks[i] == events[i].Request?
  {
    seq(|events|, i requires 0 <= i < |events| => events[i].Request?)
  }

  /** The i-th event is a request that is let through. */
  predicate LetThrough(default: Config, c: Option<Circuit>, events: seq<Event>, i: nat)
    requires i < |events|
  {
    events[i].Request? && Admitted(OrNew(default, After(default, c, events[..i])), events[i].now)
  }

  /** For each event whether it is a request that is let through. */
  function AdmittedMarks(default: Config, c: Option<Circuit>, events: seq<Event>): (marks: seq<bool>)
    ensures |marks| == |events|
    ensures forall i :: 0 <= i < |events| ==> marks[i] == LetThrough(default, c, events, i)
  {
    seq(|events|, i requires 0 <= i < |events| => LetThrough(default, c, events, i))
  }

  function AdmittedCount(default: Config, c: Option<Circuit>, events: seq<Event>): nat {
    CountTrue(AdmittedMarks(default, c, events))
  }

  function RequestCount(events: seq<Event>): nat {
    CountTrue(RequestMarks(events))
  }

  /** While a half-open circuit waits for an outcome it admits all requests, so it keeps to a
      single probe if and only if no more than one request is made. */
  lemma SingleProbeIff(default: Config, c: Circuit, events: seq<Event>)
    requires c.state == HalfOpen && Undecided(events)
    ensures AdmittedCount(default, Some(c), events) == RequestCount(events)
    ensures AdmittedCount(default, Some(c), events) <= 1 <==> RequestCount(events) <= 1
  {
    hide After, Admitted;
    forall i | 0 <= i < |events|
      ensures AdmittedMarks(default, Some(c), events)[i] == RequestMarks(events)[i]
    {
      assert forall e :: e in events[..i] ==> e in events;
      HalfOpenAdmits(default, c, events[..i], if events[i].Request? then events[i].now else 0.0);
    }
    assert AdmittedMarks(default, Some(c), events) == RequestMarks(events);
  }

  /** The same from the request on that finds the recovery timeout of an open circuit passed: it
      is the first probe, and every later request is one more. */
  lemma ProbesAfterTimeout(default: Config, c: Circuit, now: real, events: seq<Event>)
    requires c.state == Open && Admitted(c, now) && Undecided(events)
    ensures AdmittedCount(default, Some(c), [Request(now)] + events) == 1 + RequestCount(events)
    ensures AdmittedCount(default, Some(c), [Request(now)] + events) <= 1 <==> RequestCount(events) == 0
  {
    var all, half := [Request(now)] + events, Requested(c, now);
    assert half.state == HalfOpen;
    SingleProbeIff(default, half, events);
    FirstLetThrough(default, c, now, events);
    forall i | 0 <= i < |events|
      ensures LetThrough(default, Some(c), all, i + 1) == LetThrough(default, Some(half), events, i)
    {
      LetThroughCons(default, c, now, events, i);
    }
    hide *;
    assert AdmittedMarks(default, Some(c), all) == [true] + AdmittedMarks(default, Some(half), events);
    CountCons(true, AdmittedMarks(default, Some(half), events));
    CountsAre(default, Some(c), all);
    CountsAre(default, Some(half), events);
  }

  lemma CountsAre(default: Config, c: Option<Circuit>, events: seq<Event>)
    ensures AdmittedCount(default, c, events) == CountTrue(AdmittedMarks(default, c, events))
  {}

  lemma FirstLetThrough(default: Config, c: Circuit, now: real, events: seq<Event>)
    requires Admitted(c, now)
    ensures LetThrough(default, Some(c), [Request(now)] + events, 0)
  {
    assert ([Request(now)] + events)[..0] == [];
  }

  lemma LetThroughCons(default: Config, c: Circuit, now: real, events: seq<Event>, i: nat)
    requires i < |events|
    ensures LetThrough(default, Some(c), [Request(now)] + events, i + 1)
         == LetThrough(default, Some(Requested(c, now)), events, i)
  {
    hide Admitted, After, Requested;
    assert ([Request(now)] + events)[..i + 1] == [Request(now)] + events[..i];
    AfterCons(default, Some(c), Request(now), events[..i]);
  }

  lemma {:induction false} AfterCons(default: Config, c: Option<Circuit>, e: Event, events: seq<Event>)
    ensures After(default, c, [e] + events) == After(default, React(default, c, e), events)
  {
    hide React;
    var all := [e] + events;
    if events == [] {
      assert all == [e] && all[..0] == [];
    } else {
      var n := |events| - 1;
      AfterCons(default, c, e, events[..n]);
      assert all[..|all| - 1] == [e] + events[..n];
    }
  }

  lemma {:induction false} CountCons(mark: bool, marks: seq<bool>)
    ensures CountTrue([mark] + marks) == CountTrue(marks) + if mark then 1 else 0
  {
    var all := [mark] + marks;
    if marks == [] {
      assert all[..0] == [];
    } else {
      CountCons(mark, marks[..|marks| - 1]);
      assert all[..|all| - 1] == [mark] + marks[..|marks| - 1];
    }
  }

  /** The failures in a row that open a new circuit. */
  function Failures(n: nat): (events: seq<Event>)
    ensures |events| == n && forall i :: 0 <= i < n ==> events[i] == Failure(0.0)
  {
    seq(n, _ => Failure(0.0))
  }

  lemma {:induction false} FailuresOpen(default: Config, n: nat)
    requires n >= 1 && (n == 1 || n <= default.failureThreshold)
    ensures
      var c := After(default, None, Failures(n));
      && c.Some? && c.value.config == default && c.value.lastFailure == Some(0.0) && c.value.consecutiveFailures == n
      && c.value.state == if n >= default.failureThreshold then Open else Closed
  {
    assert Failures(n)[..n - 1] == Failures(n - 1);
    if n == 1 {
      assert After(default, None, Failures(0)) == None;
    } else {
      FailuresOpen(default, n - 1);
    }
  }

  /** Under every configuration a new circuit can be failed open such that two requests after the
      recovery timeout are both let through before the first has an outcome. */
  lemma TwoProbes(default: Config)
    requires default.recoveryTimeout >= 0.0
    ensures
      var failures := Failures(if default.failureThreshold == 0 then 1 else default.failureThreshold);
      var probes := [Request(default.recoveryTimeout), Request(default.recoveryTimeout)];
      var c := After(default, None, failures);
      && c.Some? && c.value.state == Open && AdmittedCount(default, c, probes) == 2
  {
    var n := if default.failureThreshold == 0 then 1 else default.failureThreshold;
    FailuresOpen(default, n);
    var c := After(default, None, Failures(n)).value;
    var rest := [Request(default.recoveryTimeout)];
    assert CountTrue(RequestMarks(rest)) == 1 by {
      assert RequestMarks(rest) == [true] && [true][..0] == [];
    }
    ProbesAfterTimeout(default, c, default.recoveryTimeout, rest);
    assert [Request(default.recoveryTimeout)] + rest == [Request(default.recoveryTimeout), rest[0]];
  }
}
