/**
 The whole state of a circuit from its history, crates/pqc-proxy/src/circuit_breaker.rs:108-219: which
 events move it from state to state, since when it has been Open or HalfOpen, and what its counters
 and times record.
 */
module BreakerHistory {
  import opened Wrappers
  import opened CircuitBreaker

  // ----- Single events -----

  /** At least so many seconds have passed since then; a clock that went back counts as no time. */
  predicate HasPassed(since: real, seconds: real, now: real) {
    now - since >= seconds || (now < since && seconds <= 0.0)
  }

  /** Whether a request meets a circuit whose last recorded failure is long enough ago. */
  predicate Timely(lastFailure: Option<real>, timeout: real, now: real) {
    lastFailure.Some? && HasPassed(lastFailure.value, timeout, now)
  }

  /** Only an Open circuit refuses, until the recovery timeout has passed. */
  lemma AdmittedIff(c: Circuit, now: real)
    ensures Admitted(c, now) <==> c.state != Open || Timely(c.lastFailure, c.config.recoveryTimeout, now)
  {}

  /** The state after each kind of event, in every state. */
  lemma Transitions(default: Config, c: Circuit, e: Event)
    ensures
      var c' := React(default, Some(c), e);
      var tripped := c.consecutiveFailures + 1 >= c.config.failureThreshold;
      && c'.Some? && c'.value.config == c.config
      && c'.value.state ==
           match (c.state, e)
           case (_, Register(_)) => c.state
           case (_, Success(_)) => Closed
           case (Closed, Request(_)) => Closed
           case (Closed, Failure(_)) => if tripped then Open else Closed
           case (Closed, Health(ok, _)) => if !ok && tripped then Open else Closed
           case (Open, Request(now)) => if Timely(c.lastFailure, c.config.recoveryTimeout, now) then HalfOpen else Open
           case (Open, Failure(_)) => Open
           case (Open, Health(ok, _)) => if ok then HalfOpen else Open
           case (HalfOpen, Failure(_)) => Open
           case (HalfOpen, _) => HalfOpen
  {
    AdmittedIff(c, if e.Request? then e.now else 0.0);
    hide Recovered;
  }

  /** A failed probe opens the circuit again and counts as one more opening; and until the recovery
      timeout has passed since it, or since a later failure, every request is refused. */
  lemma FailedProbeReopens(default: Config, c: Circuit, t: real, events: seq<Event>, now: real)
    requires c.state == HalfOpen && NoRecovery(events) && AllTooEarly(Failed(c, t), events)
    ensures
      var reopened := React(default, Some(c), Failure(t));
      && reopened.Some? && reopened.value.state == Open && reopened.value.totalOpens == c.totalOpens + 1
      && reopened.value.lastFailure == Some(t)
    ensures
      var c' := After(default, Some(c), [Failure(t)] + events);
      && c'.Some? && c'.value.state == Open
      && (Admitted(c'.value, now) <==>
            Timely(LatestFailure(Failed(c, t), events), c.config.recoveryTimeout, now))
  {
    AfterCons(default, Some(c), Failure(t), events);
    FailsFast(default, Failed(c, t), events, now);
    AdmittedIff(After(default, Some(Failed(c, t)), events).value, now);
    hide Recovered, Timely, AllTooEarly, After;
  }

  // ----- The state since an event -----

  function LastFailureTime(events: seq<Event>): Option<real> {
    if events == [] then None
    else if events[|events| - 1].Failure? then Some(events[|events| - 1].now)
    else LastFailureTime(events[..|events| - 1])
  }

  /** The circuit's record of the last failure is right. */
  lemma {:induction false} LastFailureRecorded(default: Config, events: seq<Event>)
    ensures var c := After(default, None, events);
      if c.Some? then c.value.lastFailure == LastFailureTime(events) else LastFailureTime(events) == None
  {
    if events == [] {
    } else {
      LastFailureRecorded(default, events[..|events| - 1]);
    }
  }

  predicate StateBefore(default: Config, events: seq<Event>, i: nat, state: CircuitState)
    requires i <= |events|
  {
    var c := Before(default, events, i);
    c.Some? && c.value.state == state
  }

  /** An Open circuit recovers with the i-th event: a good health check, or a request after the
      recovery timeout of the last failure. */
  predicate RecoversAt(default: Config, events: seq<Event>, i: nat)
    requires i < |events|
  {
    && StateBefore(default, events, i, Open)
    && match events[i]
       case Health(ok, _) => ok
       case Request(now) =>
         Timely(LastFailureTime(events[..i]), Before(default, events, i).value.config.recoveryTimeout, now)
       case _ => false
  }

  /** The circuit opens with the i-th event: a failed probe, or the counted failure that reaches the
      threshold. */
  predicate OpensAt(default: Config, events: seq<Event>, i: nat)
    requires i < |events|
  {
    || (events[i].Failure? && StateBefore(default, events, i, HalfOpen))
    || (&& (events[i].Failure? || (events[i].Health? && !events[i].ok && StateBefore(default, events, i, Closed)))
        && (StateBefore(default, events, i, Closed) || Before(default, events, i) == None)
        && FailuresSinceSuccess(default, events[..i]) + 1
             >= OrNew(default, Before(default, events, i)).config.failureThreshold)
  }

  /** It recovered with the k-th event, and no outcome has been recorded since. */
  ghost predicate HalfOpenSince(default: Config, events: seq<Event>, k: int) {
    && 0 <= k < |events| && RecoversAt(default, events, k)
    && forall j :: k < j < |events| ==> !events[j].Success? && !events[j].Failure?
  }

  /** It opened with the k-th event, and has neither recovered nor had a success since. */
  ghost predicate OpenSince(default: Config, events: seq<Event>, k: int) {
    && 0 <= k < |events| && OpensAt(default, events, k)
    && forall j :: k < j < |events| ==> !events[j].Success? && !RecoversAt(default, events, j)
  }

  lemma PrefixAt(default: Config, events: seq<Event>, i: nat)
    requires i + 1 < |events|
    ensures
      var before := events[..|events| - 1];
      && before[i] == events[i] && before[..i] == events[..i]
      && Before(default, before, i) == Before(default, events, i)
      && RecoversAt(default, before, i) == RecoversAt(default, events, i)
      && OpensAt(default, before, i) == OpensAt(default, events, i)
  {
    var before := events[..|events| - 1];
    assert before[..i] == events[..i];
    hide FailuresSinceSuccess, Timely;
  }

  /** One more event, in terms of recovering and opening. */
  lemma LastStep(default: Config, events: seq<Event>)
    requires events != []
    ensures
      var n := |events| - 1;
      var c := After(default, None, events);
      && (c.Some? && c.value.state == HalfOpen <==>
            || RecoversAt(default, events, n)
            || (StateBefore(default, events, n, HalfOpen) && !events[n].Success? && !events[n].Failure?))
      && (c.Some? && c.value.state == Open <==>
            || OpensAt(default, events, n)
            || (StateBefore(default, events, n, Open) && !events[n].Success? && !RecoversAt(default, events, n)))
  {
    var n := |events| - 1;
    var c := Before(default, events, n);
    LastFailureRecorded(default, events[..n]);
    HistoryInvariant(default, events[..n]);
    if c.Some? {
      Transitions(default, c.value, events[n]);
    } else {
      Transitions(default, NewCircuit(default), events[n]);
    }
    hide FailuresSinceSuccess, Timely;
  }

  lemma HalfOpenSinceStep(default: Config, events: seq<Event>, k: int)
    requires events != []
    ensures
      var n := |events| - 1;
      HalfOpenSince(default, events, k) <==>
        || (k == n && RecoversAt(default, events, n))
        || (HalfOpenSince(default, events[..n], k) && !events[n].Success? && !events[n].Failure?)
  {
    var n := |events| - 1;
    hide RecoversAt;
    if 0 <= k < n {
      PrefixAt(default, events, k);
    }
  }

  lemma OpenSinceStep(default: Config, events: seq<Event>, k: int)
    requires events != []
    ensures
      var n := |events| - 1;
      OpenSince(default, events, k) <==>
        || (k == n && OpensAt(default, events, n))
        || (OpenSince(default, events[..n], k) && !events[n].Success? && !RecoversAt(default, events, n))
  {
    var n := |events| - 1;
    forall j | 0 <= j < n
      ensures RecoversAt(default, events[..n], j) == RecoversAt(default, events, j)
      ensures OpensAt(default, events[..n], j) == OpensAt(default, events, j)
    {
      PrefixAt(default, events, j);
    }
    hide RecoversAt, OpensAt;
  }

  lemma WholePrefix(default: Config, events: seq<Event>)
    requires events != []
    ensures
      var n := |events| - 1;
      && Before(default, events, |events|) == After(default, None, events)
      && Before(default, events[..n], n) == Before(default, events, n)
  {
    var n := |events| - 1;
    assert events[..|events|] == events && events[..n][..n] == events[..n];
  }

  /** A circuit is HalfOpen exactly if it has recovered since it opened and no outcome was recorded
      after that. */
  lemma {:induction false} HalfOpenIff(default: Config, events: seq<Event>)
    ensures StateBefore(default, events, |events|, HalfOpen) <==> exists k :: HalfOpenSince(default, events, k)
  {
    if events == [] {
    } else {
      var n := |events| - 1;
      HalfOpenIff(default, events[..n]);
      WholePrefix(default, events);
      LastStep(default, events);
      hide After, Before, RecoversAt, OpensAt, HalfOpenSince;
      if StateBefore(default, events, |events|, HalfOpen) {
        if RecoversAt(default, events, n) {
          HalfOpenSinceStep(default, events, n);
        } else {
          var k :| HalfOpenSince(default, events[..n], k);
          HalfOpenSinceStep(default, events, k);
        }
      }
      if k :| HalfOpenSince(default, events, k) {
        HalfOpenSinceStep(default, events, k);
      }
    }
  }

  /** A circuit is Open exactly if it has opened, and since then there was neither a success, nor a good
      health check, nor a request after the recovery timeout. */
  lemma {:induction false} OpenIff(default: Config, events: seq<Event>)
    ensures StateBefore(default, events, |events|, Open) <==> exists k :: OpenSince(default, events, k)
  {
    if events == [] {
    } else {
      var n := |events| - 1;
      OpenIff(default, events[..n]);
      WholePrefix(default, events);
      LastStep(default, events);
      hide After, Before, RecoversAt, OpensAt, OpenSince;
      if StateBefore(default, events, |events|, Open) {
        if OpensAt(default, events, n) {
          OpenSinceStep(default, events, n);
        } else {
          var k :| OpenSince(default, events[..n], k);
          OpenSinceStep(default, events, k);
        }
      }
      if k :| OpenSince(default, events, k) {
        OpenSinceStep(default, events, k);
      }
    }
  }

  // ----- What is recorded -----

  /** The configuration a circuit was registered with: the first registration, request or failure
      makes it. */
  function RegisteredWith(default: Config, events: seq<Event>): Option<Config> {
    if events == [] then None
    else
      var last, before := events[|events| - 1], RegisteredWith(default, events[..|events| - 1]);
      if before.Some? then before
      else
        match last
        case Register(custom) => Some(if custom.Some? then custom.value else default)
        case Request(_) => Some(default)
        case Failure(_) => Some(default)
        case _ => None
  }

  /** The time of the last success, and of the last health check, of a known upstream. */
  function LastSuccessTime(default: Config, events: seq<Event>): Option<real> {
    if events == [] then None
    else
      var n := |events| - 1;
      if events[n].Success? && RegisteredWith(default, events[..n]).Some? then Some(events[n].now)
      else LastSuccessTime(default, events[..n])
  }

  function LastHealthTime(default: Config, events: seq<Event>): Option<real> {
    if events == [] then None
    else
      var n := |events| - 1;
      if events[n].Health? && RegisteredWith(default, events[..n]).Some? then Some(events[n].now)
      else LastHealthTime(default, events[..n])
  }

  /** Healthy at first; afterwards as the last success, health check or failure that opened a Closed
      circuit says. */
  function SeemsHealthy(default: Config, events: seq<Event>): bool {
    if events == [] then true
    else
      var n := |events| - 1;
      match events[n]
      case Success(_) => true
      case Health(ok, _) => if RegisteredWith(default, events[..n]).Some? then ok else true
      case Failure(_) =>
        && SeemsHealthy(default, events[..n])
        && !(OpensAt(default, events, n) && !StateBefore(default, events, n, HalfOpen))
      case _ => SeemsHealthy(default, events[..n])
  }

  /** For each event whether it is a failure. */
  function FailedMarks(events: seq<Event>): (marks: seq<bool>)
    ensures |marks| == |events| && forall i :: 0 <= i < |events| ==> marks[i] == events[i].Failure?
  {
    seq(|events|, i requires 0 <= i < |events| => events[i].Failure?)
  }

  lemma MarksSnoc(events: seq<Event>)
    requires events != []
    ensures
      var n := |events| - 1;
      && CountTrue(RequestMarks(events))
         == CountTrue(RequestMarks(events[..n])) + (if events[n].Request? then 1 else 0)
      && CountTrue(FailedMarks(events)) == CountTrue(FailedMarks(events[..n])) + (if events[n].Failure? then 1 else 0)
  {
    var n := |events| - 1;
    assert RequestMarks(events)[..n] == RequestMarks(events[..n]);
    assert FailedMarks(events)[..n] == FailedMarks(events[..n]);
  }

  /** The counters, the times and the configuration of a circuit, from its history. */
  lemma {:induction false} Recorded(default: Config, events: seq<Event>)
    ensures
      match After(default, None, events)
      case None => RegisteredWith(default, events) == None
                   && CountTrue(RequestMarks(events)) == 0 && CountTrue(FailedMarks(events)) == 0
                   && LastSuccessTime(default, events) == None && LastHealthTime(default, events) == None
      case Some(c) =>
        && RegisteredWith(default, events) == Some(c.config)
        && c.totalRequests == CountTrue(RequestMarks(events)) && c.totalFailures == CountTrue(FailedMarks(events))
        && c.lastSuccess == LastSuccessTime(default, events) && c.lastHealthCheck == LastHealthTime(default, events)
  {
    if events == [] {
    } else {
      var n := |events| - 1;
      var before := events[..n];
      Recorded(default, before);
      MarksSnoc(events);
      hide RequestMarks, FailedMarks, CountTrue;
      ReactRecords(default, After(default, None, before), events[n]);
      hide React;
    }
  }

  /** And whether it seems healthy. */
  lemma {:induction false} HealthRecorded(default: Config, events: seq<Event>)
    ensures
      match After(default, None, events)
      case None => SeemsHealthy(default, events)
      case Some(c) => c.healthy == SeemsHealthy(default, events)
  {
    if events == [] {
    } else {
      var n := |events| - 1;
      var before := events[..n];
      HealthRecorded(default, before);
      Recorded(default, before);
      HistoryInvariant(default, before);
      hide FailuresSinceSuccess, TimesOpened, RequestMarks, FailedMarks, CountTrue, RegisteredWith;
      ReactRecords(default, After(default, None, before), events[n]);
      if events[n].Failure? {
        TripsAre(default, events);
      }
      hide React, OpensAt, StateBefore, Trips;
    }
  }

  /** A failure trips a Closed circuit exactly where it opens it. */
  lemma TripsAre(default: Config, events: seq<Event>)
    requires events != [] && events[|events| - 1].Failure?
      && Agrees(After(default, None, events[..|events| - 1]), FailuresSinceSuccess(default, events[..|events| - 1]),
                TimesOpened(default, events[..|events| - 1]))
    ensures
      var n := |events| - 1;
      Trips(OrNew(default, After(default, None, events[..n])))
      <==> OpensAt(default, events, n) && !StateBefore(default, events, n, HalfOpen)
  {
    hide FailuresSinceSuccess, TimesOpened;
  }

  /** What one event adds to the records. */
  lemma ReactRecords(default: Config, c: Option<Circuit>, e: Event)
    ensures
      var c' := React(default, c, e);
      var was := OrNew(if e.Register? && e.custom.Some? then e.custom.value else default, c);
      && (c'.None? <==> c.None? && (e.Success? || e.Health?))
      && (c'.Some? ==>
            && c'.value.config == was.config
            && c'.value.totalRequests == was.totalRequests + (if e.Request? then 1 else 0)
            && c'.value.totalFailures == was.totalFailures + (if e.Failure? then 1 else 0)
            && c'.value.lastSuccess == (if e.Success? then Some(e.now) else was.lastSuccess)
            && c'.value.lastHealthCheck == (if e.Health? then Some(e.now) else was.lastHealthCheck)
            && c'.value.healthy == (if e.Success? then true else if e.Health? then e.ok
                                    else was.healthy && !(e.Failure? && Trips(was))))
  {}
}
