/**
 Routing and load balancing, crates/pqc-proxy/src/router.rs. Strings are sequences of UTF-8 code
 units; `upper` is the library's upper-casing.
 */
module Router {
  import opened Wrappers
  import opened Sorting

  datatype RouteConfig = RouteConfig(
    id: string, pathPrefix: string, upstream: string, upstreams: seq<string>, stripPrefix: bool, methods: seq<string>)

  datatype Route = Route(
    id: string, pathPrefix: string, upstreams: seq<string>, upstream: string, stripPrefix: bool, methods: seq<string>)

  // ----- Building the matcher -----

  /** The route of a configuration: its upstreams start with the primary one. */
  function FromConfig(cfg: RouteConfig, upper: string -> string): (route: Route)
    ensures route.upstreams != [] && route.upstreams[0] == route.upstream
  {
    Route(cfg.id, cfg.pathPrefix, [cfg.upstream] + cfg.upstreams, cfg.upstream, cfg.stripPrefix,
          seq(|cfg.methods|, i requires 0 <= i < |cfg.methods| => upper(cfg.methods[i])))
  }

  function FromConfigs(configs: seq<RouteConfig>, upper: string -> string): (routes: seq<Route>)
    ensures |routes| == |configs|
    ensures forall i :: 0 <= i < |configs| ==> routes[i] == FromConfig(configs[i], upper)
  {
    seq(|configs|, i requires 0 <= i < |configs| => FromConfig(configs[i], upper))
  }

  /** Longer prefixes sort first. */
  function PrefixRank(route: Route): int {
    -|route.pathPrefix|
  }

  datatype RouteMatcher = RouteMatcher(routes: seq<Route>)

  function NewMatcher(configs: seq<RouteConfig>, upper: string -> string): RouteMatcher {
    RouteMatcher(SortBy(FromConfigs(configs, upper), PrefixRank))
  }

  // ----- Matching -----

  function TrimSlashes(s: string): (t: string)
    ensures t <= s && (t != [] ==> t[|t| - 1] != '/')
  {
    if s != "" && s[|s| - 1] == '/' then TrimSlashes(s[..|s| - 1]) else s
  }

  predicate Matches(route: Route, path: string, verb: string) {
    && (route.pathPrefix <= path || path == TrimSlashes(route.pathPrefix))
    && (route.methods == [] || verb in route.methods)
  }

  function UpstreamPath(route: Route, path: string): string {
    if !route.stripPrefix then path
    else
      var stripped := if route.pathPrefix <= path then path[|route.pathPrefix|..] else "";
      if stripped == "" || stripped[0] == '/' then stripped else "/" + stripped
  }

  /** The first route in the list that matches. */
  function FirstMatch(routes: seq<Route>, path: string, verb: string): Option<Route> {
    if routes == [] then None
    else if Matches(routes[0], path, verb) then Some(routes[0])
    else FirstMatch(routes[1..], path, verb)
  }

  method MatchRoute(matcher: RouteMatcher, path: string, verb: string, upper: string -> string)
    returns (result: Option<(Route, string)>)
    ensures
      match FirstMatch(matcher.routes, path, upper(verb))
      case None => result == None
      case Some(route) => result == Some((route, UpstreamPath(route, path)))
    ensures result.Some? && !result.value.0.stripPrefix ==> result.value.1 == path
  {
    var verbUpper := upper(verb);
    assert matcher.routes[0..] == matcher.routes;
    for i := 0 to |matcher.routes|
      invariant FirstMatch(matcher.routes, path, verbUpper) == FirstMatch(matcher.routes[i..], path, verbUpper)
    {
      var route := matcher.routes[i];
      assert matcher.routes[i..][1..] == matcher.routes[i + 1..];
      if route.pathPrefix <= path || path == TrimSlashes(route.pathPrefix) {
        if route.methods != [] && verbUpper !in route.methods {
          continue;
        }
        var upstreamPath := path;
        if route.stripPrefix {
          var stripped := if route.pathPrefix <= path then path[|route.pathPrefix|..] else "";
          upstreamPath := if stripped == "" || stripped[0] == '/' then stripped else "/" + stripped;
        }
        return Some((route, upstreamPath));
      }
    }
    result := None;
  }

  // ----- First match after sorting is the longest match -----

  /** The k-th configuration matches; no other match has a longer prefix, or the same length and
      an earlier position. */
  ghost predicate IsBest(configs: seq<RouteConfig>, upper: string -> string, path: string, verb: string, k: nat) {
    && k < |configs| && Matches(FromConfig(configs[k], upper), path, verb)
    && forall j :: 0 <= j < |configs| && Matches(FromConfig(configs[j], upper), path, verb) ==>
         || |configs[j].pathPrefix| < |configs[k].pathPrefix|
         || (|configs[j].pathPrefix| == |configs[k].pathPrefix| && k <= j)
  }

  lemma {:induction false} FirstMatchNone(routes: seq<Route>, path: string, verb: string)
    ensures FirstMatch(routes, path, verb).None? <==> forall r :: r in routes ==> !Matches(r, path, verb)
    ensures FirstMatch(routes, path, verb).Some? ==>
      FirstMatch(routes, path, verb).value in routes && Matches(FirstMatch(routes, path, verb).value, path, verb)
  {
    hide Matches;
    if routes == [] {
    } else {
      FirstMatchNone(routes[1..], path, verb);
      assert forall r :: r in routes <==> r == routes[0] || r in routes[1..];
    }
  }

  /** In a sorted list no match ranks before the first one. */
  lemma {:induction false} FirstMatchRanksFirst(routes: seq<Route>, path: string, verb: string, other: Route)
    requires SortedBy(routes, PrefixRank) && other in routes && Matches(other, path, verb)
    ensures FirstMatch(routes, path, verb).Some?
    ensures PrefixRank(FirstMatch(routes, path, verb).value) <= PrefixRank(other)
  {
    hide Matches;
    if Matches(routes[0], path, verb) {
      var i :| 0 <= i < |routes| && routes[i] == other;
      assert PrefixRank(routes[0]) <= PrefixRank(routes[i]);
    } else {
      assert other in routes[1..];
      FirstMatchRanksFirst(routes[1..], path, verb, other);
    }
  }

  /** The first match is also the first among the routes of its own rank. */
  lemma {:induction false} FirstMatchInRank(routes: seq<Route>, path: string, verb: string)
    requires FirstMatch(routes, path, verb).Some?
    ensures
      var found := FirstMatch(routes, path, verb);
      FirstMatch(WithKey(routes, PrefixRank, PrefixRank(found.value)), path, verb) == found
  {
    hide Matches, PrefixRank;
    var found := FirstMatch(routes, path, verb);
    var k := PrefixRank(found.value);
    var rest := WithKey(routes[1..], PrefixRank, k);
    assert routes == [routes[0]] + routes[1..];
    WithKeyCons(routes[0], routes[1..], PrefixRank, k);
    assert ([routes[0]] + rest)[1..] == rest;
    if Matches(routes[0], path, verb) {
      assert found.value == routes[0];
    } else {
      FirstMatchInRank(routes[1..], path, verb);
      assert PrefixRank(routes[0]) != k ==> WithKey(routes, PrefixRank, k) == rest;
    }
  }

  /** The position of the first match of one rank. */
  lemma {:induction false} FirstPositionInRank(routes: seq<Route>, path: string, verb: string, k: int)
    returns (position: nat)
    requires FirstMatch(WithKey(routes, PrefixRank, k), path, verb).Some?
    ensures position < |routes| && PrefixRank(routes[position]) == k && Matches(routes[position], path, verb)
    ensures FirstMatch(WithKey(routes, PrefixRank, k), path, verb) == Some(routes[position])
    ensures forall j :: 0 <= j < position && PrefixRank(routes[j]) == k ==> !Matches(routes[j], path, verb)
  {
    hide Matches, PrefixRank;
    var rest := WithKey(routes[1..], PrefixRank, k);
    assert routes == [routes[0]] + routes[1..];
    WithKeyCons(routes[0], routes[1..], PrefixRank, k);
    assert ([routes[0]] + rest)[1..] == rest;
    if PrefixRank(routes[0]) == k && Matches(routes[0], path, verb) {
      position := 0;
    } else {
      assert PrefixRank(routes[0]) != k ==> WithKey(routes, PrefixRank, k) == rest;
      var p := FirstPositionInRank(routes[1..], path, verb, k);
      position := p + 1;
      assert forall j :: 0 < j < position ==> routes[j] == routes[1..][j - 1];
    }
  }

  /** Over the sorted list, the first match is the best configured route, and there is none
      exactly when no configured route matches. */
  lemma FirstMatchIsBest(configs: seq<RouteConfig>, upper: string -> string, path: string, verb: string)
    ensures
      match FirstMatch(NewMatcher(configs, upper).routes, path, verb)
      case None => forall j :: 0 <= j < |configs| ==> !Matches(FromConfig(configs[j], upper), path, verb)
      case Some(route) =>
        exists k: nat :: IsBest(configs, upper, path, verb, k) && route == FromConfig(configs[k], upper)
  {
    hide Matches, FirstMatch, SortBy, WithKey;
    var routes := FromConfigs(configs, upper);
    var sorted := NewMatcher(configs, upper).routes;
    SortBySorted(routes, PrefixRank);
    FirstMatchNone(sorted, path, verb);
    SameElements(routes, sorted);
    var found := FirstMatch(sorted, path, verb);
    if found.Some? {
      var rank := PrefixRank(found.value);
      FirstMatchInRank(sorted, path, verb);
      SortByStable(routes, PrefixRank, rank);
      var k := FirstPositionInRank(routes, path, verb, rank);
      forall j | 0 <= j < |configs| && Matches(FromConfig(configs[j], upper), path, verb)
        ensures
          || |configs[j].pathPrefix| < |configs[k].pathPrefix|
          || (|configs[j].pathPrefix| == |configs[k].pathPrefix| && k <= j)
      {
        assert routes[j] in sorted;
        FirstMatchRanksFirst(sorted, path, verb, routes[j]);
      }
      assert IsBest(configs, upper, path, verb, k);
    } else {
      assert forall j :: 0 <= j < |configs| ==> routes[j] in sorted;
    }
  }

  lemma SameElements<T>(a: seq<T>, b: seq<T>)
    requires multiset(a) == multiset(b)
    ensures forall x :: x in a <==> x in b
  {
    assert forall x :: x in a <==> x in multiset(a);
    assert forall x :: x in b <==> x in multiset(b);
  }

  /** The path is the prefix without its trailing slashes. */
  predicate WithoutSlashes(prefix: string, path: string) {
    && path <= prefix && (forall i :: |path| <= i < |prefix| ==> prefix[i] == '/')
    && (path == "" || path[|path| - 1] != '/')
  }

  lemma {:induction false} TrimSlashesIs(prefix: string, path: string)
    ensures path == TrimSlashes(prefix) <==> WithoutSlashes(prefix, path)
  {
    if prefix != "" && prefix[|prefix| - 1] == '/' {
      TrimSlashesIs(prefix[..|prefix| - 1], path);
    } else if WithoutSlashes(prefix, path) {
      assert |path| == |prefix|;
    }
  }

  /** The configured route is for the path and the method: the path starts with its prefix, or is it
      without its trailing slashes; and it names no method or, in upper case, this one. */
  predicate IsFor(cfg: RouteConfig, upper: string -> string, path: string, verb: string) {
    && (cfg.pathPrefix <= path || WithoutSlashes(cfg.pathPrefix, path))
    && (cfg.methods == [] || exists i :: 0 <= i < |cfg.methods| && upper(cfg.methods[i]) == verb)
  }

  lemma MatchesIff(cfg: RouteConfig, upper: string -> string, path: string, verb: string)
    ensures Matches(FromConfig(cfg, upper), path, verb) <==> IsFor(cfg, upper, path, verb)
  {
    TrimSlashesIs(cfg.pathPrefix, path);
    hide TrimSlashes, WithoutSlashes;
    var methods := FromConfig(cfg, upper).methods;
    if verb in methods {
      var i :| 0 <= i < |methods| && methods[i] == verb;
      assert upper(cfg.methods[i]) == verb;
    }
    if i :| 0 <= i < |cfg.methods| && upper(cfg.methods[i]) == verb {
      assert methods[i] == verb;
    }
  }

  /** No other configured route for the path and method has a longer prefix, or one as long and an
      earlier position. */
  predicate Foremost(configs: seq<RouteConfig>, upper: string -> string, path: string, verb: string, k: nat) {
    && k < |configs| && IsFor(configs[k], upper, path, verb)
    && forall j :: 0 <= j < |configs| && IsFor(configs[j], upper, path, verb) ==>
         || |configs[j].pathPrefix| < |configs[k].pathPrefix|
         || (|configs[j].pathPrefix| == |configs[k].pathPrefix| && k <= j)
  }

  /** Routing, from the configuration to the answer: nothing exactly if no configured route is for the
      path and method; otherwise the foremost one, with its primary upstream first. */
  lemma RoutingDecides(configs: seq<RouteConfig>, upper: string -> string, path: string, verb: string)
    ensures
      match FirstMatch(NewMatcher(configs, upper).routes, path, verb)
      case None => forall k :: 0 <= k < |configs| ==> !IsFor(configs[k], upper, path, verb)
      case Some(route) =>
        exists k :: 0 <= k && Foremost(configs, upper, path, verb, k)
          && route.id == configs[k].id && route.pathPrefix == configs[k].pathPrefix
          && route.upstream == configs[k].upstream && route.upstreams == [configs[k].upstream] + configs[k].upstreams
          && route.stripPrefix == configs[k].stripPrefix
  {
    FirstMatchIsBest(configs, upper, path, verb);
    forall k | 0 <= k < |configs|
      ensures Matches(FromConfig(configs[k], upper), path, verb) <==> IsFor(configs[k], upper, path, verb)
    {
      MatchesIff(configs[k], upper, path, verb);
    }
    hide Matches, FirstMatch, IsFor, NewMatcher;
    var found := FirstMatch(NewMatcher(configs, upper).routes, path, verb);
    if found.Some? {
      var k: nat :| IsBest(configs, upper, path, verb, k) && found.value == FromConfig(configs[k], upper);
      assert Foremost(configs, upper, path, verb, k);
    }
  }

  /** There is only one best configured position. */
  lemma BestUnique(configs: seq<RouteConfig>, upper: string -> string, path: string, verb: string, k: nat, k': nat)
    requires IsBest(configs, upper, path, verb, k) && IsBest(configs, upper, path, verb, k')
    ensures k == k'
  {
    hide Matches;
  }

  /** With strip_prefix the rewritten path is empty or absolute, and the prefix followed by it is
      the path again, up to one inserted slash, whenever the path starts with the prefix; any
      other matching path is rewritten to nothing. */
  lemma StrippedPath(route: Route, path: string, verb: string)
    requires route.stripPrefix && Matches(route, path, verb)
    ensures
      var rewritten := UpstreamPath(route, path);
      && (rewritten == "" || rewritten[0] == '/')
      && (route.pathPrefix <= path ==>
            || route.pathPrefix + rewritten == path
            || (rewritten != "" && route.pathPrefix + rewritten[1..] == path && path[|route.pathPrefix|] != '/'))
      && (!(route.pathPrefix <= path) ==> rewritten == "" && path == TrimSlashes(route.pathPrefix))
  {
    if route.pathPrefix <= path {
      assert route.pathPrefix + path[|route.pathPrefix|..] == path;
    }
  }

  /** Without strip_prefix the path is passed on as it is. */
  lemma UnstrippedPath(route: Route, path: string)
    requires !route.stripPrefix
    ensures UpstreamPath(route, path) == path
  {}

  // ----- Round robin -----

  const COUNTER_RANGE: nat := 0x1_0000_0000_0000_0000

  /** A 64-bit counter. */
  type Counter = c: nat | c < COUNTER_RANGE

  /** The position picked among n upstreams. */
  function Pick(counter: nat, n: nat): (i: nat)
    requires n > 0
    ensures i < n
  {
    counter % n
  }

  /** A single upstream is not counted. */
  function NextCounter(counter: Counter, n: nat): Counter {
    if n == 1 then counter else (counter + 1) % COUNTER_RANGE
  }

  class LoadBalancer {
    var counter: Counter

    constructor ()
      ensures counter == 0
    {
      counter := 0;
    }

    method NextUpstream(upstreams: seq<string>) returns (upstream: string)
      requires upstreams != []
      modifies this`counter
      ensures upstream == upstreams[Pick(old(counter), |upstreams|)]
      ensures counter == NextCounter(old(counter), |upstreams|)
      ensures |upstreams| == 1 ==> upstream == upstreams[0] && counter == old(counter)
    {
      if |upstreams| <= 1 {
        return upstreams[0];
      }
      var idx := counter % |upstreams|;
      counter := (counter + 1) % COUNTER_RANGE;
      upstream := upstreams[idx];
    }
  }

  /** The positions that so many calls on n upstreams pick, one after the other. */
  function Picks(counter: Counter, n: nat, calls: nat): (picks: seq<nat>)
    requires n > 0
    ensures |picks| == calls
    decreases calls
  {
    if calls == 0 then [] else [Pick(counter, n)] + Picks(NextCounter(counter, n), n, calls - 1)
  }

  /** Position i occurs once in the picks. */
  predicate OneTurn(picks: seq<nat>, i: nat) {
    exists k :: 0 <= k < |picks| && picks[k] == i && forall j :: 0 <= j < |picks| && picks[j] == i ==> j == k
  }

  function Wrapped(value: nat): Counter {
    value % COUNTER_RANGE
  }

  lemma {:induction false} PickAt(counter: Counter, n: nat, calls: nat, k: nat)
    requires n > 1 && k < calls
    ensures Picks(counter, n, calls)[k] == Pick(Wrapped(counter + k), n)
    decreases k
  {
    hide Pick, Wrapped;
    NextWrapped(counter, n, k);
    if k == 0 {
    } else {
      PickAt(NextCounter(counter, n), n, calls - 1, k - 1);
    }
  }

  lemma NextWrapped(counter: Counter, n: nat, k: nat)
    requires n > 1
    ensures Wrapped(counter) == counter
    ensures k > 0 ==> Wrapped(NextCounter(counter, n) + (k - 1)) == Wrapped(counter + k)
  {}

  /** The k-th of n calls before the counter wraps, and after. */
  lemma PickPhases(counter: Counter, n: nat, k: nat)
    requires n > 1 && k < n <= COUNTER_RANGE
    ensures Picks(counter, n, n)[k]
      == Pick(if counter + k < COUNTER_RANGE then counter + k else counter + k - COUNTER_RANGE, n)
  {
    hide Pick, Picks;
    PickAt(counter, n, n, k);
  }

  lemma Remainder(q: nat, r: nat, n: nat)
    requires r < n
    ensures Pick(n * q + r, n) == r
  {
    var x := n * q + r;
    if x / n < q {
      assert n * (x / n + 1) <= n * q;
    } else if x / n > q {
      assert n * (q + 1) <= n * (x / n);
    }
  }

  lemma Quotient(x: nat, n: nat)
    requires n > 0
    ensures x == n * (x / n) + Pick(x, n)
  {}

  lemma SameRemainder(a: nat, q: nat, n: nat)
    requires n > 0
    ensures Pick(n * q + a, n) == Pick(a, n)
  {
    Quotient(a, n);
    Remainder(q + a / n, Pick(a, n), n);
    assert n * (q + a / n) == n * q + n * (a / n);
    hide Pick;
  }

  /** Of n consecutive values, exactly one has a given remainder. */
  function TurnOf(start: nat, n: nat, i: nat): (k: nat)
    requires i < n
    ensures k < n
  {
    if i >= Pick(start, n) then i - Pick(start, n) else i + n - Pick(start, n)
  }

  lemma TurnIff(start: nat, n: nat, i: nat, k: nat)
    requires i < n && k < n
    ensures Pick(start + k, n) == i <==> k == TurnOf(start, n, i)
  {
    hide Pick;
    var r := Pick(start, n);
    Quotient(start, n);
    SameRemainder(r + k, start / n, n);
    if r + k >= n {
      Remainder(1, r + k - n, n);
    } else {
      Remainder(0, r + k, n);
    }
  }

  /** All n upstreams have one turn each in n calls if the counter does not wrap, or wraps at a
      multiple of n. */
  lemma OneTurnEach(counter: Counter, n: nat, i: nat)
    requires i < n <= COUNTER_RANGE && (counter + n <= COUNTER_RANGE || Pick(COUNTER_RANGE, n) == 0)
    ensures OneTurn(Picks(counter, n, n), i)
  {
    hide Pick, TurnOf;
    var picks := Picks(counter, n, n);
    if n == 1 {
      assert picks[0] == i;
    } else {
      hide Picks;
      forall k | 0 <= k < n
        ensures picks[k] == i <==> k == TurnOf(counter, n, i)
      {
        PickPhases(counter, n, k);
        TurnIff(counter, n, i, k);
        if counter + k >= COUNTER_RANGE {
          Quotient(COUNTER_RANGE, n);
          SameRemainder(counter + k - COUNTER_RANGE, COUNTER_RANGE / n, n);
        }
      }
      assert picks[TurnOf(counter, n, i)] == i;
    }
  }

  /** Otherwise some upstream has two turns, one before the counter wraps and one after. */
  lemma SomeTwoTurns(counter: Counter, n: nat) returns (i: nat)
    requires 1 < n <= COUNTER_RANGE && counter + n > COUNTER_RANGE && Pick(COUNTER_RANGE, n) != 0
    ensures i < n && !OneTurn(Picks(counter, n, n), i)
  {
    hide Pick, Picks;
    var wrap, r, q := COUNTER_RANGE - counter, Pick(COUNTER_RANGE, n), COUNTER_RANGE / n;
    Quotient(COUNTER_RANGE, n);
    var before, after: nat;
    if r <= n - wrap {
      before, after, i := wrap - 1, wrap + r - 1, r - 1;
    } else {
      before, after, i := n - r - 1, n - 1, n - wrap - 1;
    }
    assert counter + before == n * q + i;
    Remainder(q, i, n);
    Remainder(0, i, n);
    PickPhases(counter, n, before);
    PickPhases(counter, n, after);
  }

  /** n calls in a row give each of n upstreams exactly one turn if and only if the counter does
      not wrap within them, or wraps at a multiple of n. */
  lemma FairRoundIff(counter: Counter, n: nat)
    requires 0 < n <= COUNTER_RANGE
    ensures (forall i :: 0 <= i < n ==> OneTurn(Picks(counter, n, n), i))
      <==> counter + n <= COUNTER_RANGE || COUNTER_RANGE % n == 0
  {
    hide OneTurn, Picks;
    if counter + n <= COUNTER_RANGE || COUNTER_RANGE % n == 0 {
      forall i | 0 <= i < n
        ensures OneTurn(Picks(counter, n, n), i)
      {
        OneTurnEach(counter, n, i);
      }
    } else {
      var i := SomeTwoTurns(counter, n);
    }
  }
}
