/**
 Publication of a new configuration, crates/pqc-proxy/src/proxy.rs: `new`, `reload_config` and the
 two snapshot loads of a request. The object records the order of its writes; the lemmas are
 about every interleaving of these writes with the loads of any number of requests.
 */
module ProxyReload {
  import opened Wrappers
  import opened Router
  import opened CircuitBreaker

  datatype GatewayConfig = GatewayConfig(routes: seq<RouteConfig>, breaker: CircuitBreaker.Config)

  /** Writes of the one who reloads, loads of a request, and requests that register an upstream. */
  datatype Action =
    | RegisterUpstream(upstream: string)
    | StoreMatcher(version: nat)
    | StoreConfig(version: nat)
    | LoadConfig(request: nat)
    | LoadMatcher(request: nat)
    | AutoRegister(upstream: string)

  // ----- The writes of a reload -----

  /** All upstreams of the routes, route by route. */
  function Upstreams(routes: seq<Route>): seq<string> {
    if routes == [] then [] else Upstreams(routes[..|routes| - 1]) + routes[|routes| - 1].upstreams
  }

  function Registrations(upstreams: seq<string>): (actions: seq<Action>)
    ensures |actions| == |upstreams|
    ensures forall i :: 0 <= i < |upstreams| ==> actions[i] == RegisterUpstream(upstreams[i])
  {
    seq(|upstreams|, i requires 0 <= i < |upstreams| => RegisterUpstream(upstreams[i]))
  }

  /** Registrations first, then the matcher, then the configuration. */
  function ReloadActions(upstreams: seq<string>, version: nat): seq<Action> {
    Registrations(upstreams) + [StoreMatcher(version), StoreConfig(version)]
  }

  lemma UpstreamsStep(routes: seq<Route>, i: nat)
    requires i < |routes|
    ensures Upstreams(routes[..i + 1]) == Upstreams(routes[..i]) + routes[i].upstreams
    ensures Registrations(Upstreams(routes[..i + 1]))
      == Registrations(Upstreams(routes[..i])) + Registrations(routes[i].upstreams)
  {
    assert routes[..i + 1][..i] == routes[..i];
  }

  /** The upstreams of the routes are those of each of them. */
  lemma {:induction false} UpstreamsAre(routes: seq<Route>, u: string)
    ensures u in Upstreams(routes) <==> exists route :: route in routes && u in route.upstreams
  {
    if routes == [] {
    } else {
      var before, last := routes[..|routes| - 1], routes[|routes| - 1];
      assert routes == before + [last];
      UpstreamsAre(before, u);
    }
  }

  lemma AllUpstreams(routes: seq<Route>, circuits: Circuits)
    requires forall u :: u in Upstreams(routes) ==> u in circuits
    ensures forall route, u :: route in routes && u in route.upstreams ==> u in circuits
  {
    forall route, u | route in routes && u in route.upstreams
      ensures u in circuits
    {
      UpstreamsAre(routes, u);
    }
  }

  class ProxyState {
    var matcher: RouteMatcher
    var config: GatewayConfig
    const breaker: CircuitBreakerManager
    const upper: string -> string

    ghost var version: nat
    ghost var log: seq<Action>

    /** Both registers hold the current version and its upstreams are registered. */
    ghost predicate Valid()
      reads this, breaker
    {
      && matcher == NewMatcher(config.routes, upper)
      && forall route, u :: route in matcher.routes && u in route.upstreams ==> u in breaker.circuits
    }

    constructor (config: GatewayConfig, upper: string -> string)
      ensures Valid() && fresh(breaker) && this.config == config && this.upper == upper
      ensures version == 0 && log == []
    {
      var manager := new CircuitBreakerManager(config.breaker);
      this.config := config;
      this.upper := upper;
      this.matcher := NewMatcher(config.routes, upper);
      this.breaker := manager;
      this.version, this.log := 0, [];
      new;
      RegisterAll(matcher.routes);
      AllUpstreams(matcher.routes, breaker.circuits);
      log := [];
    }

    method RegisterAll(routes: seq<Route>)
      modifies this`log, breaker
      ensures forall u :: u in Upstreams(routes) ==> u in breaker.circuits
      ensures old(breaker.circuits).Keys <= breaker.circuits.Keys
      ensures log == old(log) + Registrations(Upstreams(routes))
    {
      assert routes[..0] == [];
      for i := 0 to |routes|
        invariant old(breaker.circuits).Keys <= breaker.circuits.Keys
        invariant forall u :: u in Upstreams(routes[..i]) ==> u in breaker.circuits
        invariant log == old(log) + Registrations(Upstreams(routes[..i]))
      {
        UpstreamsStep(routes, i);
        RegisterRoute(routes[i].upstreams);
      }
      assert routes[..|routes|] == routes;
    }

    method RegisterRoute(upstreams: seq<string>)
      modifies this`log, breaker
      ensures forall u :: u in upstreams ==> u in breaker.circuits
      ensures old(breaker.circuits).Keys <= breaker.circuits.Keys
      ensures log == old(log) + Registrations(upstreams)
    {
      for j := 0 to |upstreams|
        invariant old(breaker.circuits).Keys <= breaker.circuits.Keys
        invariant forall k :: 0 <= k < j ==> upstreams[k] in breaker.circuits
        invariant log == old(log) + Registrations(upstreams)[..j]
      {
        breaker.RegisterUpstream(upstreams[j], None);
        log := log + [RegisterUpstream(upstreams[j])];
      }
    }

    method ReloadConfig(newConfig: GatewayConfig)
      modifies this, breaker
      ensures Valid() && config == newConfig && version == old(version) + 1
      ensures log == old(log) + ReloadActions(Upstreams(matcher.routes), version)
    {
      hide NewMatcher, Upstreams, Registrations;
      var newMatcher := NewMatcher(newConfig.routes, upper);
      RegisterAll(newMatcher.routes);
      AllUpstreams(newMatcher.routes, breaker.circuits);
      version := version + 1;
      matcher := newMatcher;
      log := log + [StoreMatcher(version)];
      config := newConfig;
      log := log + [StoreConfig(version)];
      var regs := Registrations(Upstreams(matcher.routes));
      assert log == old(log) + (regs + [StoreMatcher(version), StoreConfig(version)]);
    }
  }

  // ----- Interleavings -----

  /** The writes of reloading versions 1 to n one after the other. */
  function Script(upstreams: nat -> seq<string>, n: nat): seq<Action> {
    if n == 0 then [] else Script(upstreams, n - 1) + ReloadActions(upstreams(n), n)
  }

  predicate IsWrite(a: Action) {
    a.RegisterUpstream? || a.StoreMatcher? || a.StoreConfig?
  }

  /** The writes in a trace. */
  function Writes(trace: seq<Action>): seq<Action> {
    if trace == [] then []
    else
      var last, before := trace[|trace| - 1], Writes(trace[..|trace| - 1]);
      if IsWrite(last) then before + [last] else before
  }

  /** The version in the matcher register after the actions; version 0 is the initial one. */
  function MatcherAfter(actions: seq<Action>): nat {
    if actions == [] then 0
    else if actions[|actions| - 1].StoreMatcher? then actions[|actions| - 1].version
    else MatcherAfter(actions[..|actions| - 1])
  }

  function ConfigAfter(actions: seq<Action>): nat {
    if actions == [] then 0
    else if actions[|actions| - 1].StoreConfig? then actions[|actions| - 1].version
    else ConfigAfter(actions[..|actions| - 1])
  }

  /** The upstream is registered: initially, or by one of the actions. */
  predicate Registered(initial: seq<string>, actions: seq<Action>, upstream: string) {
    upstream in initial || RegisterUpstream(upstream) in actions || AutoRegister(upstream) in actions
  }

  function CountMatcherStores(actions: seq<Action>): nat {
    if actions == [] then 0
    else CountMatcherStores(actions[..|actions| - 1]) + if actions[|actions| - 1].StoreMatcher? then 1 else 0
  }

  /** What the writes so far have made visible: the matcher register holds as many versions as
      have been stored, the configuration is at most one behind, and the visible matcher's
      upstreams are registered. */
  ghost predicate Published(upstreams: nat -> seq<string>, writes: seq<Action>) {
    && MatcherAfter(writes) == CountMatcherStores(writes)
    && ConfigAfter(writes) <= MatcherAfter(writes) <= ConfigAfter(writes) + 1
    && forall u :: u in upstreams(MatcherAfter(writes)) ==> Registered(upstreams(0), writes, u)
  }

  /** The registers after the actions, and the number of matchers stored. */
  ghost predicate At(actions: seq<Action>, matcher: nat, config: nat, stores: nat) {
    MatcherAfter(actions) == matcher && ConfigAfter(actions) == config && CountMatcherStores(actions) == stores
  }

  lemma Snoc(actions: seq<Action>, a: Action)
    ensures At(actions + [a],
               if a.StoreMatcher? then a.version else MatcherAfter(actions),
               if a.StoreConfig? then a.version else ConfigAfter(actions),
               CountMatcherStores(actions) + if a.StoreMatcher? then 1 else 0)
  {
    assert (actions + [a])[..|actions|] == actions;
  }

  lemma {:induction false} SnocRegistrations(actions: seq<Action>, more: seq<Action>)
    requires forall a :: a in more ==> a.RegisterUpstream?
    ensures At(actions + more, MatcherAfter(actions), ConfigAfter(actions), CountMatcherStores(actions))
  {
    hide MatcherAfter, ConfigAfter, CountMatcherStores;
    if more == [] {
      assert actions + more == actions;
    } else {
      var n := |more| - 1;
      assert more[n] in more;
      SnocRegistrations(actions, more[..n]);
      Snoc(actions + more[..n], more[n]);
      assert actions + more == actions + more[..n] + [more[n]];
    }
  }

  lemma PublishedWhen(upstreams: nat -> seq<string>, writes: seq<Action>, matcher: nat, config: nat)
    requires At(writes, matcher, config, matcher) && config <= matcher <= config + 1
    requires forall u :: u in upstreams(matcher) ==> Registered(upstreams(0), writes, u)
    ensures Published(upstreams, writes)
  {
    hide MatcherAfter, ConfigAfter, CountMatcherStores, Registered;
  }

  lemma NothingPublished(upstreams: nat -> seq<string>)
    ensures At([], 0, 0, 0) && Published(upstreams, [])
  {}

  /** Both registers at version n - 1, then the writes of reload n, stored step by step. */
  lemma ReloadStores(before: seq<Action>, us: seq<string>, n: nat)
    requires n > 0 && At(before, n - 1, n - 1, n - 1)
    ensures At(before + Registrations(us), n - 1, n - 1, n - 1)
    ensures At(before + Registrations(us) + [StoreMatcher(n)], n, n - 1, n)
    ensures At(before + Registrations(us) + [StoreMatcher(n)] + [StoreConfig(n)], n, n, n)
    ensures before + ReloadActions(us, n) == before + Registrations(us) + [StoreMatcher(n)] + [StoreConfig(n)]
  {
    hide MatcherAfter, ConfigAfter, CountMatcherStores;
    var regs := Registrations(us);
    SnocRegistrations(before, regs);
    Snoc(before + regs, StoreMatcher(n));
    Snoc(before + regs + [StoreMatcher(n)], StoreConfig(n));
  }

  /** A whole script leaves both registers at its last version. */
  lemma {:induction false} ScriptComplete(upstreams: nat -> seq<string>, n: nat)
    ensures Published(upstreams, Script(upstreams, n)) && At(Script(upstreams, n), n, n, n)
  {
    hide At, Published, ReloadActions, Registrations, Registered;
    if n == 0 {
      NothingPublished(upstreams);
    } else {
      ScriptComplete(upstreams, n - 1);
      var before, us := Script(upstreams, n - 1), upstreams(n);
      ReloadStores(before, us, n);
      VersionRegistered(upstreams, before, n, Script(upstreams, n));
      PublishedWhen(upstreams, Script(upstreams, n), n, n);
    }
  }

  lemma VersionRegistered(upstreams: nat -> seq<string>, before: seq<Action>, n: nat, s: seq<Action>)
    requires before + Registrations(upstreams(n)) <= s
    ensures forall u :: u in upstreams(n) ==> Registered(upstreams(0), s, u)
  {
    var regs := Registrations(upstreams(n));
    forall u | u in upstreams(n)
      ensures RegisterUpstream(u) in s
    {
      var i :| 0 <= i < |upstreams(n)| && upstreams(n)[i] == u;
      assert regs[i] == RegisterUpstream(u);
      assert s[|before| + i] == (before + regs)[|before| + i];
    }
  }

  /** After any beginning of a script, what is visible is properly published. */
  lemma {:induction false} ScriptPrefix(upstreams: nat -> seq<string>, n: nat, prefix: seq<Action>)
    requires prefix <= Script(upstreams, n)
    ensures Published(upstreams, prefix)
  {
    hide At, Published, ReloadActions, Registrations, Registered;
    if n == 0 {
      assert prefix == [];
      NothingPublished(upstreams);
    } else {
      var before := Script(upstreams, n - 1);
      if |prefix| <= |before| {
        assert prefix <= before;
        ScriptPrefix(upstreams, n - 1, prefix);
      } else {
        ScriptComplete(upstreams, n - 1);
        PartialReload(upstreams, before, n, prefix);
      }
    }
  }

  lemma PartialReload(upstreams: nat -> seq<string>, before: seq<Action>, n: nat, prefix: seq<Action>)
    requires n > 0 && Published(upstreams, before) && At(before, n - 1, n - 1, n - 1)
    requires before <= prefix <= before + ReloadActions(upstreams(n), n)
    ensures Published(upstreams, prefix)
  {
    hide MatcherAfter, ConfigAfter, CountMatcherStores, Registered;
    var regs := Registrations(upstreams(n));
    ReloadStores(before, upstreams(n), n);
    if |prefix| <= |before| + |regs| {
      var some := regs[..|prefix| - |before|];
      assert prefix == before + some;
      SnocRegistrations(before, some);
      StaysRegistered(upstreams(0), before, prefix);
    } else {
      VersionRegistered(upstreams, before, n, prefix);
      if |prefix| == |before| + |regs| + 1 {
        assert prefix == before + regs + [StoreMatcher(n)];
        PublishedWhen(upstreams, prefix, n, n - 1);
      } else {
        assert prefix == before + regs + [StoreMatcher(n)] + [StoreConfig(n)];
        PublishedWhen(upstreams, prefix, n, n);
      }
    }
  }

  lemma StaysRegistered(initial: seq<string>, before: seq<Action>, after: seq<Action>)
    requires before <= after
    ensures forall u :: Registered(initial, before, u) ==> Registered(initial, after, u)
  {
    forall a | a in before
      ensures a in after
    {
      var i :| 0 <= i < |before| && before[i] == a;
      assert after[i] == a;
    }
  }

  /** Loads and automatic registrations do not change the registers. */
  lemma {:induction false} WritesDecide(trace: seq<Action>)
    ensures MatcherAfter(trace) == MatcherAfter(Writes(trace)) && ConfigAfter(trace) == ConfigAfter(Writes(trace))
    ensures CountMatcherStores(trace) == CountMatcherStores(Writes(trace))
    ensures forall a :: a in Writes(trace) ==> a in trace
  {
    if trace == [] {
    } else {
      var before, last := trace[..|trace| - 1], trace[|trace| - 1];
      WritesDecide(before);
      assert trace == before + [last];
      if IsWrite(last) {
        Snoc(Writes(before), last);
      }
    }
  }

  lemma {:induction false} WritesPrefix(trace: seq<Action>, i: nat)
    requires i <= |trace|
    ensures Writes(trace[..i]) <= Writes(trace)
    ensures CountMatcherStores(trace[..i]) <= CountMatcherStores(trace)
  {
    if i == |trace| {
      assert trace[..i] == trace;
    } else {
      assert trace[..|trace| - 1][..i] == trace[..i];
      WritesPrefix(trace[..|trace| - 1], i);
    }
  }

  /** In every interleaving of reloads issued one at a time with any loads: a request that loads
      the configuration at i and the matcher at a later j never pairs a newer configuration with
      an older matcher, and every upstream of that matcher is registered by then. */
  lemma SnapshotsOrdered(upstreams: nat -> seq<string>, n: nat, trace: seq<Action>, i: nat, j: nat)
    requires Writes(trace) <= Script(upstreams, n)
    requires i < j < |trace| && trace[i].LoadConfig? && trace[j] == LoadMatcher(trace[i].request)
    ensures ConfigAfter(trace[..i]) <= MatcherAfter(trace[..j])
    ensures forall u :: u in upstreams(MatcherAfter(trace[..j])) ==> Registered(upstreams(0), trace[..j], u)
  {
    PublishedAt(upstreams, n, trace, i);
    PublishedAt(upstreams, n, trace, j);
    assert trace[..j][..i] == trace[..i];
    WritesPrefix(trace[..j], i);
  }

  lemma PublishedAt(upstreams: nat -> seq<string>, n: nat, trace: seq<Action>, i: nat)
    requires Writes(trace) <= Script(upstreams, n) && i <= |trace|
    ensures ConfigAfter(trace[..i]) <= MatcherAfter(trace[..i]) == CountMatcherStores(trace[..i])
    ensures forall u :: u in upstreams(MatcherAfter(trace[..i])) ==> Registered(upstreams(0), trace[..i], u)
  {
    WritesPrefix(trace, i);
    ScriptPrefix(upstreams, n, Writes(trace[..i]));
    WritesDecide(trace[..i]);
  }

  /** Loading in the other order would not do: a reload between the two loads pairs the new
      configuration with the old matcher. */
  lemma OtherOrderFails()
    ensures
      var trace := [LoadMatcher(0)] + ReloadActions([], 1) + [LoadConfig(0)];
      && Writes(trace) == Script(_ => [], 1)
      && ConfigAfter(trace[..|trace| - 1]) > MatcherAfter(trace[..0])
  {
    var trace := [LoadMatcher(0), StoreMatcher(1), StoreConfig(1), LoadConfig(0)];
    assert [LoadMatcher(0)] + ReloadActions([], 1) + [LoadConfig(0)] == trace;
    assert trace[..3][..2] == trace[..2] && trace[..2][..1] == trace[..1] && trace[..1][..0] == [];
    assert Writes(trace[..1]) == [];
    assert Writes(trace[..2]) == [StoreMatcher(1)];
    assert Writes(trace[..3]) == [StoreMatcher(1), StoreConfig(1)];
    assert Script(_ => [], 1) == [StoreMatcher(1), StoreConfig(1)];
  }
}
