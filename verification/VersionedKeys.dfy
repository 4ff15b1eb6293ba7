/**
 Signing keys with rotation and a retention window, crates/pqc-tls/src/versioned_keys.rs.
 `ManagerState` is the abstract value of the manager object and `Rotated` what one rotation
 makes of it; the runs below are about these.
 */
module VersionedKeys {
  import opened Wrappers
  import opened Gf256
  import opened Polynomials
  import opened Threshold
  import opened RecoveryCodes
  import opened Crypto
  import opened Sorting

  datatype KeyVersion = KeyVersion(
    kid: string, version: nat, seed: Bytes, publicKey: Bytes, createdAt: nat, active: bool, fingerprint: string)

  datatype ManagerState = ManagerState(
    keys: map<string, KeyVersion>,
    currentKid: string,
    nextVersion: nat,
    maxRetained: nat,
    thresholdConfig: Option<SharingConfig>,
    currentShares: Option<seq<Share>>,
    recoveryCodes: Option<seq<string>>)

  /** What a rotation takes from the key generator, the clock and the random generator. */
  datatype Rotation = Rotation(seed: Bytes, now: nat, randoms: seq<seq<byte>>) {
    ghost predicate Fits(thresholdConfig: Option<SharingConfig>) {
      |seed| == SEED_LENGTH && (thresholdConfig.Some? ==> Coefficients(randoms, SEED_LENGTH, thresholdConfig.value))
    }
  }

  // ----- Key ids -----

  function Decimal(n: nat): (s: string)
    ensures s != ""
  {
    var last := ['0' + (n % 10) as char];
    if n < 10 then last else Decimal(n / 10) + last
  }

  function DecimalValue(s: string): int {
    if s == "" then 0 else 10 * DecimalValue(s[..|s| - 1]) + (s[|s| - 1] as int - '0' as int)
  }

  function Kid(version: nat, fingerprint: string): string
    requires |fingerprint| >= 8
  {
    "mldsa-v" + Decimal(version) + "-" + fingerprint[..8]
  }

  lemma {:induction false} DecimalRoundTrip(n: nat)
    ensures DecimalValue(Decimal(n)) == n
  {
    var s := Decimal(n);
    if n < 10 {
      assert s[..|s| - 1] == "";
    } else {
      DecimalRoundTrip(n / 10);
      assert s[..|s| - 1] == Decimal(n / 10);
    }
  }

  predicate IsDecimalDigit(c: char) {
    '0' <= c <= '9'
  }

  /** Versions are written in decimal digits, the first of which is not a zero unless it is alone. */
  lemma {:induction false} DecimalForm(n: nat)
    ensures
      var s := Decimal(n);
      && (forall i :: 0 <= i < |s| ==> IsDecimalDigit(s[i])) && DecimalValue(s) == n
      && (s[0] == '0' ==> |s| == 1)
  {
    DecimalRoundTrip(n);
    if n < 10 {
    } else {
      DecimalForm(n / 10);
      hide DecimalValue;
      DecimalStart(n / 10);
    }
  }

  lemma {:induction false} DecimalStart(n: nat)
    requires n > 0
    ensures Decimal(n)[0] != '0'
  {
    if n < 10 {
    } else {
      DecimalStart(n / 10);
    }
  }

  /** A key id is the version in decimal and the first eight digits of the fingerprint, after a fixed
      prefix. */
  lemma KidForm(version: nat, fingerprint: string, kid: string)
    requires |fingerprint| >= 8 && kid == Kid(version, fingerprint)
    ensures
      var n := |kid| - 9;
      && 8 <= n && kid[..7] == "mldsa-v" && kid[n] == '-' && kid[n + 1..] == fingerprint[..8]
      && (forall i :: 7 <= i < n ==> IsDecimalDigit(kid[i])) && DecimalValue(kid[7..n]) == version
      && (kid[7] == '0' ==> n == 8)
  {
    hide Decimal, DecimalValue;
    DecimalForm(version);
    var n := |kid| - 9;
    assert kid[7..n] == Decimal(version);
    assert forall i :: 7 <= i < n ==> kid[i] == kid[7..n][i - 7];
  }

  /** Keys of different versions have different ids, whatever their fingerprints. */
  lemma KidInjective(v1: nat, f1: string, v2: nat, f2: string)
    requires |f1| >= 8 && |f2| >= 8 && Kid(v1, f1) == Kid(v2, f2)
    ensures v1 == v2
  {
    hide Decimal, DecimalValue;
    var k1, k2 := Kid(v1, f1), Kid(v2, f2);
    assert k1[7..|k1| - 9] == Decimal(v1) && k2[7..|k2| - 9] == Decimal(v2);
    DecimalRoundTrip(v1); DecimalRoundTrip(v2);
  }

  // ----- Specification of the state and of a rotation -----

  function NewKey(scheme: Scheme, version: nat, seed: Bytes, now: nat): KeyVersion
    requires scheme.Lawful()
  {
    var publicKey := scheme.publicKey(seed);
    var fingerprint := scheme.Fingerprint(publicKey);
    KeyVersion(Kid(version, fingerprint), version, seed, publicKey, now, true, fingerprint)
  }

  function Deactivated(keys: map<string, KeyVersion>, kid: string): map<string, KeyVersion> {
    if kid in keys then keys[kid := keys[kid].(active := false)] else keys
  }

  /** The keys of version `low` and above. */
  function KeepFrom(keys: map<string, KeyVersion>, low: int): map<string, KeyVersion> {
    map kid | kid in keys && low <= keys[kid].version :: keys[kid]
  }

  function SharesOf(config: Option<SharingConfig>, seed: Bytes, randoms: seq<seq<byte>>): Option<seq<Share>>
    requires config.Some? ==> config.value.Valid() && Coefficients(randoms, |seed|, config.value)
  {
    match config
    case None => None
    case Some(c) => Some(Split(seed, c, randoms))
  }

  function CodesOf(shares: Option<seq<Share>>): Option<seq<string>> {
    match shares
    case None => None
    case Some(s) => Some(GenerateRecoveryCodes(s))
  }

  function Initial(scheme: Scheme, maxRetained: nat, config: Option<SharingConfig>, first: Rotation): ManagerState
    requires scheme.Lawful() && first.Fits(config) && (config.Some? ==> config.value.Valid())
  {
    var key := NewKey(scheme, 1, first.seed, first.now);
    var shares := SharesOf(config, first.seed, first.randoms);
    ManagerState(map[key.kid := key], key.kid, 2, maxRetained, config, shares, CodesOf(shares))
  }

  /** The keys right after the new one has come in. */
  function Inserted(s: ManagerState, key: KeyVersion): map<string, KeyVersion> {
    Deactivated(s.keys, s.currentKid)[key.kid := key]
  }

  /** The retained keys are those at most maxRetained versions older than the new one. */
  function Rotated(scheme: Scheme, s: ManagerState, r: Rotation): ManagerState
    requires scheme.Lawful() && r.Fits(s.thresholdConfig)
    requires s.thresholdConfig.Some? ==> s.thresholdConfig.value.Valid()
  {
    var key := NewKey(scheme, s.nextVersion, r.seed, r.now);
    var shares := SharesOf(s.thresholdConfig, r.seed, r.randoms);
    s.(keys := KeepFrom(Inserted(s, key), s.nextVersion - s.maxRetained),
       currentKid := key.kid,
       nextVersion := s.nextVersion + 1,
       currentShares := shares,
       recoveryCodes := CodesOf(shares))
  }

  // ----- Invariant -----

  ghost predicate HasVersion(keys: map<string, KeyVersion>, v: int) {
    exists kid :: kid in keys && keys[kid].version == v
  }

  /** The keys held are exactly one for each version from lo up to, but not including, hi. */
  ghost predicate Holds(keys: map<string, KeyVersion>, lo: int, hi: int) {
    && (forall kid :: kid in keys ==> keys[kid].kid == kid && lo <= keys[kid].version < hi)
    && (forall k1, k2 :: k1 in keys && k2 in keys && keys[k1].version == keys[k2].version ==> k1 == k2)
    && (forall v :: lo <= v < hi ==> HasVersion(keys, v))
  }

  ghost predicate WellFormed(scheme: Scheme, k: KeyVersion)
    requires scheme.Lawful()
  {
    && |k.seed| == SEED_LENGTH
    && k.publicKey == scheme.publicKey(k.seed)
    && k.fingerprint == scheme.Fingerprint(k.publicKey)
    && k.kid == Kid(k.version, k.fingerprint)
  }

  function Oldest(nextVersion: int, maxRetained: nat): int {
    if nextVersion - 1 - maxRetained > 1 then nextVersion - 1 - maxRetained else 1
  }

  ghost predicate SharesOfCurrentKey(s: ManagerState)
    requires s.currentKid in s.keys
  {
    match s.thresholdConfig
    case None => s.currentShares.None? && s.recoveryCodes.None?
    case Some(c) =>
      c.Valid() && exists randoms :: SharesFrom(s, c, randoms)
  }

  ghost predicate SharesFrom(s: ManagerState, c: SharingConfig, randoms: seq<seq<byte>>)
    requires s.currentKid in s.keys && c.Valid()
  {
    var seed := s.keys[s.currentKid].seed;
    && Coefficients(randoms, |seed|, c)
    && s.currentShares == Some(Split(seed, c, randoms))
    && s.recoveryCodes == Some(GenerateRecoveryCodes(Split(seed, c, randoms)))
  }

  ghost predicate AllWellFormed(scheme: Scheme, keys: map<string, KeyVersion>)
    requires scheme.Lawful()
  {
    forall kid :: kid in keys ==> WellFormed(scheme, keys[kid])
  }

  ghost predicate OnlyActive(keys: map<string, KeyVersion>, current: string) {
    forall kid :: kid in keys ==> (keys[kid].active <==> kid == current)
  }

  ghost predicate Invariant(scheme: Scheme, s: ManagerState) {
    && scheme.Lawful()
    && s.nextVersion >= 2
    && Holds(s.keys, Oldest(s.nextVersion, s.maxRetained), s.nextVersion)
    && AllWellFormed(scheme, s.keys)
    && s.currentKid in s.keys && s.keys[s.currentKid].version == s.nextVersion - 1
    && OnlyActive(s.keys, s.currentKid)
    && SharesOfCurrentKey(s)
  }

  // ----- The manager -----

  class VersionedKeyManager {
    const scheme: Scheme
    var keys: map<string, KeyVersion>
    var currentKid: string
    var nextVersion: nat
    var maxRetained: nat
    var thresholdConfig: Option<SharingConfig>
    var currentShares: Option<seq<Share>>
    var recoveryCodes: Option<seq<string>>

    ghost function State(): ManagerState
      reads this
    {
      ManagerState(keys, currentKid, nextVersion, maxRetained, thresholdConfig, currentShares, recoveryCodes)
    }

    constructor (scheme: Scheme, maxRetained: nat, seed: Bytes, now: nat)
      requires scheme.Lawful() && |seed| == SEED_LENGTH
      ensures this.scheme == scheme
      ensures State() == Initial(scheme, maxRetained, None, Rotation(seed, now, []))
      ensures Invariant(scheme, State())
    {
      hide Kid, Invariant;
      var key := NewKey(scheme, 1, seed, now);
      this.scheme := scheme;
      this.keys := map[key.kid := key];
      this.currentKid := key.kid;
      this.nextVersion := 2;
      this.maxRetained := maxRetained;
      this.thresholdConfig, this.currentShares, this.recoveryCodes := None, None, None;
      InitialInvariant(scheme, maxRetained, None, Rotation(seed, now, []));
    }

    /** A new manager whose first key is shared from the start. */
    static method WithThreshold(scheme: Scheme, maxRetained: nat, config: SharingConfig, seed: Bytes, now: nat,
                                randoms: seq<seq<byte>>)
      returns (manager: VersionedKeyManager)
      requires scheme.Lawful() && |seed| == SEED_LENGTH
      requires config.Valid() && Coefficients(randoms, SEED_LENGTH, config)
      ensures fresh(manager) && manager.scheme == scheme
      ensures manager.State() == Initial(scheme, maxRetained, Some(config), Rotation(seed, now, randoms))
      ensures Invariant(scheme, manager.State())
    {
      hide Kid, Invariant, Split;
      InitialInvariant(scheme, maxRetained, Some(config), Rotation(seed, now, randoms));
      manager := new VersionedKeyManager(scheme, maxRetained, seed, now);
      manager.EnableThreshold(config, randoms);
    }

    /** Turns on threshold management for the current key. */
    method EnableThreshold(config: SharingConfig, randoms: seq<seq<byte>>)
      requires config.Valid() && currentKid in keys && keys[currentKid].seed != []
      requires Coefficients(randoms, |keys[currentKid].seed|, config)
      modifies this`thresholdConfig, this`currentShares, this`recoveryCodes
      ensures thresholdConfig == Some(config)
      ensures currentShares == SharesOf(Some(config), keys[currentKid].seed, randoms)
      ensures recoveryCodes == CodesOf(currentShares)
    {
      thresholdConfig := Some(config);
      Reshare(keys[currentKid].seed, randoms);
    }

    /** Splits the seed if threshold management is on. */
    method Reshare(seed: Bytes, randoms: seq<seq<byte>>)
      requires seed != []
      requires thresholdConfig.Some? ==>
        thresholdConfig.value.Valid() && Coefficients(randoms, |seed|, thresholdConfig.value)
      modifies this`currentShares, this`recoveryCodes
      ensures thresholdConfig.Some? ==> currentShares == SharesOf(thresholdConfig, seed, randoms)
      ensures thresholdConfig.Some? ==> recoveryCodes == CodesOf(currentShares)
      ensures thresholdConfig.None? ==> currentShares == old(currentShares) && recoveryCodes == old(recoveryCodes)
    {
      if thresholdConfig.Some? {
        var shares := SplitSecret(seed, thresholdConfig.value, randoms);
        currentShares := Some(shares);
        recoveryCodes := Some(GenerateRecoveryCodes(shares));
      }
    }

    method Rotate(seed: Bytes, now: nat, randoms: seq<seq<byte>>) returns (kid: string)
      requires Invariant(scheme, State()) && Rotation(seed, now, randoms).Fits(thresholdConfig)
      modifies this
      ensures State() == Rotated(scheme, old(State()), Rotation(seed, now, randoms))
      ensures Invariant(scheme, State()) && kid == currentKid
    {
      hide Invariant, Rotated, NewKey, KeepFrom, Holds, Oldest, Deactivated, SharesOf, CodesOf, Rotation.Fits;
      RotatedParts(scheme, State(), Rotation(seed, now, randoms));
      RotatedInvariant(scheme, State(), Rotation(seed, now, randoms));
      var version := nextVersion;
      nextVersion := nextVersion + 1;
      keys := keys[currentKid := keys[currentKid].(active := false)];
      var newKey := NewKey(scheme, version, seed, now);
      Reshare(seed, randoms);
      keys := keys[newKey.kid := newKey];
      currentKid := newKey.kid;
      Prune(Oldest(version, maxRetained));
      kid := newKey.kid;
    }

    /** Drops the oldest keys, never the current one, until at most maxRetained others are left. */
    method Prune(ghost lo: int)
      requires lo < nextVersion && Holds(keys, lo, nextVersion)
      requires currentKid in keys && keys[currentKid].version == nextVersion - 1
      modifies this`keys
      ensures keys == KeepFrom(old(keys), nextVersion - 1 - maxRetained)
    {
      hide *;
      ghost var low := lo;
      ghost var all := keys;
      HeldCount(keys, lo, nextVersion);
      KeepFromAll(keys, lo, nextVersion, lo);
      KeepFromAll(keys, lo, nextVersion, nextVersion - 1 - maxRetained);
      if |keys| > maxRetained + 1 {
        var versions := OtherVersions();
        SortBySorted(versions, VersionKey);
        versions := SortBy(versions, VersionKey);
        while |keys| > maxRetained + 1 && versions != []
          invariant lo <= low < nextVersion && low <= nextVersion - 1 - maxRetained
          invariant Holds(keys, low, nextVersion) && keys == KeepFrom(all, low)
          invariant |keys| == nextVersion - low
          invariant currentKid in keys && keys[currentKid].version == nextVersion - 1
          invariant multiset(versions) == multiset(Entries(keys, keys.Keys - {currentKid}))
          invariant SortedBy(versions, VersionKey)
          decreases |versions|
        {
          PruneStep(keys, currentKid, versions, low, nextVersion);
          KeepFromTwice(all, low, low + 1);
          var (oldKid, _) := versions[0];
          versions := versions[1..];
          keys := keys - {oldKid};
          low := low + 1;
        }
        if versions == [] {
          NoOthers(keys, currentKid, low, nextVersion);
        }
      }
    }

    /** The ids and versions of all keys but the current one, in no particular order. */
    method OtherVersions() returns (versions: seq<(string, nat)>)
      ensures multiset(versions) == multiset(Entries(keys, keys.Keys - {currentKid}))
    {
      NoEntries(keys);
      hide Entries;
      versions := [];
      var rest := keys.Keys - {currentKid};
      ghost var done: set<string> := {};
      while rest != {}
        invariant done + rest == keys.Keys - {currentKid} && done !! rest
        invariant multiset(versions) == multiset(Entries(keys, done))
        decreases rest
      {
        var kid :| kid in rest;
        EntriesAdd(keys, done, kid);
        MultisetAdd(Entries(keys, done), (kid, keys[kid].version));
        assert multiset(versions + [(kid, keys[kid].version)])
          == multiset(versions) + multiset{(kid, keys[kid].version)};
        versions := versions + [(kid, keys[kid].version)];
        rest := rest - {kid};
        done := done + {kid};
      }
      assert done == keys.Keys - {currentKid};
    }

    /** Signs with the current key. */
    method SignCurrent(data: Bytes) returns (result: Option<(string, Bytes)>)
      ensures result == SignedWithCurrent(scheme, State(), data)
    {
      if currentKid !in keys {
        return None;
      }
      var key := keys[currentKid];
      var signature := scheme.TrySign(key.seed, data);
      result := if signature.None? then None else Some((key.kid, signature.value));
    }

    method VerifyByKid(kid: string, data: Bytes, signature: Bytes) returns (ok: bool)
      ensures ok == VerifiedByKid(scheme, State(), kid, data, signature)
    {
      if kid !in keys {
        return false;
      }
      ok := scheme.verify(keys[kid].publicKey, data, signature);
    }
  }

  function SignedWithCurrent(scheme: Scheme, s: ManagerState, data: Bytes): Option<(string, Bytes)> {
    if s.currentKid !in s.keys then None
    else
      var key := s.keys[s.currentKid];
      match scheme.TrySign(key.seed, data)
      case None => None
      case Some(signature) => Some((key.kid, signature))
  }

  predicate VerifiedByKid(scheme: Scheme, s: ManagerState, kid: string, data: Bytes, signature: Bytes) {
    kid in s.keys && scheme.verify(s.keys[kid].publicKey, data, signature)
  }

  // ----- Pruning -----

  function VersionKey(entry: (string, nat)): int {
    entry.1
  }

  /** The given ids with their versions. */
  function Entries(keys: map<string, KeyVersion>, kids: set<string>): set<(string, nat)>
    requires kids <= keys.Keys
  {
    set kid | kid in kids :: (kid, keys[kid].version)
  }

  lemma EntriesAdd(keys: map<string, KeyVersion>, kids: set<string>, kid: string)
    requires kids + {kid} <= keys.Keys && kid !in kids
    ensures Entries(keys, kids + {kid}) == Entries(keys, kids) + {(kid, keys[kid].version)}
    ensures (kid, keys[kid].version) !in Entries(keys, kids)
  {}

  lemma NoEntries(keys: map<string, KeyVersion>)
    ensures Entries(keys, {}) == {}
  {}

  lemma EntriesRemove(keys: map<string, KeyVersion>, currentKid: string, kid: string)
    requires kid in keys && kid != currentKid
    ensures var keys' := keys - {kid};
      Entries(keys', keys'.Keys - {currentKid}) == Entries(keys, keys.Keys - {currentKid}) - {(kid, keys[kid].version)}
    ensures (kid, keys[kid].version) in Entries(keys, keys.Keys - {currentKid})
  {
    var keys', kids := keys - {kid}, keys.Keys - {currentKid} - {kid};
    assert keys'.Keys - {currentKid} == kids && kids + {kid} == keys.Keys - {currentKid};
    EntriesAdd(keys, kids, kid);
    assert Entries(keys', kids) == Entries(keys, kids);
  }

  lemma {:induction false} HeldCount(keys: map<string, KeyVersion>, lo: int, hi: int)
    requires lo <= hi && Holds(keys, lo, hi)
    ensures |keys| == hi - lo
    decreases hi - lo
  {
    if lo == hi {
      assert keys == map[];
    } else {
      assert HasVersion(keys, lo);
      var kid :| kid in keys && keys[kid].version == lo;
      RemoveOldest(keys, kid, lo, hi);
      HeldCount(keys - {kid}, lo + 1, hi);
      assert keys == (keys - {kid})[kid := keys[kid]];
    }
  }

  lemma RemoveOldest(keys: map<string, KeyVersion>, kid: string, lo: int, hi: int)
    requires Holds(keys, lo, hi) && kid in keys && keys[kid].version == lo
    ensures Holds(keys - {kid}, lo + 1, hi)
    ensures keys - {kid} == KeepFrom(keys, lo + 1)
  {
    forall v | lo + 1 <= v < hi
      ensures HasVersion(keys - {kid}, v)
    {
      assert HasVersion(keys, v);
      var k :| k in keys && keys[k].version == v;
      assert k in keys - {kid};
    }
  }

  lemma FirstIsOldest(keys: map<string, KeyVersion>, currentKid: string, versions: seq<(string, nat)>, lo: int, hi: int)
    requires Holds(keys, lo, hi) && currentKid in keys && keys[currentKid].version == hi - 1 && lo < hi - 1
    requires multiset(versions) == multiset(Entries(keys, keys.Keys - {currentKid})) && SortedBy(versions, VersionKey)
    requires versions != []
    ensures versions[0].0 in keys && versions[0].0 != currentKid && versions[0].1 == keys[versions[0].0].version == lo
  {
    assert versions[0] in multiset(versions);
    assert HasVersion(keys, lo);
    var kid :| kid in keys && keys[kid].version == lo;
    assert (kid, keys[kid].version) in Entries(keys, keys.Keys - {currentKid});
    assert (kid, keys[kid].version) in multiset(versions);
    var i :| 0 <= i < |versions| && versions[i] == (kid, keys[kid].version);
    assert VersionKey(versions[0]) <= VersionKey(versions[i]);
  }

  /** Removing the first entry removes the oldest key and keeps everything else as it is. */
  lemma PruneStep(keys: map<string, KeyVersion>, currentKid: string, versions: seq<(string, nat)>, lo: int, hi: int)
    requires Holds(keys, lo, hi) && currentKid in keys && keys[currentKid].version == hi - 1 && lo < hi - 1
    requires multiset(versions) == multiset(Entries(keys, keys.Keys - {currentKid})) && SortedBy(versions, VersionKey)
    requires versions != []
    ensures
      var kid := versions[0].0;
      var keys' := keys - {kid};
      && Holds(keys', lo + 1, hi) && keys' == KeepFrom(keys, lo + 1) && |keys'| == hi - lo - 1
      && currentKid in keys'
      && multiset(versions[1..]) == multiset(Entries(keys', keys'.Keys - {currentKid}))
      && SortedBy(versions[1..], VersionKey)
  {
    FirstIsOldest(keys, currentKid, versions, lo, hi);
    var kid := versions[0].0;
    RemoveOldest(keys, kid, lo, hi);
    HeldCount(keys - {kid}, lo + 1, hi);
    RestElements(versions);
    EntriesRemove(keys, currentKid, kid);
    SortedRest(versions, VersionKey);
    hide *;
    MultisetRemove(Entries(keys, keys.Keys - {currentKid}), versions[0]);
  }

  lemma MultisetRemove<T>(s: set<T>, x: T)
    requires x in s
    ensures multiset(s - {x}) == multiset(s) - multiset{x}
  {}

  lemma MultisetAdd<T>(s: set<T>, x: T)
    requires x !in s
    ensures multiset(s + {x}) == multiset(s) + multiset{x}
  {}

  lemma KeepFromAll(keys: map<string, KeyVersion>, lo: int, hi: int, low: int)
    requires Holds(keys, lo, hi)
    ensures low <= lo ==> KeepFrom(keys, low) == keys
  {}

  lemma KeepFromTwice(keys: map<string, KeyVersion>, low: int, low': int)
    requires low <= low'
    ensures KeepFrom(KeepFrom(keys, low), low') == KeepFrom(keys, low')
  {}

  lemma NoOthers(keys: map<string, KeyVersion>, currentKid: string, lo: int, hi: int)
    requires Holds(keys, lo, hi) && lo < hi && currentKid in keys && keys[currentKid].version == hi - 1
    requires multiset(Entries(keys, keys.Keys - {currentKid})) == multiset{}
    ensures lo == hi - 1
  {
    assert forall kid :: kid in keys.Keys - {currentKid} ==>
      (kid, keys[kid].version) in multiset(Entries(keys, keys.Keys - {currentKid}));
    assert HasVersion(keys, lo);
  }

  lemma FreshKid(scheme: Scheme, keys: map<string, KeyVersion>, key: KeyVersion, lo: int)
    requires scheme.Lawful() && AllWellFormed(scheme, keys) && WellFormed(scheme, key)
    requires Holds(keys, lo, key.version)
    ensures key.kid !in keys
  {
    hide Kid;
    if key.kid in keys {
      var other := keys[key.kid];
      assert WellFormed(scheme, other);
      KidInjective(key.version, key.fingerprint, other.version, other.fingerprint);
    }
  }

  lemma ExtendHolds(keys: map<string, KeyVersion>, key: KeyVersion, lo: int)
    requires Holds(keys, lo, key.version) && key.kid !in keys && lo <= key.version
    ensures Holds(keys[key.kid := key], lo, key.version + 1)
  {
    var keys' := keys[key.kid := key];
    forall v | lo <= v < key.version + 1
      ensures HasVersion(keys', v)
    {
      if v < key.version {
        assert HasVersion(keys, v);
        var kid :| kid in keys && keys[kid].version == v;
        assert kid in keys';
      } else {
        assert key.kid in keys';
      }
    }
  }

  lemma DeactivatedHolds(keys: map<string, KeyVersion>, current: string, lo: int, hi: int)
    requires Holds(keys, lo, hi)
    ensures Holds(Deactivated(keys, current), lo, hi)
  {
    var keys' := Deactivated(keys, current);
    forall v | lo <= v < hi
      ensures HasVersion(keys', v)
    {
      assert HasVersion(keys, v);
      var kid :| kid in keys && keys[kid].version == v;
      assert kid in keys';
    }
  }

  lemma KeepHolds(keys: map<string, KeyVersion>, lo: int, hi: int, low: int)
    requires Holds(keys, lo, hi)
    ensures Holds(KeepFrom(keys, low), if low > lo then low else lo, hi)
  {
    var kept := KeepFrom(keys, low);
    forall v | lo <= v < hi && low <= v
      ensures HasVersion(kept, v)
    {
      assert HasVersion(keys, v);
      var kid :| kid in keys && keys[kid].version == v;
      assert kid in kept;
    }
  }

  // ----- The invariant over runs -----

  lemma InitialInvariant(scheme: Scheme, maxRetained: nat, config: Option<SharingConfig>, first: Rotation)
    requires scheme.Lawful() && first.Fits(config) && (config.Some? ==> config.value.Valid())
    ensures Invariant(scheme, Initial(scheme, maxRetained, config, first))
  {
    hide Split, Kid;
    var s := Initial(scheme, maxRetained, config, first);
    assert HasVersion(s.keys, 1) by {
      assert s.currentKid in s.keys;
    }
    if config.Some? {
      assert SharesFrom(s, config.value, first.randoms);
    }
  }

  lemma RotatedKeys(scheme: Scheme, s: ManagerState, key: KeyVersion)
    requires Invariant(scheme, s) && WellFormed(scheme, key) && key.version == s.nextVersion && key.active
    ensures
      var inserted := Inserted(s, key);
      && Holds(inserted, Oldest(s.nextVersion, s.maxRetained), s.nextVersion + 1)
      && AllWellFormed(scheme, inserted) && OnlyActive(inserted, key.kid)
  {
    hide HasVersion, Kid, SharesOfCurrentKey;
    DeactivatedHolds(s.keys, s.currentKid, Oldest(s.nextVersion, s.maxRetained), s.nextVersion);
    var keys := Deactivated(s.keys, s.currentKid);
    hide Holds;
    assert AllWellFormed(scheme, keys);
    FreshKid(scheme, keys, key, Oldest(s.nextVersion, s.maxRetained));
    ExtendHolds(keys, key, Oldest(s.nextVersion, s.maxRetained));
  }

  /** The parts of a rotation in the order in which they are computed. */
  lemma RotatedParts(scheme: Scheme, s: ManagerState, r: Rotation)
    requires Invariant(scheme, s) && r.Fits(s.thresholdConfig)
    ensures scheme.Lawful() && s.currentKid in s.keys && r.seed != []
    ensures s.thresholdConfig.Some? ==>
      s.thresholdConfig.value.Valid() && Coefficients(r.randoms, |r.seed|, s.thresholdConfig.value)
    ensures
      var key, s' := NewKey(scheme, s.nextVersion, r.seed, r.now), Rotated(scheme, s, r);
      var inserted := s.keys[s.currentKid := s.keys[s.currentKid].(active := false)][key.kid := key];
      && key.version == s.nextVersion
      && Oldest(s.nextVersion, s.maxRetained) <= s.nextVersion
      && Holds(inserted, Oldest(s.nextVersion, s.maxRetained), s.nextVersion + 1)
      && s' == s.(keys := KeepFrom(inserted, s.nextVersion - s.maxRetained), currentKid := key.kid,
                  nextVersion := s.nextVersion + 1,
                  currentShares := s'.currentShares, recoveryCodes := s'.recoveryCodes)
    ensures
      var s' := Rotated(scheme, s, r);
      if s.thresholdConfig.None? then s'.currentShares == s.currentShares && s'.recoveryCodes == s.recoveryCodes
      else
        && s'.currentShares == SharesOf(s.thresholdConfig, r.seed, r.randoms)
        && s'.recoveryCodes == CodesOf(s'.currentShares)
  {
    hide Kid, Split, KeepFrom, Holds;
    RotatedKeys(scheme, s, NewKey(scheme, s.nextVersion, r.seed, r.now));
  }

  lemma RotatedInvariant(scheme: Scheme, s: ManagerState, r: Rotation)
    requires Invariant(scheme, s) && r.Fits(s.thresholdConfig)
    ensures Invariant(scheme, Rotated(scheme, s, r))
  {
    var key := NewKey(scheme, s.nextVersion, r.seed, r.now);
    var low := s.nextVersion - s.maxRetained;
    RotatedFields(scheme, s, r);
    RotatedKeys(scheme, s, key);
    RotatedShares(scheme, s, r);
    hide Holds, SharesOfCurrentKey, AllWellFormed, OnlyActive, Inserted, KeepFrom, Rotated, NewKey;
    KeepHolds(Inserted(s, key), Oldest(s.nextVersion, s.maxRetained), s.nextVersion + 1, low);
    KeepOthers(scheme, Inserted(s, key), key.kid, low);
    KeepCurrent(s, key, low);
  }

  lemma RotatedFields(scheme: Scheme, s: ManagerState, r: Rotation)
    requires Invariant(scheme, s) && r.Fits(s.thresholdConfig)
    ensures
      var key, s' := NewKey(scheme, s.nextVersion, r.seed, r.now), Rotated(scheme, s, r);
      && s'.keys == KeepFrom(Inserted(s, key), s.nextVersion - s.maxRetained) && s'.currentKid == key.kid
      && s'.nextVersion == s.nextVersion + 1 && s'.maxRetained == s.maxRetained
      && WellFormed(scheme, key) && key.version == s.nextVersion && key.active
  {
    hide Kid, Split, KeepFrom, Holds;
  }

  lemma KeepOthers(scheme: Scheme, keys: map<string, KeyVersion>, current: string, low: int)
    requires scheme.Lawful() && AllWellFormed(scheme, keys) && OnlyActive(keys, current)
    ensures AllWellFormed(scheme, KeepFrom(keys, low)) && OnlyActive(KeepFrom(keys, low), current)
  {}

  lemma KeepCurrent(s: ManagerState, key: KeyVersion, low: int)
    requires low <= key.version
    ensures key.kid in KeepFrom(Inserted(s, key), low) && KeepFrom(Inserted(s, key), low)[key.kid] == key
  {}

  lemma RotatedShares(scheme: Scheme, s: ManagerState, r: Rotation)
    requires Invariant(scheme, s) && r.Fits(s.thresholdConfig)
    ensures Rotated(scheme, s, r).currentKid in Rotated(scheme, s, r).keys
    ensures SharesOfCurrentKey(Rotated(scheme, s, r))
  {
    hide Split, Kid, Holds, AllWellFormed, OnlyActive;
    var s' := Rotated(scheme, s, r);
    if s.thresholdConfig.Some? {
      assert SharesFrom(s', s.thresholdConfig.value, r.randoms);
    }
  }

  /** What a rotation leaves: the new key, made of the generated seed, and of the keys before those at
      most maxRetained versions older than it, all of them inactive and otherwise as they were. */
  lemma RotationContents(scheme: Scheme, s: ManagerState, r: Rotation)
    requires Invariant(scheme, s) && r.Fits(s.thresholdConfig)
    ensures
      var s' := Rotated(scheme, s, r);
      && s'.nextVersion == s.nextVersion + 1 && s'.maxRetained == s.maxRetained
      && s'.thresholdConfig == s.thresholdConfig
      && s'.currentKid !in s.keys && s'.currentKid in s'.keys
      && s'.keys[s'.currentKid].version == s.nextVersion && s'.keys[s'.currentKid].seed == r.seed
      && s'.keys[s'.currentKid].publicKey == scheme.publicKey(r.seed)
      && s'.keys[s'.currentKid].createdAt == r.now && s'.keys[s'.currentKid].active
      && s'.keys[s'.currentKid].fingerprint == scheme.Fingerprint(scheme.publicKey(r.seed))
      && s'.currentKid == Kid(s.nextVersion, scheme.Fingerprint(scheme.publicKey(r.seed)))
      && (forall kid :: kid in s'.keys && kid != s'.currentKid <==>
            kid in s.keys && s.keys[kid].version + s.maxRetained >= s.nextVersion)
      && (forall kid :: kid in s'.keys && kid != s'.currentKid ==> s'.keys[kid] == s.keys[kid].(active := false))
    ensures s.thresholdConfig.Some? ==>
      && s.thresholdConfig.value.Valid() && |r.randoms| == |r.seed|
      && Rotated(scheme, s, r).currentShares == Some(Split(r.seed, s.thresholdConfig.value, r.randoms))
      && Rotated(scheme, s, r).recoveryCodes
           == Some(GenerateRecoveryCodes(Split(r.seed, s.thresholdConfig.value, r.randoms)))
    ensures s.thresholdConfig.None? ==>
      Rotated(scheme, s, r).currentShares == None && Rotated(scheme, s, r).recoveryCodes == None
  {
    hide Kid, Split, HasVersion, EncodeShare;
    var key := NewKey(scheme, s.nextVersion, r.seed, r.now);
    FreshKid(scheme, s.keys, key, Oldest(s.nextVersion, s.maxRetained));
    RotatedFields(scheme, s, r);
    hide AllWellFormed, NewKey;
  }

  /** What a new manager holds. */
  lemma InitialContents(scheme: Scheme, maxRetained: nat, config: Option<SharingConfig>, first: Rotation)
    requires scheme.Lawful() && first.Fits(config) && (config.Some? ==> config.value.Valid())
    ensures
      var s := Initial(scheme, maxRetained, config, first);
      && s.nextVersion == 2 && s.maxRetained == maxRetained && s.thresholdConfig == config
      && s.keys.Keys == {s.currentKid}
      && s.keys[s.currentKid].version == 1 && s.keys[s.currentKid].seed == first.seed
      && s.keys[s.currentKid].publicKey == scheme.publicKey(first.seed)
      && s.keys[s.currentKid].createdAt == first.now && s.keys[s.currentKid].active
      && s.currentKid == Kid(1, scheme.Fingerprint(scheme.publicKey(first.seed)))
  {
    hide Kid, Split;
  }

  /** The current key signs, and its id is named with the signature. */
  lemma SignsWithCurrent(scheme: Scheme, s: ManagerState, data: Bytes)
    requires Invariant(scheme, s)
    ensures SignedWithCurrent(scheme, s, data)
         == Some((s.currentKid, scheme.sign(s.keys[s.currentKid].seed, data)))
    ensures scheme.verify(s.keys[s.currentKid].publicKey, data, SignedWithCurrent(scheme, s, data).value.1)
  {
    hide OnlyActive, SharesOfCurrentKey, Kid;
    assert WellFormed(scheme, s.keys[s.currentKid]);
  }

  // ----- Runs -----

  /** The state after a sequence of rotations. */
  ghost function Run(scheme: Scheme, s: ManagerState, rotations: seq<Rotation>): (s': ManagerState)
    requires Invariant(scheme, s) && forall r :: r in rotations ==> r.Fits(s.thresholdConfig)
    ensures Invariant(scheme, s')
    ensures s'.maxRetained == s.maxRetained && s'.thresholdConfig == s.thresholdConfig
    ensures s'.nextVersion == s.nextVersion + |rotations|
  {
    if rotations == [] then s
    else
      var last := rotations[|rotations| - 1];
      var before := Run(scheme, s, rotations[..|rotations| - 1]);
      RotatedInvariant(scheme, before, last);
      Rotated(scheme, before, last)
  }

  /** After any number of rotations of a new manager: the versions held are the last
      min(rotations, maxRetained) + 1, each once and under its own id, and the current key is
      the newest and the only active one. */
  lemma AfterRotations(scheme: Scheme, maxRetained: nat, config: Option<SharingConfig>, first: Rotation,
                       rotations: seq<Rotation>)
    requires scheme.Lawful() && first.Fits(config) && (config.Some? ==> config.value.Valid())
    requires forall r :: r in rotations ==> r.Fits(config)
    ensures Invariant(scheme, Initial(scheme, maxRetained, config, first))
    ensures
      var s := Run(scheme, Initial(scheme, maxRetained, config, first), rotations);
      var count := 1 + if |rotations| < maxRetained then |rotations| else maxRetained;
      && |s.keys| == count
      && Holds(s.keys, s.nextVersion - count, s.nextVersion) && s.nextVersion == |rotations| + 2
      && s.currentKid in s.keys && s.keys[s.currentKid].version == s.nextVersion - 1
      && OnlyActive(s.keys, s.currentKid)
  {
    hide *;
    InitialInvariant(scheme, maxRetained, config, first);
    InitialFields(scheme, maxRetained, config, first);
    var s := Run(scheme, Initial(scheme, maxRetained, config, first), rotations);
    HeldFacts(scheme, s);
    OldestOf(|rotations|, maxRetained);
  }

  lemma HeldFacts(scheme: Scheme, s: ManagerState)
    requires Invariant(scheme, s)
    ensures |s.keys| == s.nextVersion - Oldest(s.nextVersion, s.maxRetained)
    ensures Holds(s.keys, Oldest(s.nextVersion, s.maxRetained), s.nextVersion)
    ensures s.currentKid in s.keys && s.keys[s.currentKid].version == s.nextVersion - 1
      && OnlyActive(s.keys, s.currentKid)
  {
    hide Holds, AllWellFormed, OnlyActive, SharesOfCurrentKey;
    HeldCount(s.keys, Oldest(s.nextVersion, s.maxRetained), s.nextVersion);
  }

  lemma OldestOf(rotations: nat, maxRetained: nat)
    ensures Oldest(rotations + 2, maxRetained)
      == rotations + 1 - if rotations < maxRetained then rotations else maxRetained
  {}

  lemma InitialFields(scheme: Scheme, maxRetained: nat, config: Option<SharingConfig>, first: Rotation)
    requires scheme.Lawful() && first.Fits(config) && (config.Some? ==> config.value.Valid())
    ensures
      var s := Initial(scheme, maxRetained, config, first);
      s.nextVersion == 2 && s.maxRetained == maxRetained && s.thresholdConfig == config
  {
    hide Split;
  }

  /** A key stays until maxRetained versions newer than it have come, and its key pair never
      changes; in particular the current key survives exactly maxRetained further rotations. */
  lemma {:induction false} Retention(scheme: Scheme, s: ManagerState, rotations: seq<Rotation>, kid: string)
    requires Invariant(scheme, s) && forall r :: r in rotations ==> r.Fits(s.thresholdConfig)
    requires kid in s.keys
    ensures
      var s' := Run(scheme, s, rotations);
      && (kid in s'.keys <==> s.nextVersion + |rotations| - 1 <= s.keys[kid].version + s.maxRetained)
      && (kid in s'.keys ==> SameKeyPair(s'.keys[kid], s.keys[kid]))
    ensures kid == s.currentKid ==> (kid in Run(scheme, s, rotations).keys <==> |rotations| <= s.maxRetained)
  {
    hide WellFormed, SharesOfCurrentKey, Split, HasVersion;
    if rotations == [] {
    } else {
      var n := |rotations| - 1;
      var before := Run(scheme, s, rotations[..n]);
      Retention(scheme, s, rotations[..n], kid);
      RetentionStep(scheme, before, rotations[n], kid, s.keys[kid]);
    }
  }

  predicate SameKeyPair(a: KeyVersion, b: KeyVersion) {
    a == b.(active := a.active)
  }

  lemma RetentionStep(scheme: Scheme, s: ManagerState, r: Rotation, kid: string, key: KeyVersion)
    requires Invariant(scheme, s) && r.Fits(s.thresholdConfig)
    requires WellFormed(scheme, key) && key.kid == kid && key.version < s.nextVersion
    requires kid in s.keys ==> SameKeyPair(s.keys[kid], key)
    ensures
      var s' := Rotated(scheme, s, r);
      && (kid in s'.keys <==> kid in s.keys && s.nextVersion <= key.version + s.maxRetained)
      && (kid in s'.keys ==> SameKeyPair(s'.keys[kid], key))
  {
    hide Kid, Split, Holds, AllWellFormed, OnlyActive, SharesOfCurrentKey;
    var fresh' := NewKey(scheme, s.nextVersion, r.seed, r.now);
    if fresh'.kid == kid {
      KidInjective(fresh'.version, fresh'.fingerprint, key.version, key.fingerprint);
    }
  }

  /** At every point of a threshold-enabled run, any t distinct current shares rebuild the seed
      of the current key, and the recovery codes parse back to exactly those shares. */
  lemma CurrentSharesReconstruct(scheme: Scheme, start: ManagerState, rotations: seq<Rotation>, quorum: seq<Share>)
    requires Invariant(scheme, start) && start.thresholdConfig.Some?
    requires forall r :: r in rotations ==> r.Fits(start.thresholdConfig)
    requires
      var s := Run(scheme, start, rotations);
      && s.currentShares.Some? && (forall share :: share in quorum ==> share in s.currentShares.value)
      && Distinct(quorum) && |quorum| >= start.thresholdConfig.value.threshold
    ensures
      var s := Run(scheme, start, rotations);
      && Reconstructible(quorum) && Reconstruct(quorum) == s.keys[s.currentKid].seed
      && s.recoveryCodes.Some? && ParseAll(s.recoveryCodes.value) == Done(s.currentShares.value)
  {
    hide Split, Reconstruct, Reconstructible, ParseAll, GenerateRecoveryCodes, Holds, OnlyActive, Run;
    var s := Run(scheme, start, rotations);
    var config := start.thresholdConfig.value;
    var randoms :| SharesFrom(s, config, randoms);
    CodesRecoverSecret(s.keys[s.currentKid].seed, config, randoms, quorum);
    CodesRoundTrip(s.currentShares.value);
  }
}
