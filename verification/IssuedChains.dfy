/**
 Issued certificates, crates/pqc-tls/src/cert_chain.rs:521-592: when their chains are valid, and what a
 fingerprint that a certificate carries is worth. The clock, serials and key pairs are parameters.
 */
module IssuedChains {
  import opened Crypto
  import opened TbsEncoding
  import opened CertChain

  // ----- Issued chains -----

  datatype CertKeyPair = CertKeyPair(cert: Certificate, privateKey: Bytes)

  /** What a certificate is issued for, with what the clock and the generators supply. */
  datatype Issuance = Issuance(
    subject: Bytes, algorithm: Algorithm, validityDays: nat, isCa: bool, now: nat, serial: Bytes, privateKey: Bytes)

  function Signed(signer: Signer, cert: Certificate, algorithm: Algorithm, key: Bytes): Certificate {
    cert.(signature := signer.sign(algorithm, key, TbsBytes(cert)))
  }

  function CreateRootCa(signer: Signer, spec: Issuance): CertKeyPair {
    var publicKey := signer.publicKey(spec.algorithm, spec.privateKey);
    var cert := Certificate(
      spec.subject, spec.subject, spec.algorithm, publicKey, [], spec.algorithm,
      spec.now, spec.now + spec.validityDays * SECONDS_PER_DAY, true, signer.fingerprint(publicKey), spec.serial);
    CertKeyPair(Signed(signer, cert, spec.algorithm, spec.privateKey), spec.privateKey)
  }

  function CreateSignedCert(signer: Signer, spec: Issuance, issuer: CertKeyPair): CertKeyPair {
    var publicKey := signer.publicKey(spec.algorithm, spec.privateKey);
    var cert := Certificate(
      spec.subject, issuer.cert.subject, spec.algorithm, publicKey, [], issuer.cert.algorithm,
      spec.now, spec.now + spec.validityDays * SECONDS_PER_DAY, spec.isCa, signer.fingerprint(publicKey), spec.serial);
    CertKeyPair(Signed(signer, cert, issuer.cert.algorithm, issuer.privateKey), spec.privateKey)
  }

  /** A root and then one certificate after the other, each signed by the one before; leaf first. */
  function Build(signer: Signer, root: Issuance, specs: seq<Issuance>): (pairs: seq<CertKeyPair>)
    ensures |pairs| == |specs| + 1
  {
    if specs == [] then [CreateRootCa(signer, root)]
    else
      var issuers := Build(signer, root, specs[..|specs| - 1]);
      [CreateSignedCert(signer, specs[|specs| - 1], issuers[0])] + issuers
  }

  function Certs(pairs: seq<CertKeyPair>): (chain: seq<Certificate>)
    ensures |chain| == |pairs| && forall i :: 0 <= i < |pairs| ==> chain[i] == pairs[i].cert
  {
    seq(|pairs|, i requires 0 <= i < |pairs| => pairs[i].cert)
  }

  predicate KeyMatches(signer: Signer, pair: CertKeyPair) {
    signer.generated(pair.cert.algorithm, pair.privateKey)
    && pair.cert.publicKey == signer.publicKey(pair.cert.algorithm, pair.privateKey)
  }

  lemma SignedVerifies(signer: Signer, cert: Certificate, algorithm: Algorithm, key: Bytes)
    requires signer.Lawful() && signer.generated(algorithm, key) && cert.issuerAlgorithm == algorithm
    ensures SignedBy(signer, Signed(signer, cert, algorithm, key), signer.publicKey(algorithm, key))
    ensures TbsBytes(Signed(signer, cert, algorithm, key)) == TbsBytes(cert)
  {
    var data := TbsBytes(cert);
    assert signer.verify(algorithm, signer.publicKey(algorithm, key), data, signer.sign(algorithm, key, data));
  }

  lemma IssuedIsLinked(signer: Signer, spec: Issuance, issuer: CertKeyPair)
    requires signer.Lawful() && signer.generated(spec.algorithm, spec.privateKey) && KeyMatches(signer, issuer)
    ensures
      var pair := CreateSignedCert(signer, spec, issuer);
      && KeyMatches(signer, pair) && pair.cert.isCa == spec.isCa
      && (Linked(signer, pair.cert, issuer.cert) <==> issuer.cert.isCa)
  {
    hide TbsBytes, SignedBy;
    var publicKey := signer.publicKey(spec.algorithm, spec.privateKey);
    var cert := Certificate(
      spec.subject, issuer.cert.subject, spec.algorithm, publicKey, [], issuer.cert.algorithm,
      spec.now, spec.now + spec.validityDays * SECONDS_PER_DAY, spec.isCa, signer.fingerprint(publicKey), spec.serial);
    SignedVerifies(signer, cert, issuer.cert.algorithm, issuer.privateKey);
  }

  lemma RootIsSelfSigned(signer: Signer, spec: Issuance)
    requires signer.Lawful() && signer.generated(spec.algorithm, spec.privateKey)
    ensures
      var root := CreateRootCa(signer, spec);
      KeyMatches(signer, root) && root.cert.isCa && root.cert.subject == root.cert.issuer
        && SignedBy(signer, root.cert, root.cert.publicKey)
  {
    hide TbsBytes, SignedBy;
    var publicKey := signer.publicKey(spec.algorithm, spec.privateKey);
    var cert := Certificate(
      spec.subject, spec.subject, spec.algorithm, publicKey, [], spec.algorithm,
      spec.now, spec.now + spec.validityDays * SECONDS_PER_DAY, true, signer.fingerprint(publicKey), spec.serial);
    SignedVerifies(signer, cert, spec.algorithm, spec.privateKey);
  }

  predicate AllLinked(signer: Signer, chain: seq<Certificate>) {
    forall i :: 0 < i < |chain| ==> Linked(signer, chain[i - 1], chain[i])
  }

  /** All certificates but the leaf are CAs. */
  predicate CaIntermediates(specs: seq<Issuance>) {
    forall i :: 0 <= i < |specs| - 1 ==> specs[i].isCa
  }

  lemma {:induction false} BuildLinks(signer: Signer, root: Issuance, specs: seq<Issuance>)
    requires signer.Lawful() && signer.generated(root.algorithm, root.privateKey)
    requires forall s :: s in specs ==> signer.generated(s.algorithm, s.privateKey)
    ensures
      var pairs := Build(signer, root, specs);
      && KeyMatches(signer, pairs[0]) && pairs[|specs|] == CreateRootCa(signer, root)
      && (pairs[0].cert.isCa <==> specs == [] || specs[|specs| - 1].isCa)
      && (AllLinked(signer, Certs(pairs)) <==> CaIntermediates(specs))
  {
    if specs == [] {
      hide KeyMatches, CreateRootCa;
      RootIsSelfSigned(signer, root);
    } else {
      hide *;
      var n := |specs| - 1;
      var before, issuers := specs[..n], Build(signer, root, specs[..n]);
      BuildLinks(signer, root, before);
      IssuedIsLinked(signer, specs[n], issuers[0]);
      BuildStep(signer, root, specs);
      ConsLinked(signer, CreateSignedCert(signer, specs[n], issuers[0]).cert, Certs(issuers));
      CaIntermediatesStep(specs);
    }
  }

  lemma BuildStep(signer: Signer, root: Issuance, specs: seq<Issuance>)
    requires specs != []
    ensures
      var issuers := Build(signer, root, specs[..|specs| - 1]);
      var pair, pairs := CreateSignedCert(signer, specs[|specs| - 1], issuers[0]), Build(signer, root, specs);
      && pairs[0] == pair && pairs[|specs|] == issuers[|specs| - 1] && Certs(pairs) == [pair.cert] + Certs(issuers)
  {
    hide CreateSignedCert, CreateRootCa, Certs;
    var issuers := Build(signer, root, specs[..|specs| - 1]);
    CertsCons(CreateSignedCert(signer, specs[|specs| - 1], issuers[0]), issuers);
  }

  lemma CertsCons(pair: CertKeyPair, pairs: seq<CertKeyPair>)
    ensures Certs([pair] + pairs) == [pair.cert] + Certs(pairs)
  {}

  lemma CaIntermediatesStep(specs: seq<Issuance>)
    requires specs != []
    ensures
      var before := specs[..|specs| - 1];
      CaIntermediates(specs) <==> CaIntermediates(before) && (before == [] || before[|before| - 1].isCa)
  {
    var before := specs[..|specs| - 1];
    assert forall i :: 0 <= i < |before| ==> before[i] == specs[i];
  }

  lemma ConsLinked(signer: Signer, c: Certificate, chain: seq<Certificate>)
    requires chain != []
    ensures AllLinked(signer, [c] + chain) <==> Linked(signer, c, chain[0]) && AllLinked(signer, chain)
  {
    hide Linked;
    var longer := [c] + chain;
    if AllLinked(signer, longer) {
      assert Linked(signer, longer[0], longer[1]);
      forall i | 0 < i < |chain|
        ensures Linked(signer, chain[i - 1], chain[i])
      {
        assert Linked(signer, longer[i + 1 - 1], longer[i + 1]);
      }
    }
  }

  /** An issued chain validates exactly when its root is trusted, every certificate is within its
      window, unrevoked and meets its pins, and all but the leaf were issued as CAs. */
  lemma BuiltChainValidIff(signer: Signer, store: StoreState, root: Issuance, specs: seq<Issuance>, now: nat)
    requires signer.Lawful() && signer.generated(root.algorithm, root.privateKey)
    requires forall s :: s in specs ==> signer.generated(s.algorithm, s.privateKey)
    ensures
      var chain := Certs(Build(signer, root, specs));
      ValidChain(signer, store, chain, now) <==>
        && (forall c :: c in chain ==> Acceptable(store, c, now))
        && CreateRootCa(signer, root).cert.fingerprint in store.trustedRoots
        && CaIntermediates(specs)
  {
    hide Acceptable, Linked, SignedBy, CreateRootCa, Build;
    BuildLinks(signer, root, specs);
    RootIsSelfSigned(signer, root);
    var chain := Certs(Build(signer, root, specs));
    assert chain[|chain| - 1] == CreateRootCa(signer, root).cert;
    assert forall i :: 0 <= i < |chain| ==> chain[i] in chain;
  }

  predicate InWindow(spec: Issuance, now: nat) {
    spec.now <= now <= spec.now + spec.validityDays * SECONDS_PER_DAY
  }

  /** With nothing revoked or pinned and CA intermediates, an issued chain validates in the common
      part of the validity windows. */
  lemma BuiltChainValidates(signer: Signer, store: StoreState, root: Issuance, specs: seq<Issuance>, now: nat)
    requires signer.Lawful() && signer.generated(root.algorithm, root.privateKey)
    requires forall s :: s in specs ==> signer.generated(s.algorithm, s.privateKey)
    requires forall s :: s in [root] + specs ==> InWindow(s, now)
    requires store.revokedSerials == {} && store.pinned == map[]
    requires CreateRootCa(signer, root).cert.fingerprint in store.trustedRoots && CaIntermediates(specs)
    ensures ValidChain(signer, store, Certs(Build(signer, root, specs)), now)
  {
    hide ValidChain, CaIntermediates;
    BuiltInWindow(signer, store, root, specs, now);
    BuiltChainValidIff(signer, store, root, specs, now);
  }

  lemma {:induction false} BuiltInWindow(signer: Signer, store: StoreState, root: Issuance, specs: seq<Issuance>,
                                         now: nat)
    requires forall s :: s in [root] + specs ==> InWindow(s, now)
    requires store.revokedSerials == {} && store.pinned == map[]
    ensures forall c :: c in Certs(Build(signer, root, specs)) ==> Acceptable(store, c, now)
  {
    hide Acceptable, CreateRootCa, CreateSignedCert, InWindow;
    assert root in [root] + specs;
    var chain := Certs(Build(signer, root, specs));
    if specs == [] {
      assert chain == [CreateRootCa(signer, root).cert];
      IssuedInWindow(signer, store, root, CreateRootCa(signer, root), now);
    } else {
      var n := |specs| - 1;
      assert specs[n] in [root] + specs;
      assert forall s :: s in [root] + specs[..n] ==> s in [root] + specs;
      BuiltInWindow(signer, store, root, specs[..n], now);
      var issuers := Build(signer, root, specs[..n]);
      IssuedInWindow(signer, store, specs[n], issuers[0], now);
      assert chain == [CreateSignedCert(signer, specs[n], issuers[0]).cert] + Certs(issuers);
    }
  }

  lemma IssuedInWindow(signer: Signer, store: StoreState, spec: Issuance, issuer: CertKeyPair, now: nat)
    requires InWindow(spec, now) && store.revokedSerials == {} && store.pinned == map[]
    ensures Acceptable(store, CreateRootCa(signer, spec).cert, now)
    ensures Acceptable(store, CreateSignedCert(signer, spec, issuer).cert, now)
  {
    hide TbsBytes;
  }

  /** And only there: the windows of the issued certificates are exactly those asked for. */
  lemma BuiltChainValidOnlyIn(signer: Signer, store: StoreState, root: Issuance, specs: seq<Issuance>, now: nat)
    requires ValidChain(signer, store, Certs(Build(signer, root, specs)), now)
    ensures forall s :: s in [root] + specs ==> s.now <= now <= s.now + s.validityDays * SECONDS_PER_DAY
  {
    hide Linked, Anchored, Build;
    forall s | s in [root] + specs
      ensures s.now <= now <= s.now + s.validityDays * SECONDS_PER_DAY
    {
      var i := IssuedAt(signer, root, specs, s);
      assert Acceptable(store, Certs(Build(signer, root, specs))[i], now);
    }
  }

  /** The certificate that was issued for a specification, with all its fields. */
  lemma {:induction false} IssuedAt(signer: Signer, root: Issuance, specs: seq<Issuance>, s: Issuance) returns (i: nat)
    requires s in [root] + specs
    ensures i <= |specs|
    ensures
      var chain := Certs(Build(signer, root, specs));
      && chain[i].subject == s.subject && chain[i].algorithm == s.algorithm && chain[i].serial == s.serial
      && chain[i].publicKey == signer.publicKey(s.algorithm, s.privateKey)
      && chain[i].notBefore == s.now && chain[i].notAfter == s.now + s.validityDays * 86400
      && chain[i].fingerprint == signer.fingerprint(chain[i].publicKey)
      && chain[i].isCa == (i == |specs| || s.isCa)
      && chain[i].issuer == (if i == |specs| then s.subject else chain[i + 1].subject)
      && chain[i].issuerAlgorithm == (if i == |specs| then s.algorithm else chain[i + 1].algorithm)
  {
    hide TbsBytes;
    if specs == [] {
      i := 0;
    } else {
      var n := |specs| - 1;
      BuildStep(signer, root, specs);
      if s == specs[n] {
        i := 0;
      } else {
        assert s in [root] + specs[..n];
        var k := IssuedAt(signer, root, specs[..n], s);
        i := k + 1;
      }
    }
  }

  // ----- What a carried fingerprint is worth -----

  /** Different keys have different fingerprints. */
  ghost predicate Injective(fingerprint: Bytes -> string) {
    forall a, b :: fingerprint(a) == fingerprint(b) ==> a == b
  }

  /** The trusted roots are kept under their fingerprints, and these are the ones of their keys. */
  predicate HonestRoots(signer: Signer, store: StoreState) {
    forall f :: f in store.trustedRoots ==>
      store.trustedRoots[f].fingerprint == f == signer.fingerprint(store.trustedRoots[f].publicKey)
  }

  /** Validation does not compute the fingerprint of the root but believes the one it carries. The
      key at the end of a valid chain is the one of the trusted root it names if and only if the
      fingerprint it carries is the one of its key. */
  lemma RootKeyTrustedIff(signer: Signer, store: StoreState, chain: seq<Certificate>, now: nat)
    requires ValidChain(signer, store, chain, now)
    requires Injective(signer.fingerprint) && HonestRoots(signer, store)
    ensures
      var root := chain[|chain| - 1];
      && root.fingerprint in store.trustedRoots
      && (root.publicKey == store.trustedRoots[root.fingerprint].publicKey
          <==> root.fingerprint == signer.fingerprint(root.publicKey))
  {
    hide Acceptable, Linked;
  }

  /** And it need not be: the signature does not cover the fingerprint, so any self-signed root may
      carry any trusted root's and is valid on its own whenever it is acceptable. */
  lemma AnyRootMayCarryIt(signer: Signer, store: StoreState, spec: Issuance, f: string, now: nat)
    requires signer.Lawful() && signer.generated(spec.algorithm, spec.privateKey) && f in store.trustedRoots
    ensures
      var root := CreateRootCa(signer, spec).cert.(fingerprint := f);
      ValidChain(signer, store, [root], now) <==> Acceptable(store, root, now)
  {
    hide Acceptable, Linked, CreateRootCa;
    RootIsSelfSigned(signer, spec);
    var cert := CreateRootCa(signer, spec).cert;
    assert TbsBytes(cert.(fingerprint := f)) == TbsBytes(cert);
  }

  /** Pins are checked against the carried fingerprint too. The check treats a certificate as its key
      deserves, in every store, if and only if the fingerprint it carries is the one of its key
      (or its window is empty, and it is never acceptable). */
  lemma PinsRestrictKeyIff(signer: Signer, c: Certificate)
    ensures
      var own := c.(fingerprint := signer.fingerprint(c.publicKey));
      (forall store, now :: Acceptable(store, c, now) <==> Acceptable(store, own, now))
      <==> c.fingerprint == signer.fingerprint(c.publicKey) || c.notBefore > c.notAfter
  {
    var own := c.(fingerprint := signer.fingerprint(c.publicKey));
    if c.fingerprint == own.fingerprint {
      assert c == own;
    } else if c.notBefore <= c.notAfter {
      var store := StoreState(map[], {}, map[c.subject := {c.fingerprint}], 0);
      assert Acceptable(store, c, c.notBefore) && !Acceptable(store, own, c.notBefore);
    }
  }

  /** And the leaf of a chain, whatever its key, may carry any fingerprint pinned for its subject: if
      the chain is valid but for pins and its issuers meet theirs, it is valid. */
  lemma AnyLeafMayCarryPin(signer: Signer, store: StoreState, chain: seq<Certificate>, f: string, now: nat)
    requires |chain| > 1 && ValidChain(signer, store.(pinned := map[]), chain, now)
    requires forall i :: 0 < i < |chain| ==> Acceptable(store, chain[i], now)
    requires chain[0].subject in store.pinned && f in store.pinned[chain[0].subject]
    ensures ValidChain(signer, store, chain[0 := chain[0].(fingerprint := f)], now)
  {
    var leaf := chain[0].(fingerprint := f);
    var carried := chain[0 := leaf];
    assert TbsBytes(leaf) == TbsBytes(chain[0]);
    assert Acceptable(store.(pinned := map[]), chain[0], now);
    assert Linked(signer, chain[0], chain[1]);
    assert Acceptable(store, leaf, now) && Linked(signer, leaf, chain[1]);
    hide Acceptable, Linked, TbsBytes, SignedBy;
    forall i | 0 < i < |chain|
      ensures Linked(signer, carried[i - 1], carried[i])
    {
      assert Linked(signer, chain[i - 1], chain[i]);
    }
  }

  /** A concrete kind of chain where this lets a key pass that is not pinned: a root and a leaf with
      one pin, which is not the fingerprint of the leaf's key. */
  lemma UnpinnedKeyPasses(signer: Signer, root: Issuance, spec: Issuance, f: string, now: nat)
    requires signer.Lawful() && signer.generated(root.algorithm, root.privateKey)
    requires signer.generated(spec.algorithm, spec.privateKey)
    requires InWindow(root, now) && InWindow(spec, now) && root.subject != spec.subject
    ensures
      var chain := Certs(Build(signer, root, [spec]));
      var store := StoreState(map[chain[1].fingerprint := chain[1]], {}, map[spec.subject := {f}], 0);
      && (f != signer.fingerprint(chain[0].publicKey) ==> !ValidChain(signer, store, chain, now))
      && ValidChain(signer, store, chain[0 := chain[0].(fingerprint := f)], now)
  {
    var chain := Certs(Build(signer, root, [spec]));
    var store := StoreState(map[chain[1].fingerprint := chain[1]], {}, map[spec.subject := {f}], 0);
    BuildOne(signer, root, spec);
    hide Build, TbsBytes, SignedBy, Signer.Lawful, Linked, Anchored;
    BuiltChainValidates(signer, store.(pinned := map[]), root, [spec], now);
    AnyLeafMayCarryPin(signer, store, chain, f, now);
  }

  lemma BuildOne(signer: Signer, root: Issuance, spec: Issuance)
    ensures
      var issuer := CreateRootCa(signer, root);
      Build(signer, root, [spec]) == [CreateSignedCert(signer, spec, issuer), issuer]
  {
    hide CreateRootCa, CreateSignedCert;
    assert [spec][..0] == [];
  }
}
