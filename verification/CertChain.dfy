/**
 The trust store and chain validation, crates/pqc-tls/src/cert_chain.rs:125-460: valid chains, the
 errors that are reported, and their causes. The clock is a parameter.
 */
module CertChain {
  import opened Crypto
  import opened TbsEncoding

  datatype ChainError =
    | EmptyChain
    | ExpiredCertificate(subject: Bytes, expiredAt: nat)
    | NotYetValid(subject: Bytes, validFrom: nat)
    | UntrustedRoot(subject: Bytes)
    | RevokedCertificate(subject: Bytes, serial: Bytes)
    | PinningViolation(subject: Bytes, fingerprint: string)
    | SignatureVerificationFailed(subject: Bytes, issuer: Bytes)
    | ChainBroken(expectedIssuer: Bytes, gotSubject: Bytes)
    | NonCaSignedChild(subject: Bytes)

  datatype Warning = HasExpired(subject: Bytes, notAfter: nat) | ExpiresIn(subject: Bytes, days: nat)

  datatype ValidationResult = ValidationResult(
    valid: bool, errors: seq<ChainError>, warnings: seq<Warning>, chainLength: nat, algorithmsUsed: seq<Algorithm>)

  /** The three signature algorithms; `generated` holds of the private keys key generation makes. */
  datatype Signer = Signer(
    generated: (Algorithm, Bytes) -> bool,
    publicKey: (Algorithm, Bytes) -> Bytes,
    sign: (Algorithm, Bytes, Bytes) -> Bytes,
    verify: (Algorithm, Bytes, Bytes, Bytes) -> bool,
    fingerprint: Bytes -> string
  ) {
    ghost predicate Lawful() {
      forall a, key, data {:trigger sign(a, key, data)} ::
        generated(a, key) ==> verify(a, publicKey(a, key), data, sign(a, key, data))
    }
  }

  const SECONDS_PER_DAY: nat := 86400

  predicate SignedBy(signer: Signer, c: Certificate, publicKey: Bytes) {
    signer.verify(c.issuerAlgorithm, publicKey, TbsBytes(c), c.signature)
  }

  // ----- When a chain is valid -----

  datatype StoreState = StoreState(
    trustedRoots: map<string, Certificate>, revokedSerials: set<Bytes>, pinned: map<Bytes, set<string>>,
    expiryWarningDays: nat)

  /** In its time window, not revoked, and of a pinned fingerprint if its subject is pinned. */
  predicate Acceptable(store: StoreState, c: Certificate, now: nat) {
    && c.notBefore <= now <= c.notAfter
    && c.serial !in store.revokedSerials
    && (c.subject in store.pinned ==> c.fingerprint in store.pinned[c.subject])
  }

  predicate Linked(signer: Signer, c: Certificate, issuer: Certificate) {
    c.issuer == issuer.subject && issuer.isCa && SignedBy(signer, c, issuer.publicKey)
  }

  /** Its fingerprint field names a trusted root, and it is correctly self-signed if it claims to
      be its own issuer. */
  predicate Anchored(signer: Signer, store: StoreState, root: Certificate) {
    root.fingerprint in store.trustedRoots && (root.subject == root.issuer ==> SignedBy(signer, root, root.publicKey))
  }

  predicate ValidChain(signer: Signer, store: StoreState, chain: seq<Certificate>, now: nat) {
    && chain != []
    && (forall i :: 0 <= i < |chain| ==> Acceptable(store, chain[i], now))
    && (forall i :: 0 < i < |chain| ==> Linked(signer, chain[i - 1], chain[i]))
    && Anchored(signer, store, chain[|chain| - 1])
  }

  // ----- Why a chain is not valid -----

  /** The i-th certificate's signature is checked with the key of the next one; the last one's with
      its own key, if it names itself as issuer. */
  predicate SignatureFails(signer: Signer, chain: seq<Certificate>, i: nat)
    requires i < |chain|
  {
    var c := chain[i];
    if i + 1 < |chain| then !signer.verify(c.issuerAlgorithm, chain[i + 1].publicKey, TbsBytes(c), c.signature)
    else c.issuer == c.subject && !signer.verify(c.issuerAlgorithm, c.publicKey, TbsBytes(c), c.signature)
  }

  /** The i-th certificate of the chain gives cause for the error. */
  predicate Cause(signer: Signer, store: StoreState, chain: seq<Certificate>, now: nat, i: nat, e: ChainError)
    requires i < |chain|
  {
    var c, last := chain[i], i + 1 == |chain|;
    match e
    case EmptyChain => false
    case ExpiredCertificate(subject, expiredAt) => subject == c.subject && expiredAt == c.notAfter && expiredAt < now
    case NotYetValid(subject, validFrom) => subject == c.subject && validFrom == c.notBefore && now < validFrom
    case RevokedCertificate(subject, serial) =>
      subject == c.subject && serial == c.serial && serial in store.revokedSerials
    case PinningViolation(subject, fingerprint) =>
      && subject == c.subject && fingerprint == c.fingerprint
      && subject in store.pinned && fingerprint !in store.pinned[subject]
    case SignatureVerificationFailed(subject, issuer) =>
      && subject == c.subject && issuer == (if last then c.issuer else chain[i + 1].subject)
      && SignatureFails(signer, chain, i)
    case ChainBroken(expectedIssuer, gotSubject) =>
      !last && expectedIssuer == c.issuer && gotSubject == chain[i + 1].subject && expectedIssuer != gotSubject
    case NonCaSignedChild(subject) => !last && subject == chain[i + 1].subject && !chain[i + 1].isCa
    case UntrustedRoot(subject) => last && subject == c.subject && c.fingerprint !in store.trustedRoots
  }

  /** Some certificate gives cause for the error, or there is none at all. */
  ghost predicate HasCause(signer: Signer, store: StoreState, chain: seq<Certificate>, now: nat, e: ChainError) {
    if chain == [] then e == EmptyChain else exists i :: 0 <= i < |chain| && Cause(signer, store, chain, now, i, e)
  }

  // ----- What validation reports -----

  function OneIf(condition: bool, error: ChainError): seq<ChainError> {
    if condition then [error] else []
  }

  /** The complaints about one certificate on its own. */
  function OwnErrors(store: StoreState, c: Certificate, now: nat): (errors: seq<ChainError>)
    ensures errors == [] <==> Acceptable(store, c, now)
  {
    OneIf(now < c.notBefore, NotYetValid(c.subject, c.notBefore))
    + OneIf(now > c.notAfter, ExpiredCertificate(c.subject, c.notAfter))
    + OneIf(c.serial in store.revokedSerials, RevokedCertificate(c.subject, c.serial))
    + OneIf(c.subject in store.pinned && c.fingerprint !in store.pinned[c.subject],
            PinningViolation(c.subject, c.fingerprint))
  }

  function LinkErrors(signer: Signer, c: Certificate, issuer: Certificate): (errors: seq<ChainError>)
    ensures errors == [] <==> Linked(signer, c, issuer)
  {
    OneIf(c.issuer != issuer.subject, ChainBroken(c.issuer, issuer.subject))
    + OneIf(!issuer.isCa, NonCaSignedChild(issuer.subject))
    + OneIf(!SignedBy(signer, c, issuer.publicKey), SignatureVerificationFailed(c.subject, issuer.subject))
  }

  function RootErrors(signer: Signer, store: StoreState, root: Certificate): (errors: seq<ChainError>)
    ensures errors == [] <==> Anchored(signer, store, root)
  {
    OneIf(root.subject == root.issuer && !SignedBy(signer, root, root.publicKey),
          SignatureVerificationFailed(root.subject, root.issuer))
    + OneIf(root.fingerprint !in store.trustedRoots, UntrustedRoot(root.subject))
  }

  /** The complaints about the first n certificates, each with its link to the next. */
  function ErrorsUpTo(signer: Signer, store: StoreState, chain: seq<Certificate>, now: nat, n: nat): seq<ChainError>
    requires n <= |chain|
  {
    if n == 0 then []
    else
      ErrorsUpTo(signer, store, chain, now, n - 1) + OwnErrors(store, chain[n - 1], now)
      + if n < |chain| then LinkErrors(signer, chain[n - 1], chain[n]) else []
  }

  /** All errors of a chain. */
  function AllErrors(signer: Signer, store: StoreState, chain: seq<Certificate>, now: nat): seq<ChainError> {
    if chain == [] then [EmptyChain]
    else ErrorsUpTo(signer, store, chain, now, |chain|) + RootErrors(signer, store, chain[|chain| - 1])
  }

  function DaysUntilExpiry(c: Certificate, now: nat): nat {
    if now >= c.notAfter then 0 else (c.notAfter - now) / SECONDS_PER_DAY
  }

  function ExpiryWarnings(store: StoreState, c: Certificate, now: nat): seq<Warning> {
    var days := DaysUntilExpiry(c, now);
    if days == 0 then [HasExpired(c.subject, c.notAfter)]
    else if days <= store.expiryWarningDays then [ExpiresIn(c.subject, days)]
    else []
  }

  function WarningsUpTo(store: StoreState, chain: seq<Certificate>, now: nat, n: nat): seq<Warning>
    requires n <= |chain|
  {
    if n == 0 then [] else WarningsUpTo(store, chain, now, n - 1) + ExpiryWarnings(store, chain[n - 1], now)
  }

  /** The algorithms of the first n certificates, in order of first use. */
  function AlgorithmsUpTo(chain: seq<Certificate>, n: nat): (used: seq<Algorithm>)
    requires n <= |chain|
    ensures forall a :: a in used <==> exists i :: 0 <= i < n && chain[i].algorithm == a
  {
    if n == 0 then []
    else
      var used := AlgorithmsUpTo(chain, n - 1);
      if chain[n - 1].algorithm in used then used
      else
        assert forall i :: 0 <= i < n ==> i < n - 1 || chain[i] == chain[n - 1];
        used + [chain[n - 1].algorithm]
  }

  // ----- The trust store -----

  class TrustStore {
    const signer: Signer
    var trustedRoots: map<string, Certificate>
    var revokedSerials: set<Bytes>
    var pinned: map<Bytes, set<string>>
    const expiryWarningDays: nat

    function State(): StoreState
      reads this
    {
      StoreState(trustedRoots, revokedSerials, pinned, expiryWarningDays)
    }

    /** No subject is left with an empty set of pins, which would reject all its certificates, and
        roots are kept under their fingerprints. */
    predicate Valid()
      reads this
    {
      && (forall subject :: subject in pinned ==> pinned[subject] != {})
      && (forall f :: f in trustedRoots ==> trustedRoots[f].fingerprint == f)
    }

    constructor (signer: Signer, expiryWarningDays: nat)
      ensures Valid() && State() == StoreState(map[], {}, map[], expiryWarningDays) && this.signer == signer
    {
      this.signer := signer;
      this.expiryWarningDays := expiryWarningDays;
      trustedRoots, revokedSerials, pinned := map[], {}, map[];
    }

    method AddTrustedRoot(cert: Certificate)
      requires Valid()
      modifies this`trustedRoots
      ensures Valid() && trustedRoots == old(trustedRoots)[cert.fingerprint := cert]
    {
      trustedRoots := trustedRoots[cert.fingerprint := cert];
    }

    method RemoveTrustedRoot(fingerprint: string) returns (removed: bool)
      requires Valid()
      modifies this`trustedRoots
      ensures Valid() && trustedRoots == old(trustedRoots) - {fingerprint}
        && removed == (fingerprint in old(trustedRoots))
    {
      removed := fingerprint in trustedRoots;
      trustedRoots := trustedRoots - {fingerprint};
    }

    method Revoke(serial: Bytes)
      requires Valid()
      modifies this`revokedSerials
      ensures Valid() && revokedSerials == old(revokedSerials) + {serial}
    {
      revokedSerials := revokedSerials + {serial};
    }

    method Unrevoke(serial: Bytes)
      requires Valid()
      modifies this`revokedSerials
      ensures Valid() && revokedSerials == old(revokedSerials) - {serial}
    {
      revokedSerials := revokedSerials - {serial};
    }

    /** The pins of a subject; without any it is not restricted. */
    function Pins(subject: Bytes): set<string>
      reads this
    {
      if subject in pinned then pinned[subject] else {}
    }

    method Pin(subject: Bytes, fingerprint: string)
      requires Valid()
      modifies this`pinned
      ensures Valid() && Pins(subject) == old(Pins(subject)) + {fingerprint}
      ensures forall other :: other != subject ==> Pins(other) == old(Pins(other))
    {
      pinned := pinned[subject := Pins(subject) + {fingerprint}];
    }

    method Unpin(subject: Bytes, fingerprint: string)
      requires Valid()
      modifies this`pinned
      ensures Valid() && Pins(subject) == old(Pins(subject)) - {fingerprint}
      ensures forall other :: other != subject ==> Pins(other) == old(Pins(other))
    {
      if subject in pinned {
        var pins := pinned[subject] - {fingerprint};
        pinned := if pins == {} then pinned - {subject} else pinned[subject := pins];
      }
    }

    /** In a valid store a subject without pins is not restricted, and one with pins to them. */
    lemma PinsDecide(c: Certificate, now: nat)
      requires Valid()
      ensures Acceptable(State(), c, now) <==>
        && c.notBefore <= now <= c.notAfter
        && c.serial !in revokedSerials
        && (Pins(c.subject) == {} || c.fingerprint in Pins(c.subject))
    {}

    method ValidateChain(chain: seq<Certificate>, now: nat) returns (result: ValidationResult)
      ensures result.valid <==> ValidChain(signer, State(), chain, now)
      ensures result.errors == AllErrors(signer, State(), chain, now)
      ensures result.warnings == WarningsUpTo(State(), chain, now, |chain|)
      ensures result.chainLength == |chain| && result.algorithmsUsed == AlgorithmsUpTo(chain, |chain|)
      ensures result.valid <==> result.errors == []
      ensures forall e :: e in result.errors <==> HasCause(signer, State(), chain, now, e)
    {
      hide HasCause;
      ErrorsHaveCauses(signer, State(), chain, now);
      hide SignedBy, ExpiryWarnings, OwnErrors, LinkErrors, RootErrors, Acceptable, Linked, Anchored;
      if chain == [] {
        return ValidationResult(false, [EmptyChain], [], 0, []);
      }
      ghost var store := State();
      ErrorsIffInvalid(signer, store, chain, now);
      hide ValidChain;
      var errors: seq<ChainError>, warnings: seq<Warning>, algorithmsUsed: seq<Algorithm> := [], [], [];
      for i := 0 to |chain|
        invariant errors == ErrorsUpTo(signer, store, chain, now, i)
        invariant warnings == WarningsUpTo(store, chain, now, i)
        invariant algorithmsUsed == AlgorithmsUpTo(chain, i)
      {
        var cert := chain[i];
        if cert.algorithm !in algorithmsUsed {
          algorithmsUsed := algorithmsUsed + [cert.algorithm];
        }
        var own := CheckCertificate(cert, now);
        var link: seq<ChainError> := [];
        warnings := warnings + ExpiryWarnings(State(), cert, now);
        if i + 1 < |chain| {
          link := CheckLink(cert, chain[i + 1]);
        }
        errors := errors + own + link;
      }
      var anchor := CheckRoot(chain[|chain| - 1]);
      errors := errors + anchor;
      result := ValidationResult(errors == [], errors, warnings, |chain|, algorithmsUsed);
    }

    method CheckCertificate(cert: Certificate, now: nat) returns (errors: seq<ChainError>)
      ensures errors == OwnErrors(State(), cert, now)
    {
      errors := [];
      if now < cert.notBefore {
        errors := errors + [NotYetValid(cert.subject, cert.notBefore)];
      }
      if now > cert.notAfter {
        errors := errors + [ExpiredCertificate(cert.subject, cert.notAfter)];
      }
      if cert.serial in revokedSerials {
        errors := errors + [RevokedCertificate(cert.subject, cert.serial)];
      }
      if cert.subject in pinned {
        if cert.fingerprint !in pinned[cert.subject] {
          errors := errors + [PinningViolation(cert.subject, cert.fingerprint)];
        }
      }
    }

    method CheckLink(cert: Certificate, issuerCert: Certificate) returns (errors: seq<ChainError>)
      ensures errors == LinkErrors(signer, cert, issuerCert)
    {
      errors := [];
      if cert.issuer != issuerCert.subject {
        errors := errors + [ChainBroken(cert.issuer, issuerCert.subject)];
      }
      if !issuerCert.isCa {
        errors := errors + [NonCaSignedChild(issuerCert.subject)];
      }
      if !signer.verify(cert.issuerAlgorithm, issuerCert.publicKey, TbsBytes(cert), cert.signature) {
        errors := errors + [SignatureVerificationFailed(cert.subject, issuerCert.subject)];
      }
    }

    method CheckRoot(root: Certificate) returns (errors: seq<ChainError>)
      ensures errors == RootErrors(signer, State(), root)
    {
      errors := [];
      if root.subject == root.issuer {
        if !signer.verify(root.issuerAlgorithm, root.publicKey, TbsBytes(root), root.signature) {
          errors := errors + [SignatureVerificationFailed(root.subject, root.issuer)];
        }
        if root.fingerprint !in trustedRoots {
          errors := errors + [UntrustedRoot(root.subject)];
        }
      } else {
        if root.fingerprint !in trustedRoots {
          errors := errors + [UntrustedRoot(root.subject)];
        }
      }
    }
  }

  // ----- No errors exactly on valid chains -----

  /** The i-th certificate is acceptable and linked to the next one, if there is one. */
  predicate Fine(signer: Signer, store: StoreState, chain: seq<Certificate>, now: nat, i: nat)
    requires i < |chain|
  {
    Acceptable(store, chain[i], now) && (i + 1 < |chain| ==> Linked(signer, chain[i], chain[i + 1]))
  }

  lemma ErrorsStep(signer: Signer, store: StoreState, chain: seq<Certificate>, now: nat, n: nat)
    requires n < |chain|
    ensures ErrorsUpTo(signer, store, chain, now, n + 1) == [] <==>
      ErrorsUpTo(signer, store, chain, now, n) == [] && Fine(signer, store, chain, now, n)
  {
    hide Acceptable, Linked, OwnErrors, LinkErrors;
    var a, b := ErrorsUpTo(signer, store, chain, now, n), OwnErrors(store, chain[n], now);
    var c := if n + 1 < |chain| then LinkErrors(signer, chain[n], chain[n + 1]) else [];
    assert |a + b + c| == |a| + |b| + |c|;
  }

  predicate AllFine(signer: Signer, store: StoreState, chain: seq<Certificate>, now: nat, n: nat)
    requires n <= |chain|
  {
    forall i :: 0 <= i < n ==> Fine(signer, store, chain, now, i)
  }

  lemma AllFineStep(signer: Signer, store: StoreState, chain: seq<Certificate>, now: nat, n: nat)
    requires n < |chain|
    ensures AllFine(signer, store, chain, now, n + 1)
      <==> AllFine(signer, store, chain, now, n) && Fine(signer, store, chain, now, n)
  {
    hide Fine;
  }

  lemma NothingChecked(signer: Signer, store: StoreState, chain: seq<Certificate>, now: nat)
    ensures ErrorsUpTo(signer, store, chain, now, 0) == [] && AllFine(signer, store, chain, now, 0)
  {
    hide Fine;
  }

  lemma {:induction false} NoErrorsUpTo(signer: Signer, store: StoreState, chain: seq<Certificate>, now: nat, n: nat)
    requires n <= |chain|
    ensures ErrorsUpTo(signer, store, chain, now, n) == [] <==> AllFine(signer, store, chain, now, n)
  {
    hide *;
    if n == 0 {
      NothingChecked(signer, store, chain, now);
    } else {
      NoErrorsUpTo(signer, store, chain, now, n - 1);
      ErrorsStep(signer, store, chain, now, n - 1);
      AllFineStep(signer, store, chain, now, n - 1);
    }
  }

  lemma ErrorsIffInvalid(signer: Signer, store: StoreState, chain: seq<Certificate>, now: nat)
    requires chain != []
    ensures ErrorsUpTo(signer, store, chain, now, |chain|) + RootErrors(signer, store, chain[|chain| - 1]) == []
      <==> ValidChain(signer, store, chain, now)
  {
    hide Acceptable, Linked, Anchored, ErrorsUpTo, RootErrors;
    NoErrorsUpTo(signer, store, chain, now, |chain|);
    if ValidChain(signer, store, chain, now) {
      forall i | 0 <= i < |chain|
        ensures Fine(signer, store, chain, now, i)
      {
        assert i + 1 < |chain| ==> Linked(signer, chain[i + 1 - 1], chain[i + 1]);
      }
    }
    if AllFine(signer, store, chain, now, |chain|) {
      forall i | 0 <= i < |chain|
        ensures Acceptable(store, chain[i], now) && (i > 0 ==> Linked(signer, chain[i - 1], chain[i]))
      {
        assert Fine(signer, store, chain, now, i) && (i > 0 ==> Fine(signer, store, chain, now, i - 1));
      }
    }
    var a, b := ErrorsUpTo(signer, store, chain, now, |chain|), RootErrors(signer, store, chain[|chain| - 1]);
    assert |a + b| == |a| + |b|;
  }

  /** Whether the error is one for which the i-th certificate is at fault otherwise than as the root. */
  predicate OwnCause(signer: Signer, store: StoreState, chain: seq<Certificate>, now: nat, i: nat, e: ChainError)
    requires i < |chain|
  {
    Cause(signer, store, chain, now, i, e)
    && (i + 1 == |chain| ==> !e.SignatureVerificationFailed? && !e.UntrustedRoot?)
  }

  lemma OwnErrorsAre(store: StoreState, c: Certificate, now: nat, e: ChainError)
    ensures e in OwnErrors(store, c, now) <==>
      || (now < c.notBefore && e == NotYetValid(c.subject, c.notBefore))
      || (now > c.notAfter && e == ExpiredCertificate(c.subject, c.notAfter))
      || (c.serial in store.revokedSerials && e == RevokedCertificate(c.subject, c.serial))
      || (c.subject in store.pinned && c.fingerprint !in store.pinned[c.subject]
          && e == PinningViolation(c.subject, c.fingerprint))
  {}

  lemma LinkErrorsAre(signer: Signer, c: Certificate, issuer: Certificate, e: ChainError)
    ensures e in LinkErrors(signer, c, issuer) <==>
      || (c.issuer != issuer.subject && e == ChainBroken(c.issuer, issuer.subject))
      || (!issuer.isCa && e == NonCaSignedChild(issuer.subject))
      || (!signer.verify(c.issuerAlgorithm, issuer.publicKey, TbsBytes(c), c.signature)
          && e == SignatureVerificationFailed(c.subject, issuer.subject))
  {
    hide TbsBytes;
  }

  lemma CertificateCauses(signer: Signer, store: StoreState, chain: seq<Certificate>, now: nat, i: nat, e: ChainError)
    requires i < |chain|
    ensures
      OwnCause(signer, store, chain, now, i, e) <==>
      e in OwnErrors(store, chain[i], now) || (i + 1 < |chain| && e in LinkErrors(signer, chain[i], chain[i + 1]))
  {
    hide TbsBytes, OwnErrors, LinkErrors;
    OwnErrorsAre(store, chain[i], now, e);
    if i + 1 < |chain| {
      LinkErrorsAre(signer, chain[i], chain[i + 1], e);
    }
  }

  lemma RootCauses(signer: Signer, store: StoreState, chain: seq<Certificate>, now: nat, e: ChainError)
    requires chain != []
    ensures
      e in RootErrors(signer, store, chain[|chain| - 1]) <==>
      (e.SignatureVerificationFailed? || e.UntrustedRoot?) && Cause(signer, store, chain, now, |chain| - 1, e)
  {
    hide TbsBytes;
  }

  lemma {:induction false} ErrorsUpToCauses(signer: Signer, store: StoreState, chain: seq<Certificate>, now: nat,
                                            n: nat, e: ChainError)
    requires n <= |chain|
    ensures e in ErrorsUpTo(signer, store, chain, now, n) <==>
      exists i :: 0 <= i < n && OwnCause(signer, store, chain, now, i, e)
  {
    hide OwnCause, OwnErrors, LinkErrors;
    if n == 0 {
    } else {
      ErrorsUpToCauses(signer, store, chain, now, n - 1, e);
      CertificateCauses(signer, store, chain, now, n - 1, e);
    }
  }

  lemma ErrorHasCause(signer: Signer, store: StoreState, chain: seq<Certificate>, now: nat, e: ChainError)
    ensures e in AllErrors(signer, store, chain, now) <==> HasCause(signer, store, chain, now, e)
  {
    hide Cause, ErrorsUpTo, RootErrors;
    if chain != [] {
      var n := |chain|;
      ErrorsUpToCauses(signer, store, chain, now, n, e);
      RootCauses(signer, store, chain, now, e);
      if HasCause(signer, store, chain, now, e) {
        var i :| 0 <= i < n && Cause(signer, store, chain, now, i, e);
        assert OwnCause(signer, store, chain, now, i, e) || i == n - 1;
      }
      if e in ErrorsUpTo(signer, store, chain, now, n) {
        var i :| 0 <= i < n && OwnCause(signer, store, chain, now, i, e);
        assert Cause(signer, store, chain, now, i, e);
      }
    }
  }

  /** Every reported error has a cause, and every cause is reported. */
  lemma ErrorsHaveCauses(signer: Signer, store: StoreState, chain: seq<Certificate>, now: nat)
    ensures forall e :: e in AllErrors(signer, store, chain, now) <==> HasCause(signer, store, chain, now, e)
  {
    forall e
      ensures e in AllErrors(signer, store, chain, now) <==> HasCause(signer, store, chain, now, e)
    {
      ErrorHasCause(signer, store, chain, now, e);
    }
  }

  /** The errors that the i-th certificate may give cause for, in the order of the checks: its time, its
      revocation and its pins; then its link to the next one, or its trust as the root. */
  function Candidates(chain: seq<Certificate>, i: nat): seq<ChainError>
    requires i < |chain|
  {
    var c := chain[i];
    [NotYetValid(c.subject, c.notBefore), ExpiredCertificate(c.subject, c.notAfter),
     RevokedCertificate(c.subject, c.serial), PinningViolation(c.subject, c.fingerprint)]
    + if i + 1 < |chain| then
        [ChainBroken(c.issuer, chain[i + 1].subject), NonCaSignedChild(chain[i + 1].subject),
         SignatureVerificationFailed(c.subject, chain[i + 1].subject)]
      else
        [SignatureVerificationFailed(c.subject, c.issuer), UntrustedRoot(c.subject)]
  }

  /** Those of the errors that the certificate gives cause for. */
  function Caused(signer: Signer, store: StoreState, chain: seq<Certificate>, now: nat, i: nat, es: seq<ChainError>)
    : seq<ChainError>
    requires i < |chain|
  {
    if es == [] then []
    else OneIf(Cause(signer, store, chain, now, i, es[0]), es[0]) + Caused(signer, store, chain, now, i, es[1..])
  }

  function CausedUpTo(signer: Signer, store: StoreState, chain: seq<Certificate>, now: nat, n: nat): seq<ChainError>
    requires n <= |chain|
  {
    if n == 0 then []
    else
      CausedUpTo(signer, store, chain, now, n - 1)
      + Caused(signer, store, chain, now, n - 1, Candidates(chain, n - 1))
  }

  lemma {:induction false} CausedConcat(signer: Signer, store: StoreState, chain: seq<Certificate>, now: nat, i: nat,
                                        a: seq<ChainError>, b: seq<ChainError>)
    requires i < |chain|
    ensures Caused(signer, store, chain, now, i, a + b)
         == Caused(signer, store, chain, now, i, a) + Caused(signer, store, chain, now, i, b)
  {
    hide Cause, OneIf;
    if a == [] {
      assert a + b == b;
    } else {
      CausedConcat(signer, store, chain, now, i, a[1..], b);
      assert (a + b)[1..] == a[1..] + b;
    }
  }

  lemma CausedCons(signer: Signer, store: StoreState, chain: seq<Certificate>, now: nat, i: nat, e: ChainError,
                   rest: seq<ChainError>)
    requires i < |chain|
    ensures Caused(signer, store, chain, now, i, [e] + rest)
         == OneIf(Cause(signer, store, chain, now, i, e), e) + Caused(signer, store, chain, now, i, rest)
  {
    hide Cause, OneIf;
    assert ([e] + rest)[1..] == rest;
  }

  lemma CausedNone(signer: Signer, store: StoreState, chain: seq<Certificate>, now: nat, i: nat)
    requires i < |chain|
    ensures Caused(signer, store, chain, now, i, []) == []
  {}

  lemma OwnInOrder(signer: Signer, store: StoreState, chain: seq<Certificate>, now: nat, i: nat)
    requires i < |chain|
    ensures
      var c := chain[i];
      OwnErrors(store, c, now) == Caused(signer, store, chain, now, i,
        [NotYetValid(c.subject, c.notBefore), ExpiredCertificate(c.subject, c.notAfter),
         RevokedCertificate(c.subject, c.serial), PinningViolation(c.subject, c.fingerprint)])
  {
    var c := chain[i];
    var e1, e2 := NotYetValid(c.subject, c.notBefore), ExpiredCertificate(c.subject, c.notAfter);
    var e3, e4 := RevokedCertificate(c.subject, c.serial), PinningViolation(c.subject, c.fingerprint);
    assert [e1, e2, e3, e4] == [e1] + ([e2] + ([e3] + ([e4] + [])));
    CausedNone(signer, store, chain, now, i);
    CausedCons(signer, store, chain, now, i, e4, []);
    CausedCons(signer, store, chain, now, i, e3, [e4] + []);
    CausedCons(signer, store, chain, now, i, e2, [e3] + ([e4] + []));
    CausedCons(signer, store, chain, now, i, e1, [e2] + ([e3] + ([e4] + [])));
    hide Caused, OneIf;
  }

  lemma LinkInOrder(signer: Signer, store: StoreState, chain: seq<Certificate>, now: nat, i: nat)
    requires i + 1 < |chain|
    ensures
      var c, issuer := chain[i], chain[i + 1];
      LinkErrors(signer, c, issuer) == Caused(signer, store, chain, now, i,
        [ChainBroken(c.issuer, issuer.subject), NonCaSignedChild(issuer.subject),
         SignatureVerificationFailed(c.subject, issuer.subject)])
  {
    var c, issuer := chain[i], chain[i + 1];
    var e1, e2 := ChainBroken(c.issuer, issuer.subject), NonCaSignedChild(issuer.subject);
    var e3 := SignatureVerificationFailed(c.subject, issuer.subject);
    assert [e1, e2, e3] == [e1] + ([e2] + ([e3] + []));
    CausedNone(signer, store, chain, now, i);
    CausedCons(signer, store, chain, now, i, e3, []);
    CausedCons(signer, store, chain, now, i, e2, [e3] + []);
    CausedCons(signer, store, chain, now, i, e1, [e2] + ([e3] + []));
    hide Caused, OneIf, TbsBytes;
  }

  lemma RootInOrder(signer: Signer, store: StoreState, chain: seq<Certificate>, now: nat)
    requires chain != []
    ensures
      var i := |chain| - 1;
      var c := chain[i];
      RootErrors(signer, store, c) == Caused(signer, store, chain, now, i,
        [SignatureVerificationFailed(c.subject, c.issuer), UntrustedRoot(c.subject)])
  {
    var i := |chain| - 1;
    var c := chain[i];
    var e1, e2 := SignatureVerificationFailed(c.subject, c.issuer), UntrustedRoot(c.subject);
    assert [e1, e2] == [e1] + ([e2] + []);
    CausedNone(signer, store, chain, now, i);
    CausedCons(signer, store, chain, now, i, e2, []);
    CausedCons(signer, store, chain, now, i, e1, [e2] + []);
    hide Caused, OneIf, TbsBytes;
  }

  lemma {:induction false} ErrorsUpToInOrder(signer: Signer, store: StoreState, chain: seq<Certificate>, now: nat,
                                             n: nat)
    requires n <= |chain|
    ensures CausedUpTo(signer, store, chain, now, n)
         == ErrorsUpTo(signer, store, chain, now, n)
            + if 0 < n == |chain| then RootErrors(signer, store, chain[n - 1]) else []
  {
    hide Cause, Caused, OwnErrors, LinkErrors, RootErrors, OneIf;
    if n == 0 {
    } else {
      ErrorsUpToInOrder(signer, store, chain, now, n - 1);
      OwnInOrder(signer, store, chain, now, n - 1);
      var own, all := OwnErrors(store, chain[n - 1], now), Candidates(chain, n - 1);
      if n < |chain| {
        LinkInOrder(signer, store, chain, now, n - 1);
      } else {
        RootInOrder(signer, store, chain, now);
      }
      CausedConcat(signer, store, chain, now, n - 1, all[..4], all[4..]);
      assert all == all[..4] + all[4..];
      var c := chain[n - 1];
      assert all[..4] == [NotYetValid(c.subject, c.notBefore), ExpiredCertificate(c.subject, c.notAfter),
                          RevokedCertificate(c.subject, c.serial), PinningViolation(c.subject, c.fingerprint)];
    }
  }

  /** The errors of a chain are exactly those that its certificates give cause for, certificate by
      certificate and in the order of the checks. */
  lemma ErrorsInOrder(signer: Signer, store: StoreState, chain: seq<Certificate>, now: nat)
    requires chain != []
    ensures AllErrors(signer, store, chain, now) == CausedUpTo(signer, store, chain, now, |chain|)
  {
    hide ErrorsUpTo, CausedUpTo, RootErrors;
    ErrorsUpToInOrder(signer, store, chain, now, |chain|);
  }

  /** A chain is valid if and only if nothing gives cause for an error. */
  lemma ValidIffNoCause(signer: Signer, store: StoreState, chain: seq<Certificate>, now: nat)
    ensures ValidChain(signer, store, chain, now) <==> forall e :: !HasCause(signer, store, chain, now, e)
  {
    hide HasCause, ValidChain, ErrorsUpTo, RootErrors;
    ErrorsHaveCauses(signer, store, chain, now);
    if chain == [] {
      EmptyNotValid(signer, store, now);
      assert EmptyChain in AllErrors(signer, store, chain, now);
    } else {
      ErrorsIffInvalid(signer, store, chain, now);
      var errors := AllErrors(signer, store, chain, now);
      if errors != [] {
        assert errors[0] in errors;
      }
    }
  }

  lemma EmptyNotValid(signer: Signer, store: StoreState, now: nat)
    ensures !ValidChain(signer, store, [], now)
  {}

  /** In a valid chain the key of each certificate's issuer verifies its signature over its signed
      bytes, and a root that names itself as issuer verifies its own. */
  lemma ValidSignatures(signer: Signer, store: StoreState, chain: seq<Certificate>, now: nat, i: nat)
    requires ValidChain(signer, store, chain, now) && i < |chain|
    ensures i + 1 < |chain| ==>
      signer.verify(chain[i].issuerAlgorithm, chain[i + 1].publicKey, TbsBytes(chain[i]), chain[i].signature)
    ensures i + 1 == |chain| && chain[i].issuer == chain[i].subject ==>
      signer.verify(chain[i].issuerAlgorithm, chain[i].publicKey, TbsBytes(chain[i]), chain[i].signature)
  {
    hide TbsBytes;
    if i + 1 < |chain| {
      assert Linked(signer, chain[i + 1 - 1], chain[i + 1]);
    }
  }

  /** A chain with a signature that fails is not valid, and the failure is among the errors. */
  lemma TamperedRejected(signer: Signer, store: StoreState, chain: seq<Certificate>, now: nat, i: nat)
    requires i < |chain| && SignatureFails(signer, chain, i)
    ensures !ValidChain(signer, store, chain, now)
    ensures
      var issuer := if i + 1 < |chain| then chain[i + 1].subject else chain[i].issuer;
      SignatureVerificationFailed(chain[i].subject, issuer) in AllErrors(signer, store, chain, now)
  {
    var issuer := if i + 1 < |chain| then chain[i + 1].subject else chain[i].issuer;
    var e := SignatureVerificationFailed(chain[i].subject, issuer);
    assert Cause(signer, store, chain, now, i, e);
    hide Cause, ValidChain, AllErrors, SignatureFails;
    ErrorHasCause(signer, store, chain, now, e);
    ValidIffNoCause(signer, store, chain, now);
  }

  /** No algorithm is listed twice, and later certificates add theirs at the end. */
  lemma {:induction false} AlgorithmsInOrder(chain: seq<Certificate>, n: nat)
    requires n <= |chain|
    ensures forall i, j :: 0 <= i < j < |AlgorithmsUpTo(chain, n)| ==>
      AlgorithmsUpTo(chain, n)[i] != AlgorithmsUpTo(chain, n)[j]
    ensures n > 0 ==> AlgorithmsUpTo(chain, n - 1) <= AlgorithmsUpTo(chain, n)
  {
    if n == 0 {
    } else {
      AlgorithmsInOrder(chain, n - 1);
    }
  }

  /** Every non-empty end of a valid chain is valid. */
  lemma SuffixValid(signer: Signer, store: StoreState, chain: seq<Certificate>, now: nat, k: nat)
    requires ValidChain(signer, store, chain, now) && k < |chain|
    ensures ValidChain(signer, store, chain[k..], now)
  {
    hide Acceptable, Linked, Anchored;
    var suffix := chain[k..];
    forall i | 0 < i < |suffix|
      ensures Linked(signer, suffix[i - 1], suffix[i])
    {
      assert suffix[i - 1] == chain[k + i - 1] && suffix[i] == chain[k + i];
      assert Linked(signer, chain[k + i - 1], chain[k + i]);
    }
  }

  /** A certificate in its time window is reported as expired on its last day all the same. */
  lemma ExpiredWarningIff(store: StoreState, c: Certificate, now: nat)
    ensures HasExpired(c.subject, c.notAfter) in ExpiryWarnings(store, c, now) <==> now + SECONDS_PER_DAY > c.notAfter
  {
    if now < c.notAfter {
      assert (c.notAfter - now) / SECONDS_PER_DAY == 0 <==> c.notAfter - now < SECONDS_PER_DAY;
    }
  }

  /** Otherwise the remaining whole days are given, if they are no more than the configured number. */
  lemma ExpiresInIff(store: StoreState, c: Certificate, now: nat, w: Warning)
    ensures w in ExpiryWarnings(store, c, now) <==>
      if now + SECONDS_PER_DAY > c.notAfter then w == HasExpired(c.subject, c.notAfter)
      else
        && w.ExpiresIn? && w.subject == c.subject && w.days <= store.expiryWarningDays
        && now + w.days * SECONDS_PER_DAY <= c.notAfter < now + (w.days + 1) * SECONDS_PER_DAY
  {
    if now < c.notAfter {
      var left := c.notAfter - now;
      assert left == left / SECONDS_PER_DAY * SECONDS_PER_DAY + left % SECONDS_PER_DAY;
    }
  }

  /** A chain's warnings are those of its certificates. */
  lemma {:induction false} ChainWarnings(store: StoreState, chain: seq<Certificate>, now: nat, n: nat, w: Warning)
    requires n <= |chain|
    ensures w in WarningsUpTo(store, chain, now, n) <==>
      exists i :: 0 <= i < n && w in ExpiryWarnings(store, chain[i], now)
  {
    hide ExpiryWarnings;
    if n == 0 {
    } else {
      ChainWarnings(store, chain, now, n - 1, w);
    }
  }

  /** The warning tells the truth except on the last day of validity. */
  lemma ExpiredWarningRightIff(store: StoreState, c: Certificate, now: nat)
    ensures (HasExpired(c.subject, c.notAfter) in ExpiryWarnings(store, c, now) <==> now > c.notAfter)
      <==> now > c.notAfter || now + SECONDS_PER_DAY <= c.notAfter
  {
    hide ExpiryWarnings;
    ExpiredWarningIff(store, c, now);
  }

  /** A certificate issued for one day is reported as expired a second later, although valid. */
  lemma ValidReportedExpired(store: StoreState, c: Certificate)
    requires c.notAfter == c.notBefore + SECONDS_PER_DAY
    requires c.serial !in store.revokedSerials && c.subject !in store.pinned
    ensures Acceptable(store, c, c.notBefore + 1)
    ensures HasExpired(c.subject, c.notAfter) in ExpiryWarnings(store, c, c.notBefore + 1)
  {
    hide ExpiryWarnings;
    ExpiredWarningIff(store, c, c.notBefore + 1);
  }
}
