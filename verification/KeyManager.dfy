/**
 The stateful quorum manager, crates/pqc-tls/src/threshold.rs:347-508.
 */
module KeyManager {
  import opened Wrappers
  import opened Gf256
  import opened Polynomials
  import opened Threshold
  import opened RecoveryCodes
  import opened CodeGrammar
  import opened Crypto

  datatype RecoveryError = InvalidCode(cause: ParseError) | InvalidSeedLength

  /** The key material a manager is built from. */
  datatype Material = Material(publicKey: Bytes, shares: seq<Share>, codes: seq<string>, fingerprint: string)

  function MaterialOf(scheme: Scheme, seed: Bytes, config: SharingConfig, randoms: seq<seq<byte>>): Material
    requires config.Valid() && |randoms| == |seed| && |scheme.digest(scheme.publicKey(seed))| == 32
  {
    var shares := Split(seed, config, randoms);
    Material(scheme.publicKey(seed), shares, GenerateRecoveryCodes(shares), scheme.Fingerprint(scheme.publicKey(seed)))
  }

  /** The shares of the given ids that exist, in the order of the ids. */
  function Found(shares: seq<Share>, ids: seq<byte>): (found: seq<Share>)
    ensures |found| <= |ids|
    ensures forall s :: s in found ==> s in shares && s.id in ids
  {
    if ids == [] then []
    else
      var rest := Found(shares, ids[1..]);
      match GetShare(shares, ids[0])
      case None => rest
      case Some(share) => [share] + rest
  }

  function GetShare(shares: seq<Share>, id: byte): (found: Option<Share>)
    ensures found.Some? ==> found.value in shares && found.value.id == id
    ensures found.None? ==> id !in Ids(shares)
  {
    if shares == [] then None
    else if shares[0].id == id then Some(shares[0])
    else
      assert Ids(shares)[1..] == Ids(shares[1..]);
      GetShare(shares[1..], id)
  }

  class ThresholdKeyManager {
    const scheme: Scheme
    var publicKey: Bytes
    var distributedShares: seq<Share>
    var config: SharingConfig
    var recoveryCodes: seq<string>
    var fingerprint: string
    var signatureCount: nat

    ghost var seed: Bytes
    ghost var randoms: seq<seq<byte>>

    /** The manager holds exactly what splitting its seed gives. */
    ghost predicate Valid()
      reads this
    {
      && scheme.Lawful()
      && config.Valid()
      && |seed| == SEED_LENGTH && Coefficients(randoms, |seed|, config)
      && Material(publicKey, distributedShares, recoveryCodes, fingerprint) == MaterialOf(scheme, seed, config, randoms)
    }

    constructor (scheme: Scheme, config: SharingConfig, seed: Bytes, randoms: seq<seq<byte>>)
      requires scheme.Lawful() && config.Valid()
      requires |seed| == SEED_LENGTH && Coefficients(randoms, |seed|, config)
      ensures Valid() && this.scheme == scheme
      ensures this.seed == seed && this.randoms == randoms && this.config == config && signatureCount == 0
      ensures publicKey == scheme.publicKey(seed) && fingerprint == scheme.Fingerprint(scheme.publicKey(seed))
      ensures distributedShares == Split(seed, config, randoms)
      ensures recoveryCodes == GenerateRecoveryCodes(distributedShares)
    {
      hide Split, EncodeShare;
      var publicKey := scheme.publicKey(seed);
      var shares := SplitSecret(seed, config, randoms);
      this.scheme := scheme;
      this.publicKey := publicKey;
      this.distributedShares := shares;
      this.config := config;
      this.recoveryCodes := GenerateRecoveryCodes(shares);
      this.fingerprint := scheme.Fingerprint(publicKey);
      this.signatureCount := 0;
      this.seed, this.randoms := seed, randoms;
    }

    /** Enough ids and enough of them known: the shares' seed signs. Otherwise nothing happens.
        Repeated ids that reach reconstruction make it panic. */
    method SignWithQuorum(shareIds: seq<byte>, message: Bytes) returns (signature: Option<Bytes>)
      requires Valid()
      requires |Found(distributedShares, shareIds)| >= config.threshold ==>
                 Distinct(Ids(Found(distributedShares, shareIds)))
      modifies this`signatureCount
      ensures Valid()
      ensures |Found(distributedShares, shareIds)| >= config.threshold ==> signature == Some(scheme.sign(seed, message))
      ensures |Found(distributedShares, shareIds)| < config.threshold ==> signature == None
      ensures signature.Some? ==> scheme.verify(publicKey, message, signature.value)
      ensures signatureCount == old(signatureCount) + if signature.Some? then 1 else 0
    {
      hide Split, EncodeShare, GenerateRecoveryCodes, Reconstruct;
      if |shareIds| < config.threshold {
        return None;
      }
      var shares := Found(distributedShares, shareIds);
      if |shares| < config.threshold {
        return None;
      }
      QuorumReconstructs(seed, config, randoms, shares);
      var secret := ReconstructSecret(shares);
      signature := scheme.TrySign(secret, message);
      if signature.Some? {
        signatureCount := signatureCount + 1;
      }
    }

    /** A new manager for the key whose shares the codes hold, split anew. The codes must not
        make the parser or the reconstruction panic. */
    static method RecoverFromCodes(scheme: Scheme, codes: seq<string>, config: SharingConfig, randoms: seq<seq<byte>>)
      returns (result: Result<ThresholdKeyManager, RecoveryError>)
      requires scheme.Lawful() && config.Valid() && Coefficients(randoms, SEED_LENGTH, config)
      requires !Recovered(codes).Panicked?
      ensures result.Ok? <==> RecoveredSeed(codes).Ok?
      ensures result.Err? ==> RecoveredSeed(codes) == Err(result.error)
      ensures result.Ok? ==> fresh(result.value) && result.value.Valid() && result.value.scheme == scheme
      ensures result.Ok? ==> RecoveredSeed(codes) == Ok(result.value.seed) && result.value.randoms == randoms
      ensures result.Ok? ==> result.value.config == config && result.value.signatureCount == 0
    {
      hide Split, EncodeShare, Recovered;
      var recovered := RecoveryCodes.RecoverFromCodes(codes);
      match recovered
      case Failed(e) => result := Err(InvalidCode(e));
      case Done(seed) =>
        if |seed| != SEED_LENGTH {
          return Err(InvalidSeedLength);
        }
        var manager := new ThresholdKeyManager(scheme, config, seed, randoms);
        result := Ok(manager);
    }
  }

  /** The seed that recovery rebuilds from codes that do not make it panic. */
  function RecoveredSeed(codes: seq<string>): Result<Bytes, RecoveryError>
    requires !Recovered(codes).Panicked?
  {
    match Recovered(codes)
    case Failed(e) => Err(InvalidCode(e))
    case Done(seed) => if |seed| == SEED_LENGTH then Ok(seed) else Err(InvalidSeedLength)
  }

  /** The shares of ids are found one id after the other. */
  lemma {:induction false} FoundConcat(shares: seq<Share>, a: seq<byte>, b: seq<byte>)
    ensures Found(shares, a + b) == Found(shares, a) + Found(shares, b)
  {
    hide *;
    if a == [] {
      assert a + b == b;
      FoundNone(shares, a);
    } else {
      var first, tail := a[0], a[1..];
      assert a == [first] + tail && a + b == [first] + (tail + b);
      FoundConcat(shares, tail, b);
      FoundCons(shares, first, tail);
      FoundCons(shares, first, tail + b);
      Associative(Found(shares, [first]), Found(shares, tail), Found(shares, b));
    }
  }

  lemma FoundNone(shares: seq<Share>, ids: seq<byte>)
    requires ids == []
    ensures Found(shares, ids) == []
  {}

  lemma FoundCons(shares: seq<Share>, id: byte, rest: seq<byte>)
    ensures Found(shares, [id] + rest) == Found(shares, [id]) + Found(shares, rest)
  {
    hide GetShare;
    FoundStep(shares, [id] + rest);
    FoundStep(shares, [id]);
    FoundNone(shares, [id][1..]);
    hide Found;
    assert ([id] + rest)[1..] == rest;
  }

  lemma Associative<T>(p: seq<T>, q: seq<T>, r: seq<T>)
    ensures p + (q + r) == p + q + r
  {}

  lemma FoundStep(shares: seq<Share>, ids: seq<byte>)
    ensures Found(shares, ids) ==
      if ids == [] then []
      else if GetShare(shares, ids[0]).Some? then [GetShare(shares, ids[0]).value] + Found(shares, ids[1..])
      else Found(shares, ids[1..])
  {
    hide GetShare;
  }

  /** For an id its share is found, and for an unknown id nothing. */
  lemma FoundOne(shares: seq<Share>, id: byte)
    ensures (forall s :: s in shares ==> s.id != id) ==> Found(shares, [id]) == []
    ensures forall s :: s in shares && s.id == id && Distinct(Ids(shares)) ==> Found(shares, [id]) == [s]
  {
    var found := GetShare(shares, id);
    assert Found(shares, [id][1..]) == [];
    if found.None? {
      forall s | s in shares
        ensures s.id != id
      {
        var i :| 0 <= i < |shares| && shares[i] == s;
        assert Ids(shares)[i] == s.id;
      }
    }
    forall s | s in shares && s.id == id && Distinct(Ids(shares))
      ensures Found(shares, [id]) == [s]
    {
      var i :| 0 <= i < |shares| && shares[i] == s;
      assert Ids(shares)[i] == id;
      var j :| 0 <= j < |shares| && shares[j] == found.value;
      assert Ids(shares)[j] == id;
    }
  }

  /** The fingerprint is the first half of the key's digest in lower-case hex. */
  lemma FingerprintForm(scheme: Scheme, key: Bytes, i: nat)
    requires |scheme.digest(key)| == 32 && i < 16
    ensures scheme.Fingerprint(key)[2 * i] == LOWER_DIGITS[scheme.digest(key)[i] as nat / 16]
    ensures scheme.Fingerprint(key)[2 * i + 1] == LOWER_DIGITS[scheme.digest(key)[i] as nat % 16]
  {
    hide HexEncode;
    HexForm(scheme.digest(key)[..16], i);
  }

  /** Distinct ids that all exist are all found, in order. */
  lemma {:induction false} FoundAll(shares: seq<Share>, ids: seq<byte>)
    requires forall id :: id in ids ==> id in Ids(shares)
    ensures Ids(Found(shares, ids)) == ids
  {
    if ids == [] {
    } else {
      hide Found, GetShare;
      FoundAll(shares, ids[1..]);
      FoundStep(shares, ids);
      var rest := Found(shares, ids[1..]);
      var first := GetShare(shares, ids[0]).value;
      hide Ids;
      IdsCons(first, rest);
      assert ids == [ids[0]] + ids[1..];
    }
  }

  lemma IdsCons(first: Share, rest: seq<Share>)
    ensures Ids([first] + rest) == [first.id] + Ids(rest)
  {}

  /** Distinct codes of a split stand for distinct shares of it. */
  lemma CodesStandForShares(shares: seq<Share>, codes: seq<string>) returns (quorum: seq<Share>)
    requires Distinct(codes)
    requires forall c :: c in codes ==> c in GenerateRecoveryCodes(shares)
    ensures codes == GenerateRecoveryCodes(quorum)
    ensures Distinct(quorum) && forall s :: s in quorum ==> s in shares
  {
    hide EncodeShare;
    quorum := [];
    for i := 0 to |codes|
      invariant |quorum| == i
      invariant forall k :: 0 <= k < i ==> quorum[k] in shares && codes[k] == EncodeShare(quorum[k])
    {
      assert codes[i] in GenerateRecoveryCodes(shares);
      var k :| 0 <= k < |shares| && codes[i] == EncodeShare(shares[k]);
      quorum := quorum + [shares[k]];
    }
  }

  /** Recovery preserves the key: at least the old threshold of distinct codes, and any new
      scheme of sharing, give back the same seed. */
  lemma RecoveryPreservesSeed(scheme: Scheme, seed: Bytes, config: SharingConfig, randoms: seq<seq<byte>>,
                              codes: seq<string>)
    requires scheme.Lawful() && config.Valid()
    requires |seed| == SEED_LENGTH && Coefficients(randoms, |seed|, config)
    requires Distinct(codes) && |codes| >= config.threshold
    requires forall c :: c in codes ==> c in MaterialOf(scheme, seed, config, randoms).codes
    ensures Recovered(codes).Done?
    ensures RecoveredSeed(codes) == Ok(seed)
  {
    hide Split, EncodeShare, Recovered, GenerateRecoveryCodes;
    var quorum := CodesStandForShares(Split(seed, config, randoms), codes);
    CodesRecoverSecret(seed, config, randoms, quorum);
  }

  /** After recovery under any new (t', n'): the same public key and fingerprint, and every
      quorum of the new manager signs as every quorum of the old one does. */
  lemma RecoveredManagerSignsAlike(scheme: Scheme, seed: Bytes, config: SharingConfig, randoms: seq<seq<byte>>,
                                   codes: seq<string>, config': SharingConfig, randoms': seq<seq<byte>>,
                                   ids: seq<byte>, ids': seq<byte>, message: Bytes)
    requires scheme.Lawful() && config.Valid() && config'.Valid() && |seed| == SEED_LENGTH
    requires Coefficients(randoms, |seed|, config) && Coefficients(randoms', |seed|, config')
    requires Distinct(codes) && |codes| >= config.threshold
    requires forall c :: c in codes ==> c in MaterialOf(scheme, seed, config, randoms).codes
    requires IsQuorum(MaterialOf(scheme, seed, config, randoms).shares, config, ids)
    requires IsQuorum(MaterialOf(scheme, seed, config', randoms').shares, config', ids')
    ensures Recovered(codes).Done? && RecoveredSeed(codes).Ok?
    ensures
      var before := MaterialOf(scheme, seed, config, randoms);
      var after := MaterialOf(scheme, RecoveredSeed(codes).value, config', randoms');
      && after.publicKey == before.publicKey && after.fingerprint == before.fingerprint
      && QuorumSignature(scheme, after.shares, ids', message) == QuorumSignature(scheme, before.shares, ids, message)
      && QuorumSignature(scheme, after.shares, ids', message).Some?
      && scheme.verify(before.publicKey, message, QuorumSignature(scheme, after.shares, ids', message).value)
  {
    hide Split, EncodeShare, Recovered, GenerateRecoveryCodes, RecoveredSeed, Found;
    RecoveryPreservesSeed(scheme, seed, config, randoms, codes);
    QuorumSigns(scheme, seed, config, randoms, ids, message);
    QuorumSigns(scheme, seed, config', randoms', ids', message);
  }

  /** At least a threshold of distinct ids, all of them handed out. */
  predicate IsQuorum(shares: seq<Share>, config: SharingConfig, ids: seq<byte>) {
    |ids| >= config.threshold && Distinct(ids) && forall id :: id in ids ==> id in Ids(shares)
  }

  /** The signature that reconstructing from the shares of the given ids makes, if they can be. */
  function QuorumSignature(scheme: Scheme, shares: seq<Share>, ids: seq<byte>, message: Bytes): Option<Bytes> {
    var found := Found(shares, ids);
    if Reconstructible(found) then scheme.TrySign(Reconstruct(found), message) else None
  }

  lemma QuorumSigns(scheme: Scheme, seed: Bytes, config: SharingConfig, randoms: seq<seq<byte>>, ids: seq<byte>,
                    message: Bytes)
    requires scheme.Lawful() && config.Valid()
    requires |seed| == SEED_LENGTH && Coefficients(randoms, |seed|, config)
    requires IsQuorum(Split(seed, config, randoms), config, ids)
    ensures QuorumSignature(scheme, Split(seed, config, randoms), ids, message) == Some(scheme.sign(seed, message))
    ensures scheme.verify(scheme.publicKey(seed), message, scheme.sign(seed, message))
  {
    hide Split, Found, Reconstruct;
    var shares := Split(seed, config, randoms);
    FoundAll(shares, ids);
    QuorumReconstructs(seed, config, randoms, Found(shares, ids));
  }
}
