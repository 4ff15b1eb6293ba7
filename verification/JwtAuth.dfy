/**
 Tokens signed with the current key and verified by key id, crates/pqc-proxy/src/jwt_auth.rs:63-161,
 over the runs of the key manager. JSON and base64url are function values with their laws.
 */
module JwtAuth {
  import opened Wrappers
  import opened Crypto
  import opened VersionedKeys

  datatype JwtHeader = JwtHeader(alg: string, typ: string, kid: string)

  datatype JwtClaims = JwtClaims(
    sub: string, iss: string, aud: string, exp: nat, iat: nat, jti: string, roles: seq<string>, kid: string,
    alg: string)

  datatype JwtError =
    | MalformedToken
    | UnsupportedAlgorithm(alg: string)
    | InvalidSignature
    | Expired
    | InvalidIssuer
    | InvalidAudience

  datatype Codec = Codec(
    utf8: string -> Bytes,
    base64: Bytes -> string,
    unbase64: string -> Option<Bytes>,
    headerJson: JwtHeader -> Bytes,
    parseHeader: Bytes -> Option<JwtHeader>,
    claimsJson: JwtClaims -> Bytes,
    parseClaims: Bytes -> Option<JwtClaims>
  ) {
    ghost predicate Lawful() {
      && (forall b {:trigger base64(b)} :: unbase64(base64(b)) == Some(b) && '.' !in base64(b))
      && (forall h {:trigger headerJson(h)} :: parseHeader(headerJson(h)) == Some(h))
      && (forall c {:trigger claimsJson(c)} :: parseClaims(claimsJson(c)) == Some(c))
    }
  }

  const ALGORITHM: string := "ML-DSA-65"

  /** The pieces of s between the occurrences of c. */
  function SplitOn(s: string, c: char): (parts: seq<string>)
    ensures parts != []
  {
    if s == "" then [""]
    else
      var rest := SplitOn(s[1..], c);
      if s[0] == c then [""] + rest else [[s[0]] + rest[0]] + rest[1..]
  }

  /** What a token is issued for. */
  datatype Request = Request(sub: string, roles: seq<string>, issuer: string, audience: string, ttl: nat,
                             jti: string, now: nat)

  function ClaimsFor(request: Request, kid: string): JwtClaims {
    JwtClaims(request.sub, request.issuer, request.audience, request.now + request.ttl, request.now, request.jti,
              request.roles, kid, ALGORITHM)
  }

  function SigningInput(codec: Codec, request: Request, kid: string): string {
    codec.base64(codec.headerJson(JwtHeader(ALGORITHM, "JWT", kid))) + "."
      + codec.base64(codec.claimsJson(ClaimsFor(request, kid)))
  }

  /** Reading the current key id and signing are two calls, so two states of the manager. */
  function CreateJwt(scheme: Scheme, codec: Codec, atRead: ManagerState, atSign: ManagerState,
                     request: Request): Option<string> {
    var input := SigningInput(codec, request, atRead.currentKid);
    match SignedWithCurrent(scheme, atSign, codec.utf8(input))
    case None => None
    case Some((_, signature)) => Some(input + "." + codec.base64(signature))
  }

  function VerifyJwt(scheme: Scheme, codec: Codec, s: ManagerState, token: string, issuer: string, audience: string,
                     now: nat)
    : Result<JwtClaims, JwtError>
  {
    var parts := SplitOn(token, '.');
    if |parts| != 3 then Err(MalformedToken)
    else
      var headerBytes, claimsBytes := codec.unbase64(parts[0]), codec.unbase64(parts[1]);
      var signature := codec.unbase64(parts[2]);
      if headerBytes.None? || claimsBytes.None? || signature.None? then Err(MalformedToken)
      else
        var header, claims := codec.parseHeader(headerBytes.value), codec.parseClaims(claimsBytes.value);
        if header.None? || claims.None? then Err(MalformedToken)
        else if header.value.alg != ALGORITHM then Err(UnsupportedAlgorithm(header.value.alg))
        else if !VerifiedByKid(scheme, s, header.value.kid, codec.utf8(parts[0] + "." + parts[1]), signature.value) then
          Err(InvalidSignature)
        else if claims.value.exp < now then Err(Expired)
        else if claims.value.iss != issuer then Err(InvalidIssuer)
        else if claims.value.aud != audience then Err(InvalidAudience)
        else Ok(claims.value)
  }

  // ----- Decoding a token -----

  lemma {:induction false} SplitNone(s: string, c: char)
    requires c !in s
    ensures SplitOn(s, c) == [s]
  {
    if s == "" {
    } else {
      SplitNone(s[1..], c);
      assert [s[0]] + s[1..] == s;
    }
  }

  lemma {:induction false} SplitFirst(a: string, rest: string, c: char)
    requires c !in a
    ensures SplitOn(a + [c] + rest, c) == [a] + SplitOn(rest, c)
  {
    var s := a + [c] + rest;
    if a == "" {
      assert s[1..] == rest;
    } else {
      assert s[1..] == a[1..] + [c] + rest;
      SplitFirst(a[1..], rest, c);
      assert [a[0]] + a[1..] == a;
    }
  }

  lemma SplitThree(a: string, b: string, d: string)
    requires '.' !in a && '.' !in b && '.' !in d
    ensures SplitOn(a + "." + b + "." + d, '.') == [a, b, d]
  {
    hide SplitOn;
    assert a + "." + b + "." + d == a + ['.'] + (b + ['.'] + d);
    SplitFirst(a, b + ['.'] + d, '.');
    SplitFirst(b, d, '.');
    SplitNone(d, '.');
  }

  /** A token that was put together by `CreateJwt` is judged on its key id, then on its claims. */
  lemma IssuedTokenOutcome(scheme: Scheme, codec: Codec, s: ManagerState, request: Request, kid: string,
                           signature: Bytes, issuer: string, audience: string, now: nat)
    requires codec.Lawful()
    ensures
      var input := SigningInput(codec, request, kid);
      VerifyJwt(scheme, codec, s, input + "." + codec.base64(signature), issuer, audience, now) ==
      if !VerifiedByKid(scheme, s, kid, codec.utf8(input), signature) then Err(InvalidSignature)
      else ClaimsOutcome(ClaimsFor(request, kid), issuer, audience, now)
  {
    hide SplitOn;
    var header, claims := JwtHeader(ALGORITHM, "JWT", kid), ClaimsFor(request, kid);
    SplitThree(codec.base64(codec.headerJson(header)), codec.base64(codec.claimsJson(claims)), codec.base64(signature));
  }

  /** The checks on the claims, in their order. */
  function ClaimsOutcome(claims: JwtClaims, issuer: string, audience: string, now: nat): Result<JwtClaims, JwtError> {
    if claims.exp < now then Err(Expired)
    else if claims.iss != issuer then Err(InvalidIssuer)
    else if claims.aud != audience then Err(InvalidAudience)
    else Ok(claims)
  }

  // ----- Every token -----

  /** The pieces joined with c between them. */
  function Joined(parts: seq<string>, c: char): string
    requires parts != []
  {
    if |parts| == 1 then parts[0] else parts[0] + [c] + Joined(parts[1..], c)
  }

  /** Splitting loses nothing and leaves no separator in a piece. */
  lemma {:induction false} SplitJoins(s: string, c: char)
    ensures Joined(SplitOn(s, c), c) == s
    ensures forall part :: part in SplitOn(s, c) ==> c !in part
  {
    if s == "" {
    } else {
      SplitJoins(s[1..], c);
      var rest := SplitOn(s[1..], c);
      assert s == [s[0]] + s[1..];
      if s[0] == c {
        assert SplitOn(s, c)[1..] == rest;
      } else {
        assert SplitOn(s, c)[1..] == rest[1..];
        assert forall part :: part in SplitOn(s, c) ==> part == [s[0]] + rest[0] || part in rest;
      }
    }
  }

  /** The three texts of a token. */
  predicate IsToken(token: string, h: string, p: string, g: string) {
    token == h + "." + p + "." + g && '.' !in h && '.' !in p && '.' !in g
  }

  lemma TokenSplits(token: string, h: string, p: string, g: string)
    ensures IsToken(token, h, p, g) <==> SplitOn(token, '.') == [h, p, g]
  {
    hide SplitOn;
    if IsToken(token, h, p, g) {
      SplitThree(h, p, g);
    }
    if SplitOn(token, '.') == [h, p, g] {
      SplitJoins(token, '.');
      var parts := [h, p, g];
      assert h in parts && p in parts && g in parts;
      var tail := parts[1..];
      assert tail == [p, g] && tail[1..] == [g];
      assert Joined(tail[1..], '.') == g;
      assert Joined(tail, '.') == p + ['.'] + g;
      assert Joined(parts, '.') == h + ['.'] + (p + ['.'] + g);
    }
  }

  /** All three texts decode: to a header, to claims and to a signature. */
  predicate Decodes(codec: Codec, h: string, p: string, g: string, header: JwtHeader, claims: JwtClaims,
                    signature: Bytes) {
    && codec.unbase64(h).Some? && codec.parseHeader(codec.unbase64(h).value) == Some(header)
    && codec.unbase64(p).Some? && codec.parseClaims(codec.unbase64(p).value) == Some(claims)
    && codec.unbase64(g) == Some(signature)
  }

  /** What verification promises of a token and the claims it accepts: it has three texts that decode,
      the header names the one algorithm and a key that is held, that key verifies the signature
      over the first two texts as they are, and the claims have not expired and are for the issuer
      and audience asked for. */
  ghost predicate Authentic(scheme: Scheme, codec: Codec, s: ManagerState, token: string, issuer: string,
                            audience: string, now: nat, claims: JwtClaims) {
    exists h, p, g, header, signature ::
      && IsToken(token, h, p, g) && Decodes(codec, h, p, g, header, claims, signature)
      && header.alg == "ML-DSA-65" && header.kid in s.keys
      && scheme.verify(s.keys[header.kid].publicKey, codec.utf8(h + "." + p), signature)
      && now <= claims.exp && claims.iss == issuer && claims.aud == audience
  }

  /** For every text whatever: it is accepted with these claims if and only if it is authentic. */
  lemma VerifyJwtIff(scheme: Scheme, codec: Codec, s: ManagerState, token: string, issuer: string, audience: string,
                     now: nat, claims: JwtClaims)
    ensures VerifyJwt(scheme, codec, s, token, issuer, audience, now) == Ok(claims)
      <==> Authentic(scheme, codec, s, token, issuer, audience, now, claims)
  {
    hide SplitOn;
    if VerifyJwt(scheme, codec, s, token, issuer, audience, now) == Ok(claims) {
      var parts := SplitOn(token, '.');
      var h, p, g := parts[0], parts[1], parts[2];
      assert parts == [h, p, g];
      TokenSplits(token, h, p, g);
      hide IsToken;
      var header, signature := codec.parseHeader(codec.unbase64(h).value).value, codec.unbase64(g).value;
      assert Decodes(codec, h, p, g, header, claims, signature);
    }
    if Authentic(scheme, codec, s, token, issuer, audience, now, claims) {
      var h, p, g, header, signature :|
        && IsToken(token, h, p, g) && Decodes(codec, h, p, g, header, claims, signature)
        && header.alg == "ML-DSA-65" && header.kid in s.keys
        && scheme.verify(s.keys[header.kid].publicKey, codec.utf8(h + "." + p), signature)
        && now <= claims.exp && claims.iss == issuer && claims.aud == audience;
      TokenSplits(token, h, p, g);
    }
  }

  /** Otherwise the first failed check decides the error: a text that is no three parts or does not
      decode is malformed. */
  lemma MalformedIff(scheme: Scheme, codec: Codec, s: ManagerState, token: string, issuer: string, audience: string,
                     now: nat)
    ensures VerifyJwt(scheme, codec, s, token, issuer, audience, now) == Err(MalformedToken)
      <==> !exists h, p, g, header, claims, signature ::
             IsToken(token, h, p, g) && Decodes(codec, h, p, g, header, claims, signature)
  {
    hide SplitOn, VerifiedByKid;
    if VerifyJwt(scheme, codec, s, token, issuer, audience, now) != Err(MalformedToken) {
      var parts := SplitOn(token, '.');
      var h, p, g := parts[0], parts[1], parts[2];
      assert parts == [h, p, g];
      TokenSplits(token, h, p, g);
      hide IsToken;
      assert Decodes(codec, h, p, g, codec.parseHeader(codec.unbase64(h).value).value,
                     codec.parseClaims(codec.unbase64(p).value).value, codec.unbase64(g).value);
    } else {
      forall h, p, g, header, claims, signature
        ensures !(IsToken(token, h, p, g) && Decodes(codec, h, p, g, header, claims, signature))
      {
        TokenSplits(token, h, p, g);
      }
    }
  }

  /** And a decoded token is refused for its algorithm, then its signature, then its expiry, then its
      issuer, then its audience. */
  lemma RefusedFor(scheme: Scheme, codec: Codec, s: ManagerState, token: string, h: string, p: string, g: string,
                   header: JwtHeader, claims: JwtClaims, signature: Bytes, issuer: string, audience: string, now: nat)
    requires IsToken(token, h, p, g) && Decodes(codec, h, p, g, header, claims, signature)
    ensures
      var result := VerifyJwt(scheme, codec, s, token, issuer, audience, now);
      var signed := header.kid in s.keys
                    && scheme.verify(s.keys[header.kid].publicKey, codec.utf8(h + "." + p), signature);
      && (result == Err(UnsupportedAlgorithm(header.alg)) <==> header.alg != "ML-DSA-65")
      && (result == Err(InvalidSignature) <==> header.alg == "ML-DSA-65" && !signed)
      && (result == Err(Expired) <==> header.alg == "ML-DSA-65" && signed && claims.exp < now)
      && (result == Err(InvalidIssuer) <==>
            header.alg == "ML-DSA-65" && signed && now <= claims.exp && claims.iss != issuer)
      && (result == Err(InvalidAudience) <==>
            header.alg == "ML-DSA-65" && signed && now <= claims.exp && claims.iss == issuer && claims.aud != audience)
  {
    hide SplitOn;
    TokenSplits(token, h, p, g);
  }

  // ----- Tokens outlive rotations -----

  /** Issued without a rotation in between, a token is decoded to its claims, up to and
      including its expiry time, for exactly maxRetained rotations; after more, its signature
      is rejected whatever else holds. */
  lemma TokenLifetime(scheme: Scheme, codec: Codec, start: ManagerState, rotations: seq<Rotation>, request: Request,
                      issuer: string, audience: string, now: nat)
    requires codec.Lawful() && Invariant(scheme, start)
    requires forall r :: r in rotations ==> r.Fits(start.thresholdConfig)
    ensures CreateJwt(scheme, codec, start, start, request).Some?
    ensures
      var token := CreateJwt(scheme, codec, start, start, request).value;
      VerifyJwt(scheme, codec, Run(scheme, start, rotations), token, issuer, audience, now) ==
      if |rotations| > start.maxRetained then Err(InvalidSignature)
      else ClaimsOutcome(ClaimsFor(request, start.currentKid), issuer, audience, now)
  {
    hide Run, VerifyJwt, SigningInput, Holds, OnlyActive, SharesOfCurrentKey, Kid;
    var kid, s := start.currentKid, Run(scheme, start, rotations);
    var input := SigningInput(codec, request, kid);
    var data := codec.utf8(input);
    var signature := scheme.sign(start.keys[kid].seed, data);
    assert WellFormed(scheme, start.keys[kid]);
    assert CreateJwt(scheme, codec, start, start, request) == Some(input + "." + codec.base64(signature));
    Retention(scheme, start, rotations, kid);
    IssuedTokenOutcome(scheme, codec, s, request, kid, signature, issuer, audience, now);
  }

  /** A rotation between reading the key id and signing: the token names the old key but carries
      a signature of the new one, so its fate hangs on the old key accepting that signature. */
  lemma RacedIssuance(scheme: Scheme, codec: Codec, start: ManagerState, between: seq<Rotation>, later: seq<Rotation>,
                      request: Request, issuer: string, audience: string, now: nat)
    requires codec.Lawful() && Invariant(scheme, start) && between != []
    requires forall r :: r in between ==> r.Fits(start.thresholdConfig)
    requires forall r :: r in later ==> r.Fits(start.thresholdConfig)
    ensures CreateJwt(scheme, codec, start, Run(scheme, start, between), request).Some?
    ensures
      var atSign := Run(scheme, start, between);
      var token := CreateJwt(scheme, codec, start, atSign, request).value;
      var data := codec.utf8(SigningInput(codec, request, start.currentKid));
      var foreign := scheme.sign(atSign.keys[atSign.currentKid].seed, data);
      VerifyJwt(scheme, codec, Run(scheme, atSign, later), token, issuer, audience, now) ==
      if || |between| + |later| > start.maxRetained
         || !scheme.verify(start.keys[start.currentKid].publicKey, data, foreign)
      then Err(InvalidSignature)
      else ClaimsOutcome(ClaimsFor(request, start.currentKid), issuer, audience, now)
  {
    hide Run, VerifyJwt, SigningInput, OnlyActive, SharesOfCurrentKey, Kid;
    var kid, atSign := start.currentKid, Run(scheme, start, between);
    var s := Run(scheme, atSign, later);
    var input := SigningInput(codec, request, kid);
    var data := codec.utf8(input);
    assert WellFormed(scheme, atSign.keys[atSign.currentKid]);
    var signature := scheme.sign(atSign.keys[atSign.currentKid].seed, data);
    assert CreateJwt(scheme, codec, start, atSign, request) == Some(input + "." + codec.base64(signature));
    RunConcat(scheme, start, between, later);
    Retention(scheme, start, between + later, kid);
    IssuedTokenOutcome(scheme, codec, s, request, kid, signature, issuer, audience, now);
  }

  lemma {:induction false} RunConcat(scheme: Scheme, s: ManagerState, first: seq<Rotation>, second: seq<Rotation>)
    requires Invariant(scheme, s)
    requires forall r :: r in first ==> r.Fits(s.thresholdConfig)
    requires forall r :: r in second ==> r.Fits(s.thresholdConfig)
    ensures Run(scheme, Run(scheme, s, first), second) == Run(scheme, s, first + second)
  {
    hide Invariant, Rotated, Rotation.Fits;
    if second == [] {
      assert first + second == first;
    } else {
      var n := |second| - 1;
      RunConcat(scheme, s, first, second[..n]);
      assert (first + second)[..|first| + n] == first + second[..n];
    }
  }

  /** A token says what it was issued for, and is accepted under the issuer and audience it was issued
      with until its time to live has passed. */
  lemma IssuedTokenAccepted(scheme: Scheme, codec: Codec, s: ManagerState, request: Request, now: nat)
    requires codec.Lawful() && Invariant(scheme, s)
    ensures CreateJwt(scheme, codec, s, s, request).Some?
    ensures
      var token := CreateJwt(scheme, codec, s, s, request).value;
      var result := VerifyJwt(scheme, codec, s, token, request.issuer, request.audience, now);
      && (result.Ok? <==> now <= request.now + request.ttl)
      && (result.Err? ==> result.error == Expired)
      && (result.Ok? ==>
            && result.value.sub == request.sub && result.value.roles == request.roles
            && result.value.iss == request.issuer && result.value.aud == request.audience
            && result.value.iat == request.now && result.value.exp == request.now + request.ttl
            && result.value.jti == request.jti && result.value.kid == s.currentKid
            && result.value.alg == "ML-DSA-65")
  {
    hide VerifyJwt, CreateJwt, Invariant;
    TokenLifetime(scheme, codec, s, [], request, request.issuer, request.audience, now);
  }

  /** The header of an issued token. */
  lemma IssuedHeader(scheme: Scheme, codec: Codec, atRead: ManagerState, atSign: ManagerState, request: Request,
                     token: string)
    requires codec.Lawful() && CreateJwt(scheme, codec, atRead, atSign, request) == Some(token)
    ensures exists h, p, g, claims, signature ::
      && IsToken(token, h, p, g)
      && Decodes(codec, h, p, g, JwtHeader("ML-DSA-65", "JWT", atRead.currentKid), claims, signature)
  {
    var header, claims := JwtHeader(ALGORITHM, "JWT", atRead.currentKid), ClaimsFor(request, atRead.currentKid);
    var input := SigningInput(codec, request, atRead.currentKid);
    var signature := SignedWithCurrent(scheme, atSign, codec.utf8(input)).value.1;
    var h, p := codec.base64(codec.headerJson(header)), codec.base64(codec.claimsJson(claims));
    var g := codec.base64(signature);
    assert IsToken(token, h, p, g);
    assert Decodes(codec, h, p, g, header, claims, signature);
  }
}
