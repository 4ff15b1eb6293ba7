/**
 Shamir secret sharing, crates/pqc-tls/src/threshold.rs: splitting, reconstruction, and what
 fewer shares than the threshold leave undetermined. Randomness is a parameter: one vector
 of threshold - 1 coefficients for each byte of the secret.
 */
module Threshold {
  import opened Wrappers
  import opened Gf256
  import opened Polynomials

  datatype Share = Share(id: byte, data: seq<byte>)

  datatype SharingConfig = SharingConfig(threshold: nat, totalShares: nat) {
    /** What the constructor's assertions and the u8 fields guarantee. */
    predicate Valid() {
      2 <= threshold <= totalShares <= 255
    }

    /** The constructor, on numbers that fit in a byte; None where it panics. Exactly the valid
        configurations can be made. */
    static function New(threshold: nat, totalShares: nat): (config: Option<SharingConfig>)
      requires threshold < 256 && totalShares < 256
      ensures config.Some? <==> threshold >= 2 && totalShares >= threshold
      ensures config.Some? <==> SharingConfig(threshold, totalShares).Valid()
      ensures config.Some? ==> config.value.threshold == threshold && config.value.totalShares == totalShares
    {
      if threshold < 2 then None
      else if totalShares < threshold then None
      else Some(SharingConfig(threshold, totalShares))
    }
  }

  /** The coefficients the random generator supplies for a secret of length n. */
  predicate Coefficients(randoms: seq<seq<byte>>, n: nat, config: SharingConfig) {
    |randoms| == n && forall b :: 0 <= b < n ==> |randoms[b]| + 1 == config.threshold
  }

  // ----- Specification of splitting and reconstruction -----

  function SplitAt(secret: seq<byte>, randoms: seq<seq<byte>>, id: byte): (s: Share)
    requires |randoms| == |secret|
    ensures s.id == id && |s.data| == |secret|
    ensures forall b :: 0 <= b < |secret| ==> s.data[b] == Eval([secret[b]] + randoms[b], id)
  {
    Share(id, seq(|secret|, b requires 0 <= b < |secret| => Eval([secret[b]] + randoms[b], id)))
  }

  function Split(secret: seq<byte>, config: SharingConfig, randoms: seq<seq<byte>>): (shares: seq<Share>)
    requires config.Valid() && |randoms| == |secret|
    ensures |shares| == config.totalShares
    ensures forall i :: 0 <= i < |shares| ==> shares[i] == SplitAt(secret, randoms, ByteOf(i + 1))
  {
    seq(config.totalShares, i requires 0 <= i < config.totalShares => SplitAt(secret, randoms, ByteOf(i + 1)))
  }

  function Ids(shares: seq<Share>): (xs: seq<byte>)
    ensures |xs| == |shares|
    ensures forall i :: 0 <= i < |shares| ==> xs[i] == shares[i].id
  {
    seq(|shares|, i requires 0 <= i < |shares| => shares[i].id)
  }

  /** What reconstruction asserts or would panic on: some share, equal lengths, and distinct ids
      unless there is no byte to interpolate. */
  predicate Reconstructible(shares: seq<Share>) {
    && shares != []
    && (forall i :: 0 <= i < |shares| ==> |shares[i].data| == |shares[0].data|)
    && (shares[0].data != [] ==> Distinct(Ids(shares)))
  }

  function Column(shares: seq<Share>, b: nat): (ys: seq<byte>)
    requires forall i :: 0 <= i < |shares| ==> b < |shares[i].data|
    ensures |ys| == |shares|
    ensures forall i :: 0 <= i < |shares| ==> ys[i] == shares[i].data[b]
  {
    seq(|shares|, i requires 0 <= i < |shares| => shares[i].data[b])
  }

  function ReconstructByte(shares: seq<Share>, b: nat): byte
    requires Reconstructible(shares) && b < |shares[0].data|
  {
    LagrangeSum(Ids(shares), Column(shares, b), 0, |shares|)
  }

  function Reconstruct(shares: seq<Share>): (secret: seq<byte>)
    requires Reconstructible(shares)
    ensures |secret| == |shares[0].data|
    ensures forall b :: 0 <= b < |secret| ==> secret[b] == ReconstructByte(shares, b)
  {
    seq(|shares[0].data|, b requires 0 <= b < |shares[0].data| => ReconstructByte(shares, b))
  }

  function Xs(points: seq<(byte, byte)>): (xs: seq<byte>)
    ensures |xs| == |points|
    ensures forall i :: 0 <= i < |points| ==> xs[i] == points[i].0
  {
    seq(|points|, i requires 0 <= i < |points| => points[i].0)
  }

  function Ys(points: seq<(byte, byte)>): (ys: seq<byte>)
    ensures |ys| == |points|
    ensures forall i :: 0 <= i < |points| ==> ys[i] == points[i].1
  {
    seq(|points|, i requires 0 <= i < |points| => points[i].1)
  }

  // ----- The loops -----

  /** Lagrange interpolation at zero; subtraction is xor, so 0 - x_j is x_j. */
  method LagrangeInterpolateZero(points: seq<(byte, byte)>) returns (result: byte)
    requires Distinct(Xs(points))
    ensures result == LagrangeSum(Xs(points), Ys(points), 0, |points|)
  {
    hide Add, Mul, Inv, Prod;
    ghost var xs, ys := Xs(points), Ys(points);
    result := 0;
    for i := 0 to |points|
      invariant result == LagrangeSum(xs, ys, 0, i)
    {
      var (xi, yi) := points[i];
      var numerator, denominator := BasisProducts(points, i);
      DenominatorNonZero(xs, i);
      var inverse := InvLoop(denominator);
      var coefficient := MulLoop(numerator, inverse);
      var term := MulLoop(yi, coefficient);
      XorIsAdd(result, term);
      result := result ^ term;
    }
  }

  /** The inner loop: the products over all points but the i-th. */
  method BasisProducts(points: seq<(byte, byte)>, i: nat) returns (numerator: byte, denominator: byte)
    requires i < |points|
    ensures numerator == Prod(Without(Xs(points), i), 0)
    ensures denominator == Prod(Without(Xs(points), i), points[i].0)
  {
    hide Add, Mul, Prod, Without;
    ghost var xs := Xs(points);
    var xi := points[i].0;
    numerator, denominator := 1, 1;
    ProdEmpty(0); ProdEmpty(xi);
    OthersSteps(xs, i, 0);
    for j := 0 to |points|
      invariant numerator == Prod(Others(xs, i, j), 0)
      invariant denominator == Prod(Others(xs, i, j), xi)
    {
      OthersSteps(xs, i, j);
      if i != j {
        var xj := points[j].0;
        ProdAppend(Others(xs, i, j), xj, 0); ProdAppend(Others(xs, i, j), xj, xi);
        AddZero(xj); XorIsAdd(xi, xj);
        numerator := MulLoop(numerator, xj);
        denominator := MulLoop(denominator, xi ^ xj);
      }
    }
    OthersSteps(xs, i, |points|);
  }

  /** The first j elements of s, leaving out the i-th. */
  ghost function Others<T>(s: seq<T>, i: nat, j: nat): seq<T>
    requires i < |s| && j <= |s|
  {
    if j <= i then s[..j] else s[..i] + s[i + 1..j]
  }

  lemma OthersSteps<T>(s: seq<T>, i: nat, j: nat)
    requires i < |s| && j <= |s|
    ensures j == 0 ==> Others(s, i, j) == []
    ensures j < |s| ==> Others(s, i, j + 1) == if i == j then Others(s, i, j) else Others(s, i, j) + [s[j]]
    ensures j == |s| ==> Others(s, i, j) == Without(s, i)
  {}

  method SplitSecret(secret: seq<byte>, config: SharingConfig, randoms: seq<seq<byte>>)
    returns (shares: seq<Share>)
    requires secret != [] && config.Valid() && Coefficients(randoms, |secret|, config)
    ensures shares == Split(secret, config, randoms)
  {
    hide Eval, ByteOf;
    shares := [];
    var id := 1;
    while id <= config.totalShares
      invariant 1 <= id <= config.totalShares + 1 && |shares| == id - 1
      invariant forall i :: 0 <= i < |shares| ==> shares[i] == Share(ByteOf(i + 1), [])
    {
      shares := shares + [Share(ByteOf(id), [])];
      id := id + 1;
    }
    for b := 0 to |secret|
      invariant |shares| == config.totalShares
      invariant forall i :: 0 <= i < |shares| ==>
        shares[i] == SplitAt(secret[..b], randoms[..b], ByteOf(i + 1))
    {
      var coeffs := [secret[b]] + randoms[b];
      for k := 0 to |shares|
        invariant |shares| == config.totalShares
        invariant forall i :: 0 <= i < k ==> shares[i] == SplitAt(secret[..b + 1], randoms[..b + 1], ByteOf(i + 1))
        invariant forall i :: k <= i < |shares| ==> shares[i] == SplitAt(secret[..b], randoms[..b], ByteOf(i + 1))
      {
        var y := EvalLoop(coeffs, shares[k].id);
        SplitAtAppend(secret, randoms, b, shares[k].id);
        shares := shares[k := shares[k].(data := shares[k].data + [y])];
      }
    }
    assert secret[..|secret|] == secret && randoms[..|secret|] == randoms;
  }

  lemma SplitAtAppend(secret: seq<byte>, randoms: seq<seq<byte>>, b: nat, id: byte)
    requires b < |secret| == |randoms|
    ensures SplitAt(secret[..b + 1], randoms[..b + 1], id)
      == Share(id, SplitAt(secret[..b], randoms[..b], id).data + [Eval([secret[b]] + randoms[b], id)])
  {
    hide Eval;
  }

  method ReconstructSecret(shares: seq<Share>) returns (secret: seq<byte>)
    requires Reconstructible(shares)
    ensures secret == Reconstruct(shares)
  {
    hide LagrangeSum;
    var secretLen := |shares[0].data|;
    secret := [];
    for b := 0 to secretLen
      invariant |secret| == b
      invariant forall k :: 0 <= k < b ==> secret[k] == ReconstructByte(shares, k)
    {
      var points := seq(|shares|, i requires 0 <= i < |shares| => (shares[i].id, shares[i].data[b]));
      assert Xs(points) == Ids(shares) && Ys(points) == Column(shares, b);
      var value := LagrangeInterpolateZero(points);
      secret := secret + [value];
    }
  }

  lemma ProdEmpty(x: byte)
    ensures Prod([], x) == 1
  {}

  lemma DenominatorNonZero(xs: seq<byte>, i: nat)
    requires Distinct(xs) && i < |xs|
    ensures Prod(Without(xs, i), xs[i]) != 0
  {
    hide Prod;
    WithoutContains(xs, i, i);
    ProdZero(Without(xs, i), xs[i]);
  }

  /** No denominator vanishes if and only if the points are distinct: exactly the inputs on
      which the inverse of zero, and with it the source's assertion, is never reached. */
  lemma InverseDefinedIffDistinct(xs: seq<byte>)
    ensures (forall i :: 0 <= i < |xs| ==> Prod(Without(xs, i), xs[i]) != 0) <==> Distinct(xs)
  {
    hide Prod;
    if Distinct(xs) {
      forall i | 0 <= i < |xs| { DenominatorNonZero(xs, i); }
    } else {
      var i, j :| 0 <= i < j < |xs| && xs[i] == xs[j];
      assert Without(xs, i)[j - 1] == xs[j];
      ProdZero(Without(xs, i), xs[i]);
    }
  }

  // ----- Any threshold of shares rebuilds the secret -----

  lemma EvalAtZero(p: seq<byte>)
    requires p != []
    ensures Eval(p, 0) == p[0]
  {
    hide Add, Mul;
    MulZeroLeft(Eval(p[1..], 0)); AddZero(p[0]);
  }

  lemma ReconstructsByte(secret: seq<byte>, randoms: seq<seq<byte>>, config: SharingConfig, quorum: seq<Share>, b: nat)
    requires config.Valid() && Coefficients(randoms, |secret|, config)
    requires Reconstructible(quorum) && |quorum| >= config.threshold
    requires forall k :: 0 <= k < |quorum| ==> quorum[k] == SplitAt(secret, randoms, quorum[k].id)
    requires b < |secret| == |quorum[0].data|
    ensures ReconstructByte(quorum, b) == secret[b]
  {
    hide Eval, LagrangeSum;
    var p := [secret[b]] + randoms[b];
    assert Column(quorum, b) == Evals(p, Ids(quorum));
    LagrangeCorrect(p, Ids(quorum), 0);
    EvalAtZero(p);
  }

  /** Main theorem: any t or more shares with distinct ids rebuild the secret. */
  lemma QuorumReconstructs(secret: seq<byte>, config: SharingConfig, randoms: seq<seq<byte>>, quorum: seq<Share>)
    requires secret != [] && config.Valid() && Coefficients(randoms, |secret|, config)
    requires forall s :: s in quorum ==> s in Split(secret, config, randoms)
    requires Distinct(Ids(quorum)) && |quorum| >= config.threshold
    ensures Reconstructible(quorum) && Reconstruct(quorum) == secret
  {
    hide Eval, LagrangeSum;
    forall k | 0 <= k < |quorum|
      ensures quorum[k] == SplitAt(secret, randoms, quorum[k].id)
    {
      assert quorum[k] in Split(secret, config, randoms);
    }
    forall b | 0 <= b < |secret|
      ensures Reconstruct(quorum)[b] == secret[b]
    {
      ReconstructsByte(secret, randoms, config, quorum, b);
    }
  }

  lemma ByteOfInjective(i: nat, j: nat)
    requires i < 256 && j < 256
    ensures ByteOf(i) == ByteOf(j) ==> i == j
    ensures ByteOf(0) == 0
  {}

  /** The split hands out distinct, non-zero ids, so distinct shares have distinct ids. */
  lemma SplitIds(secret: seq<byte>, config: SharingConfig, randoms: seq<seq<byte>>)
    requires config.Valid() && |randoms| == |secret|
    ensures Distinct(Ids(Split(secret, config, randoms)))
    ensures 0 !in Ids(Split(secret, config, randoms))
  {
    hide Eval, ByteOf;
    var shares := Split(secret, config, randoms);
    forall i, j | 0 <= i < j < |shares|
      ensures shares[i].id != shares[j].id
    {
      ByteOfInjective(i + 1, j + 1);
    }
    forall i | 0 <= i < |shares|
      ensures shares[i].id != 0
    {
      ByteOfInjective(i + 1, 0);
    }
  }

  // ----- Fewer shares determine nothing -----

  /** Coefficients under which a secret byte s produces the bytes ys at the ids xs. */
  ghost predicate Explains(s: byte, c: seq<byte>, xs: seq<byte>, ys: seq<byte>, t: nat) {
    |c| + 1 == t && Evals([s] + c, xs) == ys
  }

  /** A choice of coefficients that explains any bytes at fewer than t ids, for any secret byte. */
  function Explanation(s: byte, xs: seq<byte>, ys: seq<byte>, t: nat): (c: seq<byte>)
    requires |xs| == |ys| < t
    ensures |c| + 1 == t
  {
    LagrangePoly([0] + xs, [s] + ys, |xs| + 1)[1..] + Zeros(t - 1 - |xs|)
  }

  lemma ExplanationExists(s: byte, xs: seq<byte>, ys: seq<byte>, t: nat)
    requires Distinct([0] + xs) && |xs| == |ys| < t
    ensures Explains(s, Explanation(s, xs, ys, t), xs, ys, t)
  {
    hide Eval, LagrangePoly;
    var points, values := [0] + xs, [s] + ys;
    var p := LagrangePoly(points, values, |xs| + 1);
    InterpolationExists(points, values);
    assert Evals(p, points)[0] == s;
    EvalAtZero(p);
    var padded := p + Zeros(t - 1 - |xs|);
    assert [s] + Explanation(s, xs, ys, t) == padded;
    forall i | 0 <= i < |xs|
      ensures Eval(padded, xs[i]) == ys[i]
    {
      EvalPad(p, t - 1 - |xs|, xs[i]);
      assert Evals(p, points)[i + 1] == ys[i] && points[i + 1] == xs[i];
    }
  }

  /** t - 1 ids: every secret byte is explained by exactly one choice of coefficients. */
  lemma ExactlyOneExplanation(s: byte, xs: seq<byte>, ys: seq<byte>, t: nat, c: seq<byte>)
    requires Distinct([0] + xs) && |xs| == |ys| && |xs| + 1 == t
    ensures Explains(s, c, xs, ys, t) <==> c == Explanation(s, xs, ys, t)
  {
    hide Eval, Explanation;
    var e := Explanation(s, xs, ys, t);
    ExplanationExists(s, xs, ys, t);
    if Explains(s, c, xs, ys, t) {
      var p, q, points := [s] + c, [s] + e, [0] + xs;
      EvalAtZero(p); EvalAtZero(q);
      forall i | 0 <= i < |points|
        ensures Eval(p, points[i]) == Eval(q, points[i])
      {
        if i > 0 {
          assert points[i] == xs[i - 1];
          assert Evals(p, xs)[i - 1] == ys[i - 1] == Evals(q, xs)[i - 1];
        }
      }
      AgreementForcesEquality(p, q, points);
      assert c == p[1..] && e == q[1..];
    }
  }

  /** Adding `offset` turns the explanations of secret byte s into those of s', view by view. */
  ghost predicate Translates(offset: seq<byte>, s: byte, s': byte, xs: seq<byte>, t: nat) {
    && |offset| + 1 == t
    && forall c: seq<byte>, ys: seq<byte> :: |c| == |offset| ==>
         (Explains(s, c, xs, ys, t) <==> Explains(s', PolyAdd(c, offset), xs, ys, t))
  }

  /** Fewer than t ids: one fixed offset translates all explanations of s into those of s'.
      Adding an offset is a bijection, so every secret byte has equally many explanations of
      every view. */
  lemma ExplanationsTranslate(s: byte, s': byte, xs: seq<byte>, t: nat)
    requires Distinct([0] + xs) && |xs| < t
    ensures exists offset :: Translates(offset, s, s', xs, t)
  {
    hide Eval, Explanation, Add, PolyAdd, Explains;
    var offset := Explanation(Add(s, s'), xs, Zeros(|xs|), t);
    ExplanationExists(Add(s, s'), xs, Zeros(|xs|), t);
    assert Explains(Add(s, s'), offset, xs, Zeros(|xs|), t);
    forall c: seq<byte>, ys: seq<byte> | |c| == |offset|
      ensures Explains(s, c, xs, ys, t) <==> Explains(s', PolyAdd(c, offset), xs, ys, t)
    {
      OffsetTranslates(s, s', c, offset, xs, ys, t);
    }
    assert Translates(offset, s, s', xs, t);
  }

  lemma OffsetTranslates(s: byte, s': byte, c: seq<byte>, offset: seq<byte>, xs: seq<byte>, ys: seq<byte>, t: nat)
    requires |c| == |offset|
    requires Explains(Add(s, s'), offset, xs, Zeros(|xs|), t)
    ensures Explains(s, c, xs, ys, t) <==> Explains(s', PolyAdd(c, offset), xs, ys, t)
  {
    hide Eval, Add, PolyAdd;
    OffsetInvisible(s, s', c, offset, xs);
  }

  lemma OffsetInvisible(s: byte, s': byte, c: seq<byte>, offset: seq<byte>, xs: seq<byte>)
    requires |c| == |offset|
    requires Evals([Add(s, s')] + offset, xs) == Zeros(|xs|)
    ensures Evals([s'] + PolyAdd(c, offset), xs) == Evals([s] + c, xs)
  {
    hide Eval, Add;
    var p, z := [s] + c, [Add(s, s')] + offset;
    AddAssoc(s, s, s'); AddZero(s); AddZero(s');
    assert [s'] + PolyAdd(c, offset) == PolyAdd(p, z);
    forall i | 0 <= i < |xs|
      ensures Eval(PolyAdd(p, z), xs[i]) == Eval(p, xs[i])
    {
      EvalAdd(p, z, xs[i]);
      assert Evals(z, xs)[i] == 0;
      AddZero(Eval(p, xs[i]));
    }
  }

  /** The holders of the ids xs see the same share data under both choices. */
  ghost predicate SameView(secret: seq<byte>, randoms: seq<seq<byte>>, other: seq<byte>, randoms': seq<seq<byte>>,
                           xs: seq<byte>)
    requires |secret| == |randoms| && |other| == |randoms'|
  {
    forall i :: 0 <= i < |xs| ==> SplitAt(other, randoms', xs[i]) == SplitAt(secret, randoms, xs[i])
  }

  /** For whole secrets: whatever fewer than t holders see, every other secret of the same
      length could have produced it. */
  lemma BelowThresholdAnySecret(secret: seq<byte>, other: seq<byte>, config: SharingConfig,
                                randoms: seq<seq<byte>>, xs: seq<byte>)
    requires config.Valid() && |secret| == |other| && Coefficients(randoms, |secret|, config)
    requires Distinct([0] + xs) && |xs| < config.threshold
    ensures exists randoms' ::
              && Coefficients(randoms', |other|, config)
              && SameView(secret, randoms, other, randoms', xs)
  {
    hide Eval, Explanation;
    var t := config.threshold;
    var views := seq(|secret|, b requires 0 <= b < |secret| => Evals([secret[b]] + randoms[b], xs));
    var randoms' := seq(|other|, b requires 0 <= b < |other| => Explanation(other[b], xs, views[b], t));
    forall i | 0 <= i < |xs|
      ensures SplitAt(other, randoms', xs[i]) == SplitAt(secret, randoms, xs[i])
    {
      forall b | 0 <= b < |secret|
        ensures Eval([other[b]] + randoms'[b], xs[i]) == Eval([secret[b]] + randoms[b], xs[i])
      {
        ExplanationExists(other[b], xs, views[b], t);
        assert Evals([other[b]] + randoms'[b], xs)[i] == views[b][i];
      }
    }
    assert SameView(secret, randoms, other, randoms', xs);
  }
}
