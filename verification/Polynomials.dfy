/**
 Polynomials over GF(256): evaluation, root counting and Lagrange interpolation, as
 crates/pqc-tls/src/threshold.rs uses them. A polynomial is the sequence of its
 coefficients, constant term first.
 */
module Polynomials {
  import opened Gf256

  function Eval(p: seq<byte>, x: byte): byte {
    if p == [] then 0 else Add(p[0], Mul(x, Eval(p[1..], x)))
  }

  function Evals(p: seq<byte>, xs: seq<byte>): (ys: seq<byte>)
    ensures |ys| == |xs|
    ensures forall i :: 0 <= i < |xs| ==> ys[i] == Eval(p, xs[i])
  {
    seq(|xs|, i requires 0 <= i < |xs| => Eval(p, xs[i]))
  }

  predicate Distinct<T(==)>(s: seq<T>) {
    forall i, j :: 0 <= i < j < |s| ==> s[i] != s[j]
  }

  predicate AllZero(p: seq<byte>) {
    forall i :: 0 <= i < |p| ==> p[i] == 0
  }

  // ----- Linear operations on coefficients -----

  function PolyAdd(p: seq<byte>, q: seq<byte>): (s: seq<byte>)
    requires |p| == |q|
    ensures |s| == |p|
    ensures forall i :: 0 <= i < |p| ==> s[i] == Add(p[i], q[i])
  {
    if p == [] then [] else [Add(p[0], q[0])] + PolyAdd(p[1..], q[1..])
  }

  function PolyScale(c: byte, p: seq<byte>): (s: seq<byte>)
    ensures |s| == |p|
  {
    if p == [] then [] else [Mul(c, p[0])] + PolyScale(c, p[1..])
  }

  function Zeros(n: nat): (p: seq<byte>)
    ensures |p| == n && AllZero(p)
  {
    seq(n, _ => 0)
  }

  /** p(x) times (x - r); in characteristic 2 that is (x + r). */
  function TimesRoot(p: seq<byte>, r: byte): (s: seq<byte>)
    ensures |s| == |p| + 1
  {
    PolyAdd(PolyScale(r, p) + [0], [0] + p)
  }

  /** Synthetic division of p(x) - p(r) by (x - r). */
  function Quotient(p: seq<byte>, r: byte): (q: seq<byte>)
    ensures |q| == if p == [] then 0 else |p| - 1
  {
    if |p| <= 1 then [] else [Eval(p[1..], r)] + Quotient(p[1..], r)
  }

  lemma {:induction false} EvalAdd(p: seq<byte>, q: seq<byte>, x: byte)
    requires |p| == |q|
    ensures Eval(PolyAdd(p, q), x) == Add(Eval(p, x), Eval(q, x))
  {
    hide Add, Mul;
    if p == [] {
      AddZero(0);
    } else {
      var s := PolyAdd(p, q);
      assert s[1..] == PolyAdd(p[1..], q[1..]);
      EvalAdd(p[1..], q[1..], x);
      MulLinearRight(x, Eval(p[1..], x), Eval(q[1..], x));
      AddSwap(p[0], q[0], Mul(x, Eval(p[1..], x)), Mul(x, Eval(q[1..], x)));
    }
  }

  lemma {:induction false} EvalScale(c: byte, p: seq<byte>, x: byte)
    ensures Eval(PolyScale(c, p), x) == Mul(c, Eval(p, x))
  {
    hide Add, Mul;
    if p == [] {
      MulZeroRight(c);
    } else {
      assert PolyScale(c, p)[1..] == PolyScale(c, p[1..]);
      EvalScale(c, p[1..], x);
      MulSwap(x, c, Eval(p[1..], x));
      MulLinearRight(c, p[0], Mul(x, Eval(p[1..], x)));
    }
  }

  lemma {:induction false} EvalAllZero(p: seq<byte>, x: byte)
    requires AllZero(p)
    ensures Eval(p, x) == 0
  {
    hide Add, Mul;
    if p == [] {
    } else {
      EvalAllZero(p[1..], x);
      MulZeroRight(x); AddZero(0);
    }
  }

  /** Padding with zero coefficients does not change the polynomial. */
  lemma {:induction false} EvalPad(p: seq<byte>, n: nat, x: byte)
    ensures Eval(p + Zeros(n), x) == Eval(p, x)
  {
    hide Add, Mul;
    if p == [] {
      assert p + Zeros(n) == Zeros(n);
      EvalAllZero(Zeros(n), x);
    } else {
      assert (p + Zeros(n))[1..] == p[1..] + Zeros(n);
      EvalPad(p[1..], n, x);
    }
  }

  lemma EvalTimesRoot(p: seq<byte>, r: byte, x: byte)
    ensures Eval(TimesRoot(p, r), x) == Mul(Add(x, r), Eval(p, x))
  {
    hide Add, Mul;
    EvalAdd(PolyScale(r, p) + [0], [0] + p, x);
    assert [0] == Zeros(1);
    EvalPad(PolyScale(r, p), 1, x);
    EvalScale(r, p, x);
    assert ([0] + p)[1..] == p;
    AddZero(Mul(x, Eval(p, x)));
    AddComm(Mul(r, Eval(p, x)), Mul(x, Eval(p, x)));
    MulLinearLeft(x, r, Eval(p, x));
  }

  // ----- Roots -----

  /** p(x) = p(r) + (x + r) q(x), where q is the quotient. */
  lemma {:induction false} FactorTheorem(p: seq<byte>, r: byte, x: byte)
    ensures Eval(p, x) == Add(Eval(p, r), Mul(Add(x, r), Eval(Quotient(p, r), x)))
  {
    hide Add, Mul;
    if |p| <= 1 {
      MulZeroRight(Add(x, r)); MulZeroRight(x); MulZeroRight(r);
      AddZero(Eval(p, r));
    } else {
      var t, q := p[1..], Quotient(p[1..], r);
      FactorTheorem(t, r, x);
      var tr, qx := Eval(t, r), Eval(q, x);
      assert Quotient(p, r)[1..] == q;
      var rest := Mul(x, Mul(Add(x, r), qx));
      // x t(x) = x t(r) + x (x + r) q(x), and x t(r) = r t(r) + (x + r) t(r)
      MulLinearRight(x, tr, Mul(Add(x, r), qx));
      MulLinearLeft(Add(x, r), r, tr);
      AddCancel(x, r);
      AddComm(Mul(Add(x, r), tr), Mul(r, tr));
      AddAssoc(Mul(r, tr), Mul(Add(x, r), tr), rest);
      MulSwap(x, Add(x, r), qx);
      MulLinearRight(Add(x, r), tr, Mul(x, qx));
      AddAssoc(p[0], Mul(r, tr), Mul(Add(x, r), Add(tr, Mul(x, qx))));
    }
  }

  lemma {:induction false} ZeroQuotient(p: seq<byte>, r: byte)
    requires p != [] && AllZero(Quotient(p, r))
    ensures AllZero(p[1..])
  {
    hide Add, Mul;
    if |p| <= 1 {
    } else {
      var q := Quotient(p, r);
      assert q[1..] == Quotient(p[1..], r);
      assert forall i :: 0 <= i < |q| - 1 ==> q[1..][i] == q[i + 1];
      ZeroQuotient(p[1..], r);
      EvalAllZero(p[1..][1..], r);
      MulZeroRight(r); AddZero(p[1]);
      assert q[0] == p[1] == 0;
      assert forall i :: 0 < i < |p[1..]| ==> p[1..][i] == p[1..][1..][i - 1];
    }
  }

  /** Only the zero polynomial has as many distinct roots as coefficients. */
  lemma {:induction false} RootsForceZero(p: seq<byte>, xs: seq<byte>)
    requires Distinct(xs) && |p| <= |xs|
    requires forall i :: 0 <= i < |xs| ==> Eval(p, xs[i]) == 0
    ensures AllZero(p)
    decreases |p|
  {
    hide Add, Mul;
    if p == [] {
    } else {
      var r, q, rest := xs[0], Quotient(p, xs[0]), xs[1..];
      forall i | 0 <= i < |rest|
        ensures Eval(q, rest[i]) == 0
      {
        assert rest[i] == xs[i + 1];
        FactorTheorem(p, r, rest[i]);
        AddZero(Mul(Add(rest[i], r), Eval(q, rest[i])));
        NoZeroDivisors(Add(rest[i], r), Eval(q, rest[i]));
        AddCancel(rest[i], r);
      }
      RootsForceZero(q, rest);
      ZeroQuotient(p, r);
      EvalAllZero(p[1..], r);
      MulZeroRight(r); AddZero(p[0]);
      assert forall i :: 0 < i < |p| ==> p[i] == p[1..][i - 1];
    }
  }

  /** A polynomial is determined by its values at as many distinct points as it has coefficients. */
  lemma AgreementForcesEquality(p: seq<byte>, q: seq<byte>, xs: seq<byte>)
    requires Distinct(xs) && |p| == |q| <= |xs|
    requires forall i :: 0 <= i < |xs| ==> Eval(p, xs[i]) == Eval(q, xs[i])
    ensures p == q
  {
    hide Add, Mul;
    var s := PolyAdd(p, q);
    forall i | 0 <= i < |xs|
      ensures Eval(s, xs[i]) == 0
    {
      EvalAdd(p, q, xs[i]);
      AddZero(Eval(p, xs[i]));
    }
    RootsForceZero(s, xs);
    forall i | 0 <= i < |p|
      ensures p[i] == q[i]
    {
      assert s[i] == 0;
      AddCancel(p[i], q[i]);
    }
  }

  // ----- Lagrange interpolation -----

  /** The product of (x + r) over the roots. */
  function Prod(roots: seq<byte>, x: byte): byte {
    if roots == [] then 1 else Mul(Add(x, roots[0]), Prod(roots[1..], x))
  }

  function RootsPoly(roots: seq<byte>): (p: seq<byte>)
    ensures |p| == |roots| + 1
  {
    if roots == [] then [1] else TimesRoot(RootsPoly(roots[1..]), roots[0])
  }

  function Without<T>(s: seq<T>, i: nat): (r: seq<T>)
    requires i < |s|
    ensures |r| == |s| - 1
  {
    s[..i] + s[i + 1..]
  }

  /** The i-th Lagrange coefficient for evaluation at z. */
  function Coefficient(xs: seq<byte>, z: byte, i: nat): byte
    requires i < |xs|
  {
    Mul(Prod(Without(xs, i), z), Inv(Prod(Without(xs, i), xs[i])))
  }

  /** The sum of the first n terms y_i L_i(z). */
  function LagrangeSum(xs: seq<byte>, ys: seq<byte>, z: byte, n: nat): byte
    requires n <= |xs| == |ys|
  {
    if n == 0 then 0
    else Add(LagrangeSum(xs, ys, z, n - 1), Mul(ys[n - 1], Coefficient(xs, z, n - 1)))
  }

  /** The polynomial whose values the first n terms are. */
  function LagrangePoly(xs: seq<byte>, ys: seq<byte>, n: nat): (p: seq<byte>)
    requires n <= |xs| == |ys|
    ensures |p| == |xs|
  {
    if n == 0 then Zeros(|xs|)
    else
      var others := Without(xs, n - 1);
      var scale := Mul(ys[n - 1], Inv(Prod(others, xs[n - 1])));
      PolyAdd(LagrangePoly(xs, ys, n - 1), PolyScale(scale, RootsPoly(others)))
  }

  lemma {:induction false} ProdAppend(roots: seq<byte>, r: byte, x: byte)
    ensures Prod(roots + [r], x) == Mul(Prod(roots, x), Add(x, r))
  {
    hide Add, Mul;
    if roots == [] {
      assert [r] == roots + [r] && [r][1..] == [];
      MulOneRight(Add(x, r)); MulOneLeft(Add(x, r));
    } else {
      assert (roots + [r])[1..] == roots[1..] + [r];
      ProdAppend(roots[1..], r, x);
      MulAssoc(Add(x, roots[0]), Prod(roots[1..], x), Add(x, r));
    }
  }

  /** The denominator of a Lagrange coefficient vanishes exactly on a repeated point. */
  lemma {:induction false} ProdZero(roots: seq<byte>, x: byte)
    ensures Prod(roots, x) == 0 <==> x in roots
  {
    hide Add, Mul;
    if roots == [] {
    } else {
      ProdZero(roots[1..], x);
      assert x in roots <==> x == roots[0] || x in roots[1..];
      if Prod(roots, x) == 0 {
        NoZeroDivisors(Add(x, roots[0]), Prod(roots[1..], x));
        AddCancel(x, roots[0]);
      }
      if x == roots[0] {
        AddZero(x); MulZeroLeft(Prod(roots[1..], x));
      } else if x in roots[1..] {
        MulZeroRight(Add(x, roots[0]));
      }
    }
  }

  lemma {:induction false} EvalRootsPoly(roots: seq<byte>, x: byte)
    ensures Eval(RootsPoly(roots), x) == Prod(roots, x)
  {
    hide Add, Mul;
    if roots == [] {
      assert [1][1..] == [];
      MulZeroRight(x); AddZero(1);
    } else {
      EvalRootsPoly(roots[1..], x);
      EvalTimesRoot(RootsPoly(roots[1..]), roots[0], x);
    }
  }

  lemma {:induction false} EvalLagrangePoly(xs: seq<byte>, ys: seq<byte>, n: nat, x: byte)
    requires n <= |xs| == |ys|
    ensures Eval(LagrangePoly(xs, ys, n), x) == LagrangeSum(xs, ys, x, n)
  {
    hide Add, Mul, Inv;
    if n == 0 {
      EvalAllZero(Zeros(|xs|), x);
    } else {
      EvalLagrangePoly(xs, ys, n - 1, x);
      var others := Without(xs, n - 1);
      var inverse := Inv(Prod(others, xs[n - 1]));
      var scale := Mul(ys[n - 1], inverse);
      EvalAdd(LagrangePoly(xs, ys, n - 1), PolyScale(scale, RootsPoly(others)), x);
      EvalScale(scale, RootsPoly(others), x);
      EvalRootsPoly(others, x);
      MulAssoc(ys[n - 1], inverse, Prod(others, x));
      MulComm(inverse, Prod(others, x));
    }
  }

  lemma WithoutContains<T>(s: seq<T>, i: nat, k: nat)
    requires Distinct(s) && i < |s| && k < |s|
    ensures s[k] in Without(s, i) <==> i != k
  {
    if k < i {
      assert Without(s, i)[k] == s[k];
    } else if i < k {
      assert Without(s, i)[k - 1] == s[k];
    }
  }

  lemma CoefficientAtPoint(xs: seq<byte>, i: nat, k: nat)
    requires Distinct(xs) && i < |xs| && k < |xs|
    ensures Coefficient(xs, xs[k], i) == if i == k then 1 else 0
  {
    hide Add, Mul, Inv;
    var others := Without(xs, i);
    WithoutContains(xs, i, k);
    ProdZero(others, xs[k]);
    if i == k {
      InvCorrect(Prod(others, xs[k]));
    } else {
      MulZeroLeft(Inv(Prod(others, xs[i])));
    }
  }

  lemma {:induction false} LagrangeSumAtPoint(xs: seq<byte>, ys: seq<byte>, k: nat, n: nat)
    requires Distinct(xs) && k < |xs| && n <= |xs| == |ys|
    ensures LagrangeSum(xs, ys, xs[k], n) == if k < n then ys[k] else 0
  {
    hide Add, Mul, Coefficient;
    if n == 0 {
    } else {
      LagrangeSumAtPoint(xs, ys, k, n - 1);
      CoefficientAtPoint(xs, n - 1, k);
      MulOneRight(ys[n - 1]); MulZeroRight(ys[n - 1]);
      AddZero(ys[k]); AddZero(0);
    }
  }

  /** Through any values at n distinct points there is a polynomial of n coefficients;
      `AgreementForcesEquality` makes it the only one. */
  lemma InterpolationExists(xs: seq<byte>, ys: seq<byte>)
    requires Distinct(xs) && |xs| == |ys|
    ensures Evals(LagrangePoly(xs, ys, |xs|), xs) == ys
  {
    hide Add, Mul, Inv, LagrangePoly, LagrangeSum;
    var p := LagrangePoly(xs, ys, |xs|);
    forall k | 0 <= k < |xs|
      ensures Eval(p, xs[k]) == ys[k]
    {
      EvalLagrangePoly(xs, ys, |xs|, xs[k]);
      LagrangeSumAtPoint(xs, ys, k, |xs|);
    }
  }

  /** The Lagrange formula at z gives p(z) for every polynomial with at most as many
      coefficients as there are distinct points. */
  lemma LagrangeCorrect(p: seq<byte>, xs: seq<byte>, z: byte)
    requires Distinct(xs) && |p| <= |xs|
    ensures LagrangeSum(xs, Evals(p, xs), z, |xs|) == Eval(p, z)
  {
    hide Add, Mul, Inv, LagrangePoly, LagrangeSum, Eval;
    var ys := Evals(p, xs);
    var padded := p + Zeros(|xs| - |p|);
    var q := LagrangePoly(xs, ys, |xs|);
    InterpolationExists(xs, ys);
    forall i | 0 <= i < |xs|
      ensures Eval(padded, xs[i]) == Eval(q, xs[i])
    {
      EvalPad(p, |xs| - |p|, xs[i]);
      assert Evals(q, xs)[i] == ys[i];
    }
    AgreementForcesEquality(padded, q, xs);
    EvalPad(p, |xs| - |p|, z);
    EvalLagrangePoly(xs, ys, |xs|, z);
  }

  // ----- The loops -----

  /** coeffs[0] + coeffs[1] x + ..., with a running power of x. */
  method EvalLoop(coeffs: seq<byte>, x: byte) returns (result: byte)
    ensures result == Eval(coeffs, x)
  {
    hide Add, Mul;
    result := 0;
    var xPower: byte := 1;
    AddZero(Eval(coeffs, x)); MulOneLeft(Eval(coeffs, x));
    assert coeffs[0..] == coeffs;
    for i := 0 to |coeffs|
      invariant Add(result, Mul(xPower, Eval(coeffs[i..], x))) == Eval(coeffs, x)
    {
      var c, rest := coeffs[i], Eval(coeffs[i + 1..], x);
      assert coeffs[i..][1..] == coeffs[i + 1..];
      MulLinearRight(xPower, c, Mul(x, rest));
      MulAssoc(xPower, x, rest);
      MulComm(xPower, c);
      AddAssoc(result, Mul(c, xPower), Mul(Mul(xPower, x), rest));
      var term := MulLoop(c, xPower);
      XorIsAdd(result, term);
      result := result ^ term;
      xPower := MulLoop(xPower, x);
    }
    MulZeroRight(xPower); AddZero(result);
  }
}
