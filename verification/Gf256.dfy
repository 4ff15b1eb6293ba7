/**
 The field GF(2^8) of bytes, with the reduction polynomial x^8 + x^4 + x^3 + x + 1
 (section 4.2 of FIPS 197), as crates/pqc-tls/src/threshold.rs computes in it.

 `Mul` and `Pow` are the specification functions of the two loops; the lemmas derive
 the field laws from the shift-and-xor recursion. Proofs that only rearrange field
 terms start with `hide *`, which keeps the solver from expanding bytes into bits.
 */
module Gf256 {

  type byte = bv8

  /** The byte of this value. */
  function ByteOf(n: nat): (b: byte)
    requires n < 256
    ensures b as nat == n
  {
    if n == 0 then 0 else Successor(ByteOf(n - 1))
  }

  function Successor(b: byte): (next: byte)
    requires b < 255
    ensures next as nat == b as nat + 1
  {
    b + 1
  }

  // ----- Specification functions -----

  function Add(a: byte, b: byte): byte {
    a ^ b
  }

  /** Multiplication by the field element x. */
  function XTimes(a: byte): byte {
    (a << 1) ^ (if a & 0x80 != 0 then 0x1B else 0)
  }

  /** a if the lowest bit of `selector` is set, and 0 otherwise. */
  function Scale(selector: byte, a: byte): byte {
    if selector & 1 != 0 then a else 0
  }

  function Mul(a: byte, b: byte): byte
    decreases b
  {
    if b == 0 then 0 else Add(Scale(b, a), Mul(XTimes(a), b >> 1))
  }

  function Pow(a: byte, n: nat): byte {
    if n == 0 then 1 else Mul(a, Pow(a, n - 1))
  }

  /** Fermat's little theorem makes this the inverse: see `InvCorrect`. */
  function Inv(a: byte): byte {
    Pow(a, 254)
  }

  // ----- The loops -----

  method MulLoop(x: byte, y: byte) returns (result: byte)
    ensures result == Mul(x, y)
  {
    hide *;
    var a, b := x, y;
    result := 0;
    AddZero(Mul(x, y));
    while b > 0
      invariant Add(result, Mul(a, b)) == Mul(x, y)
      decreases b
    {
      MulStep(a, b);
      AddAssoc(result, Scale(b, a), Mul(XTimes(a), b >> 1));
      ScaleByBit(b, a); XorIsAdd(result, a); AddZero(result);
      if b & 1 != 0 {
        result := result ^ a;
      }
      a := ShiftAndReduce(a);
      b := b >> 1;
    }
    MulZeroRight(a);
    AddZero(result);
  }

  /** The loop's carry test, kept apart so that its bit reasoning stays small. */
  method ShiftAndReduce(a: byte) returns (r: byte)
    ensures r == XTimes(a)
  {
    var carry := a & 0x80;
    r := a << 1;
    if carry != 0 {
      r := r ^ 0x1B;
    }
  }

  method PowLoop(b: byte, e: nat) returns (result: byte)
    ensures result == Pow(b, e)
  {
    hide *;
    var base, exp := b, e;
    result := 1;
    MulOneLeft(Pow(b, e));
    while exp > 0
      invariant Mul(result, Pow(base, exp)) == Pow(b, e)
    {
      PowHalve(base, exp);
      if exp % 2 != 0 {
        MulAssoc(result, base, Pow(Mul(base, base), exp / 2));
        result := MulLoop(result, base);
      }
      base := MulLoop(base, base);
      exp := exp / 2;
    }
    PowZero(base);
    MulOneRight(result);
  }

  method InvLoop(a: byte) returns (r: byte)
    requires a != 0
    ensures r == Inv(a)
    ensures Mul(a, r) == 1
  {
    r := PowLoop(a, 254);
    InvCorrect(a);
  }

  // ----- Addition -----

  lemma XorIsAdd(a: byte, b: byte)
    ensures a ^ b == Add(a, b)
  {}

  lemma AddZero(a: byte)
    ensures Add(a, 0) == a == Add(0, a)
    ensures Add(a, a) == 0
  {}

  lemma AddComm(a: byte, b: byte)
    ensures Add(a, b) == Add(b, a)
  {}

  lemma XorAssoc(a: byte, b: byte, c: byte)
    ensures (a ^ b) ^ c == a ^ (b ^ c)
  {}

  lemma AddAssoc(a: byte, b: byte, c: byte)
    ensures Add(Add(a, b), c) == Add(a, Add(b, c))
  {
    XorAssoc(a, b, c);
  }

  lemma AddSwap(a: byte, b: byte, c: byte, d: byte)
    ensures Add(Add(a, b), Add(c, d)) == Add(Add(a, c), Add(b, d))
  {
    hide *;
    AddAssoc(a, b, Add(c, d));
    AddAssoc(b, c, d);
    AddComm(b, c);
    AddAssoc(c, b, d);
    AddAssoc(a, c, Add(b, d));
  }

  lemma AddCancel(a: byte, b: byte)
    ensures Add(Add(a, b), b) == a
    ensures Add(a, b) == 0 ==> a == b
  {}

  // ----- The recursion is bilinear -----

  lemma XTimesLinear(a: byte, b: byte)
    ensures XTimes(Add(a, b)) == Add(XTimes(a), XTimes(b))
  {
    assert (a ^ b) & 0x80 == (a & 0x80) ^ (b & 0x80);
    if a & 0x80 != 0 { if b & 0x80 != 0 {} else {} } else {}
  }

  lemma XTimesZero()
    ensures XTimes(0) == 0
  {}

  lemma ScaleLinear(a: byte, b: byte, c: byte)
    ensures Scale(c, Add(a, b)) == Add(Scale(c, a), Scale(c, b))
  {}

  lemma ScaleLinearSelector(a: byte, b: byte, c: byte)
    ensures Scale(Add(a, b), c) == Add(Scale(a, c), Scale(b, c))
  {
    assert (a ^ b) & 1 == (a & 1) ^ (b & 1);
    if a & 1 != 0 { if b & 1 != 0 {} else {} } else {}
  }

  lemma ScaleXTimes(b: byte, a: byte)
    ensures XTimes(Scale(b, a)) == Scale(b, XTimes(a))
  {}

  lemma ScaleByBit(b: byte, a: byte)
    ensures Scale(b, a) == if b & 1 != 0 then a else 0
  {}

  lemma ScaleOne(a: byte)
    ensures Scale(a, 1) == a & 1
  {}

  lemma ShiftLinear(a: byte, b: byte)
    ensures Add(a, b) >> 1 == Add(a >> 1, b >> 1)
  {}

  lemma MulZeroRight(a: byte)
    ensures Mul(a, 0) == 0
  {}

  lemma MulStep(a: byte, b: byte)
    ensures Mul(a, b) == Add(Scale(b, a), Mul(XTimes(a), b >> 1))
  {
    if b == 0 {
      assert b >> 1 == 0;
    }
  }

  lemma {:induction false} MulLinearLeft(a: byte, b: byte, c: byte)
    ensures Mul(Add(a, b), c) == Add(Mul(a, c), Mul(b, c))
    decreases c
  {
    hide *;
    if c == 0 {
      MulZeroRight(a); MulZeroRight(b); MulZeroRight(Add(a, b)); AddZero(0);
    } else {
      MulStep(a, c); MulStep(b, c); MulStep(Add(a, b), c);
      XTimesLinear(a, b);
      ScaleLinear(a, b, c);
      MulLinearLeft(XTimes(a), XTimes(b), c >> 1);
      AddSwap(Scale(c, a), Scale(c, b), Mul(XTimes(a), c >> 1), Mul(XTimes(b), c >> 1));
    }
  }

  lemma {:induction false} MulLinearRight(a: byte, b: byte, c: byte)
    ensures Mul(a, Add(b, c)) == Add(Mul(a, b), Mul(a, c))
    decreases b, c
  {
    hide *;
    if b == 0 {
      MulZeroRight(a); AddZero(c); AddZero(Mul(a, c));
    } else {
      MulStep(a, b); MulStep(a, c); MulStep(a, Add(b, c));
      ShiftLinear(b, c);
      ScaleLinearSelector(b, c, a);
      MulLinearRight(XTimes(a), b >> 1, c >> 1);
      AddSwap(Scale(b, a), Scale(c, a), Mul(XTimes(a), b >> 1), Mul(XTimes(a), c >> 1));
    }
  }

  // ----- Commutative ring -----

  lemma {:induction false} MulXTimesLeft(a: byte, b: byte)
    ensures Mul(XTimes(a), b) == XTimes(Mul(a, b))
    decreases b
  {
    hide *;
    if b == 0 {
      MulZeroRight(a); MulZeroRight(XTimes(a)); XTimesZero();
    } else {
      MulStep(a, b); MulStep(XTimes(a), b);
      MulXTimesLeft(XTimes(a), b >> 1);
      XTimesLinear(Scale(b, a), Mul(XTimes(a), b >> 1));
      ScaleXTimes(b, a);
    }
  }

  lemma {:induction false} MulZeroLeft(a: byte)
    ensures Mul(0, a) == 0
    decreases a
  {
    if a == 0 {
    } else {
      MulZeroLeft(a >> 1);
    }
  }

  lemma LowBit(a: byte)
    ensures Add(a & 1, XTimes(a >> 1)) == a
    ensures a & 1 == 0 || a & 1 == 1
  {}

  lemma {:induction false} MulOneLeft(a: byte)
    ensures Mul(1, a) == a
    decreases a
  {
    hide *;
    if a == 0 {
      MulZeroRight(1);
    } else {
      MulStep(1, a); ScaleOne(a);
      MulOneLeft(a >> 1);
      MulXTimesLeft(1, a >> 1);
      LowBit(a);
    }
  }

  lemma MulBitLeft(b: byte, a: byte)
    ensures Mul(b & 1, a) == Scale(b, a)
  {
    LowBit(b); MulOneLeft(a); MulZeroLeft(a);
  }

  lemma {:induction false} MulComm(a: byte, b: byte)
    ensures Mul(a, b) == Mul(b, a)
    decreases b
  {
    hide *;
    if b == 0 {
      MulZeroLeft(a); MulZeroRight(a);
    } else {
      MulStep(a, b);
      MulXTimesLeft(a, b >> 1);
      MulComm(a, b >> 1);
      MulXTimesLeft(b >> 1, a);
      LowBit(b); MulBitLeft(b, a);
      MulLinearLeft(b & 1, XTimes(b >> 1), a);
    }
  }

  lemma MulOneRight(a: byte)
    ensures Mul(a, 1) == a
  {
    hide *;
    MulComm(a, 1); MulOneLeft(a);
  }

  lemma MulXTimesRight(a: byte, b: byte)
    ensures Mul(a, XTimes(b)) == XTimes(Mul(a, b))
  {
    hide *;
    MulComm(a, b); MulXTimesLeft(b, a); MulComm(a, XTimes(b));
  }

  lemma MulScaleRight(a: byte, b: byte, c: byte)
    ensures Mul(a, Scale(c, b)) == Scale(c, Mul(a, b))
  {}

  lemma {:induction false} MulAssoc(a: byte, b: byte, c: byte)
    ensures Mul(Mul(a, b), c) == Mul(a, Mul(b, c))
    decreases c
  {
    hide *;
    if c == 0 {
      MulZeroRight(Mul(a, b)); MulZeroRight(a); MulZeroRight(b);
    } else {
      MulStep(Mul(a, b), c); MulStep(b, c);
      MulXTimesRight(a, b);
      MulAssoc(a, XTimes(b), c >> 1);
      MulScaleRight(a, b, c);
      MulLinearRight(a, Scale(c, b), Mul(XTimes(b), c >> 1));
    }
  }

  /** Rearrangement used by the polynomial proofs. */
  lemma MulSwap(a: byte, b: byte, c: byte)
    ensures Mul(a, Mul(b, c)) == Mul(b, Mul(a, c))
  {
    hide *;
    MulAssoc(a, b, c); MulComm(a, b); MulAssoc(b, a, c);
  }

  /** f is additive and commutes with multiplication by x. */
  ghost predicate LinearMap(f: byte -> byte) {
    && (forall u, v {:trigger Add(u, v)} :: f(Add(u, v)) == Add(f(u), f(v)))
    && (forall u {:trigger XTimes(u)} :: f(XTimes(u)) == XTimes(f(u)))
  }

  lemma LinearMapAt(f: byte -> byte, u: byte, v: byte)
    requires LinearMap(f)
    ensures f(Add(u, XTimes(v))) == Add(f(u), XTimes(f(v)))
  {
    hide Add, XTimes;
  }

  lemma LinearMapZero(f: byte -> byte)
    requires LinearMap(f)
    ensures f(0) == 0
  {
    assert f(Add(0, 0)) == Add(f(0), f(0));
  }

  /** Multiplication by a is the only additive map that commutes with multiplication by x
      (shift, reduced by 0x11B) and sends 1 to a. */
  lemma {:induction false} MulUnique(f: byte -> byte, a: byte, b: byte)
    requires LinearMap(f) && f(1) == a
    ensures f(b) == Mul(a, b)
    decreases b
  {
    hide *;
    LinearMapZero(f);
    MulZeroRight(a);
    if b == 0 {
    } else {
      MulUnique(f, a, b >> 1);
      LowBit(b);
      LinearMapAt(f, b & 1, b >> 1);
      MulLinearRight(a, b & 1, XTimes(b >> 1));
      MulXTimesRight(a, b >> 1);
      MulOneRight(a);
    }
  }

  // ----- Powers and the inverse -----

  lemma PowZero(a: byte)
    ensures Pow(a, 0) == 1
  {}

  lemma PowStep(a: byte, n: nat)
    ensures Pow(a, n + 1) == Mul(a, Pow(a, n))
  {}

  lemma {:induction false} PowAdd(a: byte, m: nat, n: nat)
    ensures Pow(a, m + n) == Mul(Pow(a, m), Pow(a, n))
  {
    hide *;
    if m == 0 {
      PowZero(a); MulOneLeft(Pow(a, n));
    } else {
      PowAdd(a, m - 1, n);
      PowStep(a, m - 1 + n); PowStep(a, m - 1);
      MulAssoc(a, Pow(a, m - 1), Pow(a, n));
    }
  }

  lemma {:induction false} PowOfSquare(a: byte, n: nat)
    ensures Pow(Mul(a, a), n) == Pow(a, 2 * n)
  {
    hide *;
    if n == 0 {
      PowZero(a); PowZero(Mul(a, a));
    } else {
      PowOfSquare(a, n - 1);
      PowStep(Mul(a, a), n - 1);
      PowStep(a, 2 * n - 1); PowStep(a, 2 * n - 2);
      MulAssoc(a, a, Pow(a, 2 * n - 2));
    }
  }

  /** One round of square-and-multiply. */
  lemma PowHalve(a: byte, n: nat)
    ensures n > 0 && n % 2 == 0 ==> Pow(a, n) == Pow(Mul(a, a), n / 2)
    ensures n % 2 == 1 ==> Pow(a, n) == Mul(a, Pow(Mul(a, a), n / 2))
  {
    hide *;
    PowOfSquare(a, n / 2);
    if n % 2 == 1 {
      PowStep(a, n - 1);
    }
  }

  /** Squaring, written as the linear map it is: bit i moves to x^(2i), reduced. */
  function Square(a: byte): byte {
    (a & 1) ^ ((a & 2) << 1) ^ ((a & 4) << 2) ^ ((a & 8) << 3)
    ^ (if a & 0x10 != 0 then 0x1B else 0) ^ (if a & 0x20 != 0 then 0x6C else 0)
    ^ (if a & 0x40 != 0 then 0xAB else 0) ^ (if a & 0x80 != 0 then 0x9A else 0)
  }

  lemma SquareLowBit(a: byte)
    ensures Square(a) == Add(a & 1, XTimes(XTimes(Square(a >> 1))))
  {}

  lemma SquareZero()
    ensures Square(0) == 0
  {}

  lemma {:induction false} SquareIsMul(a: byte)
    ensures Mul(a, a) == Square(a)
    decreases a
  {
    hide *;
    if a == 0 {
      MulZeroRight(a); SquareZero();
    } else {
      var low, high := a & 1, XTimes(a >> 1);
      LowBit(a);
      SquareIsMul(a >> 1);
      SquareLowBit(a);
      MulXTimesLeft(a >> 1, high); MulXTimesRight(a >> 1, a >> 1);
      SquareOfSum(low, high);
      MulOneLeft(1); MulZeroRight(0);
    }
  }

  lemma SquareOfSum(a: byte, b: byte)
    ensures Mul(Add(a, b), Add(a, b)) == Add(Mul(a, a), Mul(b, b))
  {
    hide *;
    MulLinearLeft(a, b, Add(a, b));
    MulLinearRight(a, a, b); MulLinearRight(b, a, b); MulComm(a, b);
    AddComm(Mul(a, b), Mul(b, b));
    AddSwap(Mul(a, a), Mul(a, b), Mul(b, b), Mul(a, b));
    AddZero(Mul(a, b)); AddZero(Add(Mul(a, a), Mul(b, b)));
  }

  lemma SquareEightTimes(a: byte)
    ensures Square(Square(Square(Square(Square(Square(Square(Square(a)))))))) == a
  {}

  lemma SquareFixedPoints(a: byte)
    requires Square(a) == a
    ensures a == 0 || a == 1
  {}

  lemma PowDouble(a: byte, n: nat)
    ensures Pow(a, 2 * n) == Square(Pow(a, n))
  {
    hide *;
    PowAdd(a, n, n); SquareIsMul(Pow(a, n));
  }

  lemma Pow256(a: byte)
    ensures Pow(a, 256) == a
  {
    hide *;
    PowStep(a, 0); PowZero(a); MulOneRight(a);
    PowDouble(a, 1); PowDouble(a, 2); PowDouble(a, 4); PowDouble(a, 8);
    PowDouble(a, 16); PowDouble(a, 32); PowDouble(a, 64); PowDouble(a, 128);
    SquareEightTimes(a);
  }

  /** a^255 is its own square, so it is 0 or 1, and 0 would make a = a^256 = 0. */
  lemma InvCorrect(a: byte)
    requires a != 0
    ensures Mul(a, Inv(a)) == 1
  {
    hide Add, Mul, Pow, XTimes, Square;
    Pow256(a);
    PowStep(a, 254); PowStep(a, 255);
    var e := Pow(a, 255);
    PowAdd(a, 256, 254);
    PowAdd(a, 255, 255);
    SquareIsMul(e);
    SquareFixedPoints(e);
    MulZeroRight(a);
  }

  lemma NoZeroDivisors(a: byte, b: byte)
    requires Mul(a, b) == 0
    ensures a == 0 || b == 0
  {
    hide *;
    if a != 0 {
      InvCorrect(a);
      MulComm(a, Inv(a));
      MulAssoc(Inv(a), a, b);
      MulOneLeft(b);
      MulZeroRight(Inv(a));
    }
  }
}
