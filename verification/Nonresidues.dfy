/** Why d is not a square: 2 is not, and 2d is. Primality of the modulus is all that is needed. */
module Nonresidues {
  import opened ModArith
  import opened Radix
  import opened EdwardsCurve
  import opened Decode
  import opened Affine
  import opened Primes
  import Field25519
  import Edwards

  lemma SmallNonzero(n: int, m: int)
    requires 0 < n < m
    ensures n % m != 0 && (-n) % m != 0
  {
    DivUnique(n, 0, n, m);
    DivUnique(-n, -1, m - n, m);
  }

  lemma {:induction false} OddPowerOfMinusOne(n: nat)
    ensures Pow(-1, 2 * n + 1) == -1
  {
    if n > 0 {
      OddPowerOfMinusOne(n - 1);
      assert Pow(-1, 2 * n + 1) == -1 * (-1 * Pow(-1, 2 * (n - 1) + 1));
    } else {
      assert Pow(-1, 1) == -1 * Pow(-1, 0);
    }
  }

  /** No fourth power is -1 when m - 1 is an odd multiple of 4. */
  lemma FourthPower(t: int, e: nat, m: int)
    requires m == 8 * e + 5 && FieldLaws(m)
    ensures !Cong((t * t) * (t * t), -1, m)
  {
    var f := (t * t) * (t * t);
    if Cong(f, -1, m) {
      SmallNonzero(1, m);
      SmallNonzero(2, m);
      if t % m == 0 {
        ZeroFourth(t, m);
      } else {
        assert FermatAt(t, m);
        FourthOf(t);
        PowOfPow(t, 4, 2 * e + 1);
        PowCong(f, -1, 2 * e + 1, m);
        OddPowerOfMinusOne(e);
        DivUnique(1, 0, 1, m);
        CongSub(1, -1, 1, 1, m);
        DivUnique(0, 0, 0, m);
      }
    }
  }

  lemma ZeroFourth(t: int, m: int)
    requires m > 0 && t % m == 0
    ensures ((t * t) * (t * t)) % m == 0
  {
    DivUnique(0, 0, 0, m);
    CongMul(t, 0, t, 0, m);
    CongMul(t * t, 0, t * t, 0, m);
  }

  lemma FourthOf(t: int)
    ensures Pow(t, 4) == (t * t) * (t * t)
  {
    Square(t);
    PowAdd(t, 2, 2);
  }

  lemma {:induction false} PowOfPow(t: int, j: nat, n: nat)
    ensures j * n >= 0 && Pow(Pow(t, j), n) == Pow(t, j * n)
  {
    if n > 0 {
      PowOfPow(t, j, n - 1);
      PowAdd(t, j, j * (n - 1));
      assert j * n == j + j * (n - 1);
    } else {
      assert j * n == 0;
    }
  }

  /** If r^2 = 2, then (1 + i) / r squares to i. */
  lemma RootOfI(r: int, i: int, m: int) returns (t: int)
    requires m > 2 && FieldLaws(m) && Cong(i * i, -1, m) && Cong(r * r, 2, m)
    ensures Cong(t * t, i, m)
  {
    SmallNonzero(2, m);
    if r % m == 0 {
      DivUnique(0, 0, 0, m);
      CongMul(r, 0, r, 0, m);
      assert false;
    }
    var w := PowMod(r, m - 2, m);
    InverseByPower(r, m);
    t := (1 + i) * w;
    assert (1 + i) * (1 + i) == 1 + 2 * i + i * i;
    CongAdd(1 + 2 * i, 1 + 2 * i, i * i, -1, m);
    CongMul(2, r * r, i, i, m);
    CongMul((1 + i) * (1 + i), (r * r) * i, w * w, w * w, m);
    Interchange(1 + i, w, 1 + i, w);
    assert ((r * r) * i) * (w * w) == ((r * w) * (r * w)) * i by {
      Interchange(r, r, w, w);
      MulAssoc(r * r, i, w * w);
      MulAssoc(r * r, w * w, i);
    }
    CongMul(r * w, 1, r * w, 1, m);
    CongMul((r * w) * (r * w), 1, i, i, m);
  }

  /** 2 is not a square modulo a prime 8e + 5. */
  lemma TwoNotSquare(k: Curve, r: int)
    requires Proper(k) && FieldLaws(k.m)
    ensures !Cong(r * r, 2, k.m)
  {
    if Cong(r * r, 2, k.m) {
      var t := RootOfI(r, k.i, k.m);
      CongMul(t * t, k.i, t * t, k.i, k.m);
      FourthPower(t, k.e, k.m);
    }
  }

  /** If 2d is a square and d is not zero, d is not a square. */
  lemma NotSquareByTwo(k: Curve, g: int, r: int)
    requires Proper(k) && FieldLaws(k.m) && k.d % k.m != 0 && Cong(g * g, 2 * k.d, k.m)
    ensures NotSquareOf(r, k.d, k.m)
  {
    var m := k.m;
    if Cong(r * r, k.d, m) {
      if r % m == 0 {
        DivUnique(0, 0, 0, m);
        CongMul(r, 0, r, 0, m);
      } else {
        CongMul(2, 2, r * r, k.d, m);
        var s := SquareFrom(g, r, 2, m);
        TwoNotSquare(k, s);
      }
    }
  }

  /** Over a prime modulus a curve is complete as soon as 2d is the square of some `g` and d is not zero. */
  lemma CompleteByTwo(k: Curve, g: int)
    requires Proper(k) && Prime(k.m) && k.m <= k.sign && k.d % k.m != 0 && Cong(g * g, 2 * k.d, k.m)
    ensures Complete(k)
  {
    PrimeField(k.m);
    forall r ensures NotSquareOf(r, k.d, k.m) {
      NotSquareByTwo(k, g, r);
    }
  }

  /** A square root of 2d. */
  const ROOT_2D: int := 0x7aace324fd0ac68910cb40c6304ab6b7dbb63fe1a1c15dad5c477a1b914298b0

  lemma RootOf2D()
    ensures Cong(ROOT_2D * ROOT_2D, 2 * Edwards.D, Field25519.P) && Edwards.D % Field25519.P != 0
  {}

  /** Curve25519 is complete if 2^255 - 19 is prime. */
  lemma Curve25519Complete()
    requires Prime(Field25519.P)
    ensures Complete(Edwards.CURVE_25519)
  {
    Edwards.Constants();
    RootOf2D();
    CompleteByTwo(Edwards.CURVE_25519, ROOT_2D);
  }

  /** The smallest complete curve, over the field of five elements. */
  lemma SmallestComplete()
    ensures Complete(Curve(5, 2, 4, 2, 0, 8))
  {
    assert !Divides(2, 5) && !Divides(3, 5) && !Divides(4, 5);
    CompleteByTwo(Curve(5, 2, 4, 2, 0, 8), 2);
  }
}
