/** Affine points: what encodings stand for, and why no sum of curve points is at infinity. */
module Affine {
  import opened ModArith
  import opened Radix
  import opened EdwardsCurve
  import opened Decode

  ghost predicate NotSquareOf(r: int, d: int, m: int) requires m > 0 { !Cong(r * r, d, m) }

  /** A curve over a prime field whose coefficient d is not a square, with room for every residue below the sign bit. */
  ghost predicate Complete(k: Curve) {
    Proper(k) && FieldLaws(k.m) && k.m <= k.sign && forall r :: NotSquareOf(r, k.d, k.m)
  }

  /** x / z and y / z, division being by the power m - 2 as in `pack`. */
  function AffineOf(k: Curve, p: Pt): (int, int)
    requires k.m > 2
  {
    var zi := PowMod(p.z, k.m - 2, k.m);
    (p.x * zi % k.m, p.y * zi % k.m)
  }

  /** A curve point that is not at infinity. */
  predicate Finite(k: Curve, p: Pt)
    requires k.m > 0
  {
    OnCurve(k, p) && p.z % k.m != 0
  }

  /** The affine form of the curve equation. */
  predicate AffineEq(x: int, y: int, d: int, m: int)
    requires m > 0
  {
    Cong(y * y - x * x, 1 + d * ((x * y) * (x * y)), m)
  }

  // ------------------------------------------------------- inverses and zeros

  /** The power m - 2 is the inverse. */
  lemma InverseByPower(z: int, m: int)
    requires m > 2 && FieldLaws(m) && z % m != 0
    ensures Cong(z * PowMod(z, m - 2, m), 1, m)
  {
    assert FermatAt(z, m);
    assert Pow(z, m - 1) == z * Pow(z, m - 2);
    ModIdem(Pow(z, m - 2), m);
    CongMul(z, z, PowMod(z, m - 2, m), Pow(z, m - 2), m);
    DivUnique(1, 0, 1, m);
  }

  lemma NonzeroProduct(a: int, b: int, m: int)
    requires FieldLaws(m) && a % m != 0 && b % m != 0
    ensures (a * b) % m != 0
  {
    assert DomainAt(a, b, m);
  }

  lemma Cancel(a: int, b: int, c: int, m: int)
    requires FieldLaws(m) && c % m != 0 && Cong(a * c, b * c, m)
    ensures Cong(a, b, m)
  {
    CongSub(a * c, b * c, b * c, b * c, m);
    assert a * c - b * c == (a - b) * c;
    assert DomainAt(a - b, c, m);
    CongAdd(a - b, 0, b, b, m);
  }

  lemma ZeroResidue(m: int)
    requires m > 0
    ensures 0 % m == 0
  {
    DivUnique(0, 0, 0, m);
  }

  /** Equal squares of residues belong to equal or opposite residues. */
  lemma SquareRoots(a: int, b: int, m: int)
    requires FieldLaws(m) && Cong(a * a, b * b, m)
    ensures Cong(a, b, m) || Cong(a, -b, m)
  {
    CongSub(a * a, b * b, b * b, b * b, m);
    assert (a - b) * (a + b) == a * a - b * b;
    assert DomainAt(a - b, a + b, m);
    if (a - b) % m == 0 {
      CongAdd(a - b, 0, b, b, m);
    } else {
      CongAdd(a + b, 0, -b, -b, m);
    }
  }

  // ------------------------------------------------------- affine coordinates

  /** Coordinates divided by z satisfy the affine equation. */
  lemma DivideEquation(x: int, y: int, z: int, t: int, d: int, w: int, m: int)
    requires m > 0 && Cong(z * w, 1, m) && Cong(x * y, z * t, m) && Cong(y * y - x * x, z * z + d * (t * t), m)
    ensures AffineEq(x * w, y * w, d, m) && Cong(t * w, (x * w) * (y * w), m)
  {
    var ww := w * w;
    CongMul(x * y, z * t, ww, ww, m);
    assert (x * y) * ww == (x * w) * (y * w) && (z * t) * ww == (z * w) * (t * w);
    CongMul(z * w, 1, t * w, t * w, m);
    CongMul(y * y - x * x, z * z + d * (t * t), ww, ww, m);
    DivideSquares(x, y, z, t, d, w);
    CongMul(z * w, 1, z * w, 1, m);
    CongMul(t * w, (x * w) * (y * w), t * w, (x * w) * (y * w), m);
    CongMul(d, d, (t * w) * (t * w), ((x * w) * (y * w)) * ((x * w) * (y * w)), m);
    CongAdd((z * w) * (z * w), 1, d * ((t * w) * (t * w)), d * (((x * w) * (y * w)) * ((x * w) * (y * w))), m);
  }

  lemma DivideSquares(x: int, y: int, z: int, t: int, d: int, w: int)
    ensures (y * y - x * x) * (w * w) == (y * w) * (y * w) - (x * w) * (x * w)
    ensures (z * z + d * (t * t)) * (w * w) == (z * w) * (z * w) + d * ((t * w) * (t * w))
  {
    var ww := w * w;
    assert (y * y) * ww == (y * w) * (y * w) && (x * x) * ww == (x * w) * (x * w);
    assert (z * z) * ww == (z * w) * (z * w) && (t * t) * ww == (t * w) * (t * w);
    assert (d * (t * t)) * ww == d * ((t * t) * ww);
  }

  lemma AffineEqCong(x: int, y: int, x': int, y': int, d: int, m: int)
    requires m > 0 && Cong(x, x', m) && Cong(y, y', m) && AffineEq(x, y, d, m)
    ensures AffineEq(x', y', d, m)
  {
    CongMul(x, x', x, x', m);
    CongMul(y, y', y, y', m);
    CongSub(y * y, y' * y', x * x, x' * x', m);
    CongMul(x, x', y, y', m);
    CongMul(x * y, x' * y', x * y, x' * y', m);
    CongMul(d, d, (x * y) * (x * y), (x' * y') * (x' * y'), m);
    CongAdd(1, 1, d * ((x * y) * (x * y)), d * ((x' * y') * (x' * y')), m);
  }

  /** The affine coordinates of a finite point are residues on the affine curve, and scale back to the point. */
  lemma AffineSound(k: Curve, p: Pt)
    requires Proper(k) && FieldLaws(k.m) && Finite(k, p)
    ensures var (x, y) := AffineOf(k, p);
            && 0 <= x < k.m && 0 <= y < k.m && AffineEq(x, y, k.d, k.m)
            && Cong(x * p.z, p.x, k.m) && Cong(y * p.z, p.y, k.m)
  {
    var m, w := k.m, PowMod(p.z, k.m - 2, k.m);
    var (x, y) := AffineOf(k, p);
    InverseByPower(p.z, m);
    DivideEquation(p.x, p.y, p.z, p.t, k.d, w, m);
    ModIdem(p.x * w, m);
    ModIdem(p.y * w, m);
    AffineEqCong(p.x * w, p.y * w, x, y, k.d, m);
    ScaleBack(p.x, p.z, w, m);
    ScaleBack(p.y, p.z, w, m);
  }

  lemma ScaleBack(x: int, z: int, w: int, m: int)
    requires m > 0 && Cong(z * w, 1, m)
    ensures Cong((x * w % m) * z, x, m)
  {
    ModIdem(x * w, m);
    CongMul(x * w % m, x * w, z, z, m);
    assert (x * w) * z == x * (z * w);
    CongMul(x, x, z * w, 1, m);
  }

  /** Finite points have the same affine coordinates exactly when they are proportional. */
  lemma AffineEqual(k: Curve, p: Pt, q: Pt)
    requires Proper(k) && FieldLaws(k.m) && Finite(k, p) && Finite(k, q)
    ensures AffineOf(k, p) == AffineOf(k, q) <==> Cong(p.x * q.z, q.x * p.z, k.m) && Cong(p.y * q.z, q.y * p.z, k.m)
  {
    AffineSound(k, p);
    AffineSound(k, q);
    var (x, y) := AffineOf(k, p);
    var (x', y') := AffineOf(k, q);
    RatioEqual(p.x, p.z, x, q.x, q.z, x', k.m);
    RatioEqual(p.y, p.z, y, q.y, q.z, y', k.m);
  }

  lemma RatioEqual(x: int, z: int, r: int, x': int, z': int, r': int, m: int)
    requires FieldLaws(m) && z % m != 0 && z' % m != 0 && 0 <= r < m && 0 <= r' < m
    requires Cong(r * z, x, m) && Cong(r' * z', x', m)
    ensures r == r' <==> Cong(x * z', x' * z, m)
  {
    var zz := z * z';
    CongMul(r * z, x, z', z', m);
    CongMul(r' * z', x', z, z, m);
    MulAssoc(r, z, z');
    MulAssoc(r', z', z);
    assert z' * z == zz;
    if Cong(x * z', x' * z, m) {
      NonzeroProduct(z, z', m);
      Cancel(r, r', zz, m);
      DivUnique(r, 0, r, m);
      DivUnique(r', 0, r', m);
    }
  }

  // ---------------------------------------------- the addition law is complete

  /** The identity behind completeness, for one choice of sign. */
  lemma SquareIdentity(x: int, y: int, x': int, y': int, d: int, i: int, e: int, s: int, m: int)
    requires m > 0 && Cong(i * i, -1, m) && Cong(s * s, 1, m) && Cong(e * e, 1, m) && e == d * ((x * y) * (x' * y'))
    requires AffineEq(x, y, d, m) && AffineEq(x', y', d, m)
    ensures var a, u := x * y, i * x' + s * y';
            Cong((i * x + s * (e * y)) * (i * x + s * (e * y)), d * ((a * u) * (a * u)), m)
  {
    var a, b := x * y, x' * y';
    LeftSquare(x, y, d, i, e, s, m);
    RightSquare(x', y', d, i, a, e, s, m);
  }

  /** (ix + sey)^2 = 1 + d(xy)^2 + 2is e xy when e^2 = s^2 = 1. */
  lemma LeftSquare(x: int, y: int, d: int, i: int, e: int, s: int, m: int)
    requires m > 0 && Cong(i * i, -1, m) && Cong(s * s, 1, m) && Cong(e * e, 1, m) && AffineEq(x, y, d, m)
    ensures Cong((i * x + s * (e * y)) * (i * x + s * (e * y)),
                 1 + d * ((x * y) * (x * y)) + 2 * ((i * s) * (e * (x * y))), m)
  {
    var xx, yy, cross := x * x, y * y, 2 * ((i * s) * (e * (x * y)));
    ExpandLeft(x, y, i, e, s);
    CongMul(i * i, -1, xx, xx, m);
    CongMul(s * s, 1, e * e, 1, m);
    CongMul((s * s) * (e * e), 1, yy, yy, m);
    CongAdd((i * i) * xx, -xx, ((s * s) * (e * e)) * yy, yy, m);
    CongAdd((i * i) * xx + ((s * s) * (e * e)) * yy, yy - xx, cross, cross, m);
    CongAdd(yy - xx, 1 + d * ((x * y) * (x * y)), cross, cross, m);
  }

  lemma ExpandLeft(x: int, y: int, i: int, e: int, s: int)
    ensures (i * x + s * (e * y)) * (i * x + s * (e * y))
         == (i * i) * (x * x) + ((s * s) * (e * e)) * (y * y) + 2 * ((i * s) * (e * (x * y)))
  {
    var p, q := i * x, s * (e * y);
    assert (p + q) * (p + q) == p * p + q * q + 2 * (p * q);
    assert p * p == (i * i) * (x * x);
    assert q * q == (s * s) * ((e * y) * (e * y));
    assert (e * y) * (e * y) == (e * e) * (y * y);
    assert (s * s) * ((e * e) * (y * y)) == ((s * s) * (e * e)) * (y * y);
    CrossOf(i, x, s, e, y);
  }

  lemma CrossOf(i: int, x: int, s: int, e: int, y: int)
    ensures (i * x) * (s * (e * y)) == (i * s) * (e * (x * y))
  {
    assert (i * x) * (s * (e * y)) == (i * s) * (x * (e * y));
    assert x * (e * y) == e * (x * y);
  }

  /** d a^2 (ix + sy)^2 = 1 + d a^2 + 2is e a when e = d a (xy) squares to 1. */
  lemma RightSquare(x: int, y: int, d: int, i: int, a: int, e: int, s: int, m: int)
    requires m > 0 && Cong(i * i, -1, m) && Cong(s * s, 1, m) && Cong(e * e, 1, m) && e == d * (a * (x * y))
    requires AffineEq(x, y, d, m)
    ensures var u := i * x + s * y;
            Cong(d * ((a * u) * (a * u)), 1 + d * (a * a) + 2 * ((i * s) * (e * a)), m)
  {
    var u, b, da := i * x + s * y, x * y, d * (a * a);
    CongMul(1, 1, 1, 1, m);
    LeftSquare(x, y, d, i, 1, s, m);
    assert s * (1 * y) == s * y;
    var sq := 1 + d * (b * b) + 2 * ((i * s) * (1 * b));
    CongMul(da, da, u * u, sq, m);
    assert d * ((a * u) * (a * u)) == da * (u * u) by {
      assert (a * u) * (a * u) == (a * a) * (u * u);
      MulAssoc(d, a * a, u * u);
    }
    ExpandRight(d, a, b, i, s, e);
    CongAdd(da + 2 * ((i * s) * (e * a)), da + 2 * ((i * s) * (e * a)), e * e, 1, m);
  }

  lemma ExpandRight(d: int, a: int, b: int, i: int, s: int, e: int)
    requires e == d * (a * b)
    ensures (d * (a * a)) * (1 + d * (b * b) + 2 * ((i * s) * (1 * b))) == d * (a * a) + 2 * ((i * s) * (e * a)) + e * e
  {
    var da, j := d * (a * a), i * s;
    assert da * (d * (b * b)) == e * e by {
      assert (d * (a * b)) * (d * (a * b)) == (d * d) * ((a * b) * (a * b));
      assert (a * b) * (a * b) == (a * a) * (b * b);
      assert (d * d) * ((a * a) * (b * b)) == (d * (a * a)) * (d * (b * b));
    }
    assert da * (j * b) == j * (e * a) by {
      assert e * a == da * b;
      assert da * (j * b) == j * (da * b);
    }
    assert da * (1 + d * (b * b) + 2 * (j * b)) == da + da * (d * (b * b)) + 2 * (da * (j * b));
  }

  /** From b^2 = d c^2 with c invertible, d is a square. */
  lemma SquareFrom(b: int, c: int, d: int, m: int) returns (r: int)
    requires m > 2 && FieldLaws(m) && c % m != 0 && Cong(b * b, d * (c * c), m)
    ensures Cong(r * r, d, m)
  {
    var w := PowMod(c, m - 2, m);
    r := b * w;
    InverseByPower(c, m);
    CongMul(b * b, d * (c * c), w * w, w * w, m);
    assert (b * b) * (w * w) == r * r by {
      Interchange(b, b, w, w);
    }
    assert (d * (c * c)) * (w * w) == d * ((c * w) * (c * w)) by {
      MulAssoc(d, c * c, w * w);
      Interchange(c, c, w, w);
    }
    CongMul(c * w, 1, c * w, 1, m);
    CongMul(d, d, (c * w) * (c * w), 1, m);
  }

  lemma NeverSquare(k: Curve, r: int)
    requires Complete(k)
    ensures !Cong(r * r, k.d, k.m)
  {
    assert NotSquareOf(r, k.d, k.m);
  }

  /** If the product term squares to 1, the factor (ix' + sy') vanishes, for either sign. */
  lemma FactorVanishes(k: Curve, x: int, y: int, x': int, y': int, e: int, s: int)
    requires Complete(k) && AffineEq(x, y, k.d, k.m) && AffineEq(x', y', k.d, k.m)
    requires e == k.d * ((x * y) * (x' * y')) && Cong(e * e, 1, k.m) && (s == 1 || s == -1)
    ensures (k.i * x' + s * y') % k.m == 0
  {
    var m, a, u := k.m, x * y, k.i * x' + s * y';
    DivUnique(1, 0, 1, m);
    SquareIdentity(x, y, x', y', k.d, k.i, e, s, m);
    if u % m != 0 {
      TermNonzero(k.d, a, x' * y', e, m);
      NonzeroProduct(a, u, m);
      var r := SquareFrom(k.i * x + s * (e * y), a * u, k.d, m);
      NeverSquare(k, r);
    }
  }

  /** The factors of a term that squares to 1 are not zero. */
  lemma TermNonzero(d: int, a: int, b: int, e: int, m: int)
    requires m > 1 && e == d * (a * b) && Cong(e * e, 1, m)
    ensures a % m != 0 && b % m != 0
  {
    DivUnique(1, 0, 1, m);
    assert a * b == b * a;
    if a % m == 0 {
      ZeroTerm(d, a, b, m);
    } else if b % m == 0 {
      ZeroTerm(d, b, a, m);
    }
  }

  lemma ZeroTerm(d: int, a: int, b: int, m: int)
    requires m > 0 && a % m == 0
    ensures ((d * (a * b)) * (d * (a * b))) % m == 0
  {
    ZeroResidue(m);
    CongMul(a, 0, b, b, m);
    CongMul(d, d, a * b, 0, m);
    CongMul(d * (a * b), 0, d * (a * b), 0, m);
  }

  /** The denominators of a sum of affine curve points are not zero. */
  lemma DenominatorsNonzero(k: Curve, x: int, y: int, x': int, y': int, e: int)
    requires Complete(k) && AffineEq(x, y, k.d, k.m) && AffineEq(x', y', k.d, k.m) && e == k.d * ((x * y) * (x' * y'))
    ensures !Cong(e * e, 1, k.m)
  {
    if Cong(e * e, 1, k.m) {
      ProductVanishes(k, x, y, x', y', e);
      TermNonzero(k.d, x * y, x' * y', e, k.m);
    }
  }

  lemma ProductVanishes(k: Curve, x: int, y: int, x': int, y': int, e: int)
    requires Complete(k) && AffineEq(x, y, k.d, k.m) && AffineEq(x', y', k.d, k.m)
    requires e == k.d * ((x * y) * (x' * y')) && Cong(e * e, 1, k.m)
    ensures (x' * y') % k.m == 0
  {
    FactorVanishes(k, x, y, x', y', e, 1);
    FactorVanishes(k, x, y, x', y', e, -1);
    OddModulus(k);
    BothVanish(k.i * x', y', x', k.m);
  }

  lemma OddModulus(k: Curve)
    requires Proper(k)
    ensures k.m > 2 && k.m % 2 == 1
  {
    DivUnique(k.m, 4 * k.e + 2, 1, 2);
  }

  /** If p + q and p - q vanish, so does q. */
  lemma BothVanish(p: int, q: int, x: int, m: int)
    requires m > 2 && m % 2 == 1 && FieldLaws(m) && (p + 1 * q) % m == 0 && (p + -1 * q) % m == 0
    ensures (x * q) % m == 0
  {
    ZeroResidue(m);
    CongSub(p + 1 * q, 0, p + -1 * q, 0, m);
    assert (p + 1 * q) - (p + -1 * q) == 2 * q;
    assert DomainAt(2, q, m);
    DivUnique(2, 0, 2, m);
    CongMul(x, x, q, 0, m);
  }

  /** Adding finite points of the curve never gives a point at infinity. */
  lemma AddFinite(k: Curve, p: Pt, q: Pt)
    requires Complete(k) && Finite(k, p) && Finite(k, q)
    ensures Finite(k, Add(k, p, q))
  {
    var m, w, v := k.m, PowMod(p.z, k.m - 2, k.m), PowMod(q.z, k.m - 2, k.m);
    InverseByPower(p.z, m);
    InverseByPower(q.z, m);
    DivideEquation(p.x, p.y, p.z, p.t, k.d, w, m);
    DivideEquation(q.x, q.y, q.z, q.t, k.d, v, m);
    var x, y, x', y' := p.x * w, p.y * w, q.x * v, q.y * v;
    var e := k.d * ((x * y) * (x' * y'));
    DenominatorsNonzero(k, x, y, x', y', e);
    var f, g := SumF(k.d, p, q), SumG(k.d, p, q);
    DividedDenominators(p.z, p.t, w, q.z, q.t, v, k.d, x * y, x' * y', m);
    DenominatorProduct(f, g, w * v, e, m);
    AddFormula(k, p, q);
    AddOnCurve(k, p, q);
    DivUnique(4, 0, 4, m);
    NonzeroProduct(4, f * g, m);
  }

  /** F and G divided by both z are 1 - e and 1 + e. */
  lemma DividedDenominators(z: int, t: int, w: int, z': int, t': int, v: int, d: int, a: int, b: int, m: int)
    requires m > 0 && Cong(z * w, 1, m) && Cong(z' * v, 1, m) && Cong(t * w, a, m) && Cong(t' * v, b, m)
    ensures Cong((z * z' - d * (t * t')) * (w * v), 1 - d * (a * b), m)
    ensures Cong((z * z' + d * (t * t')) * (w * v), 1 + d * (a * b), m)
  {
    CongMul(z * w, 1, z' * v, 1, m);
    CongMul(t * w, a, t' * v, b, m);
    CongMul(d, d, (t * w) * (t' * v), a * b, m);
    Interchange(z, w, z', v);
    Interchange(t, w, t', v);
    var zz, tt, wv := z * z', t * t', w * v;
    MulAssoc(d, tt, wv);
    assert (zz - d * tt) * wv == zz * wv - (d * tt) * wv && (zz + d * tt) * wv == zz * wv + (d * tt) * wv;
    CongSub(zz * wv, 1, (d * tt) * wv, d * (a * b), m);
    CongAdd(zz * wv, 1, (d * tt) * wv, d * (a * b), m);
  }

  lemma DenominatorProduct(f: int, g: int, w: int, e: int, m: int)
    requires m > 0 && Cong(f * w, 1 - e, m) && Cong(g * w, 1 + e, m) && !Cong(e * e, 1, m)
    ensures (f * g) % m != 0
  {
    CongMul(f * w, 1 - e, g * w, 1 + e, m);
    Interchange(f, w, g, w);
    assert (1 - e) * (1 + e) == 1 - e * e;
    if (f * g) % m == 0 {
      ZeroResidue(m);
      CongMul(f * g, 0, w * w, w * w, m);
      CongSub(1, 1, 1 - e * e, 0, m);
    }
  }
}
