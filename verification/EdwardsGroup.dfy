/**
  The group of affine points of a complete twisted Edwards curve: the textbook addition law
  is a group law, and the extended-coordinate addition computes it.
 */
module EdwardsGroup {
  import opened ModArith
  import opened Radix
  import opened EdwardsCurve
  import opened Decode
  import opened Affine
  import opened PointEncoding
  import opened EdwardsIdentities

  type Elt = (int, int)

  const ZERO: Elt := (0, 1)

  /** An affine point of the curve, given by residues. */
  predicate Element(k: Curve, a: Elt)
    requires k.m > 0
  {
    0 <= a.0 < k.m && 0 <= a.1 < k.m && AffineEq(a.0, a.1, k.d, k.m)
  }

  function Quotient(n: int, v: int, m: int): int
    requires m > 2
  {
    n * PowMod(v, m - 2, m) % m
  }

  /** The textbook sum of two affine points. */
  function Sum(k: Curve, a: Elt, b: Elt): Elt
    requires k.m > 2
  {
    var q := k.d * ((a.0 * a.1) * (b.0 * b.1));
    (Quotient(a.0 * b.1 + a.1 * b.0, 1 + q, k.m), Quotient(a.1 * b.1 + a.0 * b.0, 1 - q, k.m))
  }

  function Opposed(k: Curve, a: Elt): Elt
    requires k.m > 0
  {
    ((0 - a.0) % k.m, a.1)
  }

  // ---------------------------------------------------- what the sum satisfies

  lemma QuotientSound(n: int, v: int, m: int)
    requires m > 2 && FieldLaws(m) && v % m != 0
    ensures 0 <= Quotient(n, v, m) < m && Cong(Quotient(n, v, m) * v, n, m)
  {
    InverseByPower(v, m);
    ScaleBack(n, v, PowMod(v, m - 2, m), m);
  }

  /** A quotient is determined by its product with the divisor. */
  lemma QuotientUnique(x: int, y: int, v: int, n: int, m: int)
    requires FieldLaws(m) && v % m != 0 && 0 <= x < m && 0 <= y < m && Cong(x * v, n, m) && Cong(y * v, n, m)
    ensures x == y
  {
    Cancel(x, y, v, m);
    DivUnique(x, 0, x, m);
    DivUnique(y, 0, y, m);
  }

  lemma UnitsNonzero(e: int, m: int)
    requires m > 0 && !Cong(e * e, 1, m)
    ensures (1 + e) % m != 0 && (1 - e) % m != 0
  {
    if (1 + e) % m == 0 || (1 - e) % m == 0 {
      ZeroResidue(m);
      var f, g := 1 + e, 1 - e;
      assert f * g == 1 - e * e;
      if f % m == 0 {
        CongMul(f, 0, g, g, m);
      } else {
        CongMul(f, f, g, 0, m);
      }
      CongSub(1, 1, 1 - e * e, 0, m);
    }
  }

  lemma SumSound(k: Curve, a: Elt, b: Elt, q: int)
    requires Complete(k) && Element(k, a) && Element(k, b) && q == k.d * ((a.0 * a.1) * (b.0 * b.1))
    ensures var s := Sum(k, a, b);
            && (1 + q) % k.m != 0 && (1 - q) % k.m != 0
            && 0 <= s.0 < k.m && Cong(s.0 * (1 + q), a.0 * b.1 + a.1 * b.0, k.m)
            && 0 <= s.1 < k.m && Cong(s.1 * (1 - q), a.1 * b.1 + a.0 * b.0, k.m)
  {
    DenominatorsNonzero(k, a.0, a.1, b.0, b.1, q);
    UnitsNonzero(q, k.m);
    QuotientSound(a.0 * b.1 + a.1 * b.0, 1 + q, k.m);
    QuotientSound(a.1 * b.1 + a.0 * b.0, 1 - q, k.m);
  }

  // ---------------------------------- the extended addition computes the sum

  /** Numerators divided by both z. */
  lemma DividedNumerators(x: int, y: int, w: int, x': int, y': int, v: int, a: int, b: int, a': int, b': int, m: int)
    requires m > 0 && Cong(x * w, a, m) && Cong(y * w, b, m) && Cong(x' * v, a', m) && Cong(y' * v, b', m)
    ensures Cong((x * y' + y * x') * (w * v), a * b' + b * a', m)
    ensures Cong((y * y' + x * x') * (w * v), b * b' + a * a', m)
  {
    CongMul(x * w, a, y' * v, b', m);
    CongMul(y * w, b, x' * v, a', m);
    CongMul(y * w, b, y' * v, b', m);
    CongMul(x * w, a, x' * v, a', m);
    CongAdd((x * w) * (y' * v), a * b', (y * w) * (x' * v), b * a', m);
    CongAdd((y * w) * (y' * v), b * b', (x * w) * (x' * v), a * a', m);
    Interchange(x, w, y', v);
    Interchange(y, w, x', v);
    Interchange(y, w, y', v);
    Interchange(x, w, x', v);
    More(x * y', y * x', w * v);
    More(y * y', x * x', w * v);
  }

  /** A coordinate r of a sum scaled by 4fg, over the numerator 4nf, is n / g. */
  lemma SumCoordinate(r: int, n: int, f: int, g: int, w: int, num: int, den: int, m: int)
    requires FieldLaws(m) && m > 4 && f % m != 0 && Cong(r * (4 * (f * g)), 4 * (n * f), m)
    requires Cong(n * w, num, m) && Cong(g * w, den, m)
    ensures Cong(r * den, num, m)
  {
    DivUnique(4, 0, 4, m);
    NonzeroProduct(4, f, m);
    CoordinateAlgebra(r, n, f, g);
    Cancel(r * g, n, 4 * f, m);
    CongMul(r * g, n, w, w, m);
    MulAssoc(r, g, w);
    CongMul(r, r, g * w, den, m);
  }

  lemma CoordinateAlgebra(r: int, n: int, f: int, g: int)
    ensures r * (4 * (f * g)) == (r * g) * (4 * f) && 4 * (n * f) == n * (4 * f)
  {
    assert r * (f * g) == (r * g) * f;
    assert r * (4 * (f * g)) == 4 * (r * (f * g));
  }

  /** The affine coordinates of a point and the inverse they divide by. */
  lemma DividedPoint(k: Curve, p: Pt, w: int, x: int, y: int)
    requires Proper(k) && FieldLaws(k.m) && Finite(k, p) && w == PowMod(p.z, k.m - 2, k.m) && (x, y) == AffineOf(k, p)
    ensures Element(k, (x, y)) && Cong(p.z * w, 1, k.m) && Cong(p.x * w, x, k.m) && Cong(p.y * w, y, k.m)
    ensures Cong(p.t * w, x * y, k.m)
  {
    AffineSound(k, p);
    InverseByPower(p.z, k.m);
    DivideEquation(p.x, p.y, p.z, p.t, k.d, w, k.m);
    ModIdem(p.x * w, k.m);
    ModIdem(p.y * w, k.m);
    CongMul(p.x * w, x, p.y * w, y, k.m);
  }

  /** `add` computes the textbook sum, whatever the coordinates that represent its arguments. */
  lemma AddIsSum(k: Curve, p: Pt, q: Pt)
    requires Complete(k) && Finite(k, p) && Finite(k, q)
    ensures Finite(k, Add(k, p, q))
    ensures AffineOf(k, Add(k, p, q)) == Sum(k, AffineOf(k, p), AffineOf(k, q))
  {
    var m, r := k.m, Add(k, p, q);
    var a, b := AffineOf(k, p), AffineOf(k, q);
    var w, v := PowMod(p.z, m - 2, m), PowMod(q.z, m - 2, m);
    DividedPoint(k, p, w, a.0, a.1);
    DividedPoint(k, q, v, b.0, b.1);
    var e := k.d * ((a.0 * a.1) * (b.0 * b.1));
    SumSound(k, a, b, e);
    DividedDenominators(p.z, p.t, w, q.z, q.t, v, k.d, a.0 * a.1, b.0 * b.1, m);
    DividedNumerators(p.x, p.y, w, q.x, q.y, v, a.0, a.1, b.0, b.1, m);
    AddFinite(k, p, q);
    AddCoordinates(k, p, q, r, w * v, e, a.0 * b.1 + a.1 * b.0, a.1 * b.1 + a.0 * b.0, Sum(k, a, b));
  }

  lemma AddCoordinates(k: Curve, p: Pt, q: Pt, r: Pt, w: int, e: int, n: int, n': int, s: Elt)
    requires Complete(k) && r == Add(k, p, q) && Finite(k, r) && (1 + e) % k.m != 0 && (1 - e) % k.m != 0
    requires Cong(SumE(p, q) * w, n, k.m) && Cong(SumH(p, q) * w, n', k.m)
    requires Cong(SumF(k.d, p, q) * w, 1 - e, k.m) && Cong(SumG(k.d, p, q) * w, 1 + e, k.m)
    requires 0 <= s.0 < k.m && 0 <= s.1 < k.m && Cong(s.0 * (1 + e), n, k.m) && Cong(s.1 * (1 - e), n', k.m)
    ensures AffineOf(k, r) == s
  {
    var m, f, g, c := k.m, SumF(k.d, p, q), SumG(k.d, p, q), AffineOf(k, r);
    AddFormula(k, p, q);
    AffineSound(k, r);
    NonzeroFactor(f, w, 1 - e, m);
    NonzeroFactor(g, w, 1 + e, m);
    assert f * g == g * f && SumE(p, q) * f == f * SumE(p, q) && g * SumH(p, q) == SumH(p, q) * g;
    CongMul(c.0, c.0, r.z, 4 * (f * g), m);
    CongMul(c.1, c.1, r.z, 4 * (g * f), m);
    SumCoordinate(c.0, SumE(p, q), f, g, w, n, 1 + e, m);
    SumCoordinate(c.1, SumH(p, q), g, f, w, n', 1 - e, m);
    QuotientUnique(c.0, s.0, 1 + e, n, m);
    QuotientUnique(c.1, s.1, 1 - e, n', m);
  }

  lemma NonzeroFactor(f: int, w: int, u: int, m: int)
    requires m > 0 && Cong(f * w, u, m) && u % m != 0
    ensures f % m != 0
  {
    if f % m == 0 {
      ZeroResidue(m);
      CongMul(f, 0, w, w, m);
    }
  }

  // ---------------------------------------------------------- the group laws

  /** Every element is the affine form of a finite point. */
  function Lift(a: Elt): Pt { Pt(a.0, a.1, 1, a.0 * a.1) }

  lemma LiftSound(k: Curve, a: Elt)
    requires Proper(k) && Element(k, a)
    ensures Finite(k, Lift(a)) && AffineOf(k, Lift(a)) == a
  {
    AffineOfOne(k, Lift(a));
    DivUnique(1, 0, 1, k.m);
  }

  lemma SumClosed(k: Curve, a: Elt, b: Elt)
    requires Complete(k) && Element(k, a) && Element(k, b)
    ensures Element(k, Sum(k, a, b))
  {
    LiftSound(k, a);
    LiftSound(k, b);
    AddIsSum(k, Lift(a), Lift(b));
    AffineSound(k, Add(k, Lift(a), Lift(b)));
  }

  lemma SumCommutes(k: Curve, a: Elt, b: Elt)
    requires k.m > 2
    ensures Sum(k, a, b) == Sum(k, b, a)
  {
    assert (a.0 * a.1) * (b.0 * b.1) == (b.0 * b.1) * (a.0 * a.1);
    assert a.0 * b.1 + a.1 * b.0 == b.0 * a.1 + b.1 * a.0 && a.1 * b.1 + a.0 * b.0 == b.1 * a.1 + b.0 * a.0;
  }

  lemma SumNeutral(k: Curve, a: Elt)
    requires k.m > 2 && 0 <= a.0 < k.m && 0 <= a.1 < k.m
    ensures Sum(k, ZERO, a) == a
  {
    assert k.d * ((0 * 1) * (a.0 * a.1)) == 0;
    PowOne(k.m - 2);
    DivUnique(1, 0, 1, k.m);
    DivUnique(a.0, 0, a.0, k.m);
    DivUnique(a.1, 0, a.1, k.m);
  }

  lemma SumInverse(k: Curve, a: Elt)
    requires Complete(k) && Element(k, a)
    ensures Element(k, Opposed(k, a)) && Sum(k, a, Opposed(k, a)) == ZERO
  {
    var m, x, y, n := k.m, a.0, a.1, (0 - a.0) % k.m;
    ModIdem(0 - x, m);
    AffineEqNegated(x, y, k.d, m);
    AffineEqCong(0 - x, y, n, y, k.d, m);
    var q := k.d * ((x * y) * (n * y));
    SumSound(k, a, (n, y), q);
    InverseNumerators(x, y, n, k.d, q, m);
    DivUnique(1, 0, 1, m);
    QuotientUnique(Sum(k, a, (n, y)).0, 0, 1 + q, x * y + y * n, m);
    QuotientUnique(Sum(k, a, (n, y)).1, 1, 1 - q, y * y + x * n, m);
  }

  lemma AffineEqNegated(x: int, y: int, d: int, m: int)
    requires m > 0 && AffineEq(x, y, d, m)
    ensures AffineEq(0 - x, y, d, m)
  {
    assert (0 - x) * (0 - x) == x * x && (0 - x) * y == -(x * y);
    Squares(x * y);
  }

  lemma InverseNumerators(x: int, y: int, n: int, d: int, q: int, m: int)
    requires m > 0 && AffineEq(x, y, d, m) && Cong(n, 0 - x, m) && q == d * ((x * y) * (n * y))
    ensures Cong(0 * (1 + q), x * y + y * n, m) && Cong(1 * (1 - q), y * y + x * n, m)
  {
    CongMul(y, y, n, 0 - x, m);
    CongMul(x, x, n, 0 - x, m);
    CongMul(n, 0 - x, y, y, m);
    var u := x * y;
    assert y * (0 - x) == -u && (0 - x) * y == -u && x * (0 - x) == -(x * x);
    CongAdd(u, u, y * n, -u, m);
    CongAdd(y * y, y * y, x * n, -(x * x), m);
    CongMul(u, u, n * y, -u, m);
    CongMul(d, d, u * (n * y), u * -u, m);
    assert d * (u * -u) == -(d * (u * u));
    CongSub(1, 1, q, -(d * (u * u)), m);
  }

  // ------------------------------------------------------------ associativity

  /** The curve equation as a value for d (xy)^2. */
  lemma CurveSquare(x: int, y: int, d: int, m: int)
    requires m > 0 && AffineEq(x, y, d, m)
    ensures Cong(d * ((x * y) * (x * y)), (y + x) * (y - x) - 1, m)
  {
    assert (y + x) * (y - x) == y * y - x * x;
    CongSub(y * y - x * x, 1 + d * ((x * y) * (x * y)), 1, 1, m);
  }

  lemma MultipleCong(u: int, v: int, u2: int, s2: int, v2: int, u3: int, s3: int, v3: int, w: int, w2: int, w3: int,
                     m: int)
    requires m > 0 && Cong(v, w, m) && Cong(v2, w2, m) && Cong(v3, w3, m)
    ensures Cong(Multiple(u, v, u2, s2, v2, u3, s3, v3), Multiple(u, w, u2, s2, w2, u3, s3, w3), m)
  {
    var k := u2 * s3 + u3 * s2;
    CongMul(v2, w2, v3, w3, m);
    CongSub(1, 1, v2 * v3, w2 * w3, m);
    CongMul(u, u, 1 - v2 * v3, 1 - w2 * w3, m);
    CongMul(v, w, k, k, m);
    CongAdd(u * (1 - v2 * v3), u * (1 - w2 * w3), v * k, w * k, m);
  }

  lemma GapCong(sum: int, left: int, right: int, u1: int, u2: int, u3: int, s1: int, s2: int, s3: int,
                v1: int, v2: int, v3: int, w1: int, w2: int, w3: int, m: int)
    requires m > 0 && Cong(v1, w1, m) && Cong(v2, w2, m) && Cong(v3, w3, m)
    ensures Cong(Gap(sum, left, right, u1, u2, u3, s1, s2, s3, v1, v2, v3),
                 Gap(sum, left, right, u1, u2, u3, s1, s2, s3, w1, w2, w3), m)
  {
    var z := u1 * s3 - u3 * s1;
    CongSub(v1, w1, v3, w3, m);
    CongMul(u2, u2, v1 - v3, w1 - w3, m);
    CongAdd(u2 * (v1 - v3), u2 * (w1 - w3), z, z, m);
    CongMul(sum, sum, u2 * (v1 - v3) + z, u2 * (w1 - w3) + z, m);
    var p, p' := Multiple(u1, v1, u2, s2, v2, u3, s3, v3), Multiple(u1, w1, u2, s2, w2, u3, s3, w3);
    var r, r' := Multiple(u3, v3, u2, s2, v2, u1, s1, v1), Multiple(u3, w3, u2, s2, w2, u1, s1, w1);
    MultipleCong(u1, v1, u2, s2, v2, u3, s3, v3, w1, w2, w3, m);
    MultipleCong(u3, v3, u2, s2, v2, u1, s1, v1, w3, w2, w1, m);
    CongMul(left, left, p, p', m);
    CongMul(right, right, r, r', m);
    CongSub(sum * (u2 * (v1 - v3) + z), sum * (u2 * (w1 - w3) + z), left * p, left * p', m);
    CongAdd(sum * (u2 * (v1 - v3) + z) - left * p, sum * (u2 * (w1 - w3) + z) - left * p', right * r, right * r', m);
  }

  /** A vanishing gap makes the cross products of both bracketings equal. */
  lemma CrossEqual(d: int, sum: int, left: int, right: int, u1: int, u2: int, u3: int, s1: int, s2: int, s3: int,
                   w1: int, w2: int, w3: int, m: int)
    requires m > 0 && Cong(d * (u1 * u1), w1, m) && Cong(d * (u2 * u2), w2, m) && Cong(d * (u3 * u3), w3, m)
    requires Gap(sum, left, right, u1, u2, u3, s1, s2, s3, w1, w2, w3) == 0
    ensures Cong((sum - (d * (u1 * u2)) * left) * Divisor(d, u3, s3, u2, s2, u1),
                 (sum - (d * (u3 * u2)) * right) * Divisor(d, u1, s1, u2, s2, u3), m)
  {
    var l := (sum - (d * (u1 * u2)) * left) * Divisor(d, u3, s3, u2, s2, u1);
    var r := (sum - (d * (u3 * u2)) * right) * Divisor(d, u1, s1, u2, s2, u3);
    var v1, v2, v3 := d * (u1 * u1), d * (u2 * u2), d * (u3 * u3);
    CrossDifference(d, sum, left, right, u1, u2, u3, s1, s2, s3);
    GapCong(sum, left, right, u1, u2, u3, s1, s2, s3, v1, v2, v3, w1, w2, w3, m);
    CongMul(d * u2, d * u2, Gap(sum, left, right, u1, u2, u3, s1, s2, s3, v1, v2, v3), 0, m);
    CongAdd(l - r, 0, r, r, m);
  }

  /** A coordinate of (a + b) + c, cleared of the denominators of a + b. */
  lemma Cleared(p: int, x: int, y: int, q: int, e: int, h: int, g: int, f: int, u: int, d: int, m: int)
    requires FieldLaws(m) && (1 + q) % m != 0 && (1 - q) % m != 0 && (1 + d * ((x * y) * u)) % m != 0
    requires Cong(x * (1 + q), e, m) && Cong(y * (1 - q), h, m) && Cong(p * (1 + d * ((x * y) * u)), x * g + y * f, m)
    ensures var den := 1 - q * q + d * ((e * h) * u);
            den % m != 0 && Cong(p * den, (e * g + h * f) - q * (e * g - h * f), m)
  {
    var r, s, k := 1 + q, 1 - q, 1 + d * ((x * y) * u);
    var den := 1 - q * q + d * ((e * h) * u);
    assert r * s == 1 - q * q;
    CongMul(x * r, e, y * s, h, m);
    CongMul((x * r) * (y * s), e * h, u, u, m);
    CongMul(d, d, ((x * r) * (y * s)) * u, (e * h) * u, m);
    ClearedDivisor(x, y, r, s, u, d);
    CongAdd(r * s, r * s, d * (((x * r) * (y * s)) * u), d * ((e * h) * u), m);
    NonzeroProduct(r, s, m);
    NonzeroProduct(r * s, k, m);
    CongMul(p * k, x * g + y * f, r * s, r * s, m);
    CongMul(p, p, k * (r * s), den, m);
    MulAssoc(p, k, r * s);
    CongMul(x * r, e, s * g, s * g, m);
    CongMul(y * s, h, r * f, r * f, m);
    CongAdd((x * r) * (s * g), e * (s * g), (y * s) * (r * f), h * (r * f), m);
    ClearedNumerator(x, y, r, s, g, f);
    SignedNumerator(e, h, q, g, f);
  }

  lemma ClearedDivisor(x: int, y: int, r: int, s: int, u: int, d: int)
    ensures (1 + d * ((x * y) * u)) * (r * s) == r * s + d * (((x * r) * (y * s)) * u)
    ensures (r * s) * (1 + d * ((x * y) * u)) == r * s + d * (((x * r) * (y * s)) * u)
  {
    Interchange(x, r, y, s);
    var a, b := x * y, r * s;
    assert (a * b) * u == (a * u) * b;
    assert (d * (a * u)) * b == d * ((a * u) * b);
    More(1, d * (a * u), b);
  }

  lemma ClearedNumerator(x: int, y: int, r: int, s: int, g: int, f: int)
    ensures (x * g + y * f) * (r * s) == (x * r) * (s * g) + (y * s) * (r * f)
  {
    More(x * g, y * f, r * s);
    Interchange(x, g, r, s);
    Interchange(y, f, s, r);
    assert r * s == s * r && g * s == s * g && f * r == r * f;
  }

  lemma SignedNumerator(e: int, h: int, q: int, g: int, f: int)
    ensures e * ((1 - q) * g) + h * ((1 + q) * f) == (e * g + h * f) - q * (e * g - h * f)
  {
    assert e * ((1 - q) * g) == e * g - q * (e * g);
    assert h * ((1 + q) * f) == h * f + q * (h * f);
    assert q * (e * g - h * f) == q * (e * g) - q * (h * f);
  }

  /** Equal cross products make the cleared coordinates equal. */
  lemma CoordinatesEqual(p: int, p': int, n: int, n': int, den: int, den': int, m: int)
    requires FieldLaws(m) && den % m != 0 && den' % m != 0 && 0 <= p < m && 0 <= p' < m
    requires Cong(p * den, n, m) && Cong(p' * den', n', m) && Cong(n * den', n' * den, m)
    ensures p == p'
  {
    NonzeroProduct(den, den', m);
    CongMul(p * den, n, den', den', m);
    CongMul(p' * den', n', den, den, m);
    MulAssoc(p, den, den');
    MulAssoc(p', den', den);
    assert den' * den == den * den';
    QuotientUnique(p, p', den * den', n * den', m);
  }

  /** The x coordinate of (a + b) + c without its denominators. */
  lemma ClearedX(k: Curve, a: Elt, b: Elt, c: Elt)
    requires Complete(k) && Element(k, a) && Element(k, b) && Element(k, c)
    ensures var d, x1, y1, x2, y2, x3, y3 := k.d, a.0, a.1, b.0, b.1, c.0, c.1;
            var e, h := x1 * y2 + y1 * x2, y1 * y2 + x1 * x2;
            var den := Divisor(d, x1 * y1, x1 * x1 + y1 * y1, x2 * y2, x2 * x2 + y2 * y2, x3 * y3);
            var n := (e * y3 + h * x3) - (d * ((x1 * y1) * (x2 * y2))) * (e * y3 - h * x3);
            den % k.m != 0 && 0 <= Sum(k, Sum(k, a, b), c).0 < k.m && Cong(Sum(k, Sum(k, a, b), c).0 * den, n, k.m)
  {
    var d, r, u1, u2, u3 := k.d, Sum(k, a, b), a.0 * a.1, b.0 * b.1, c.0 * c.1;
    SumSound(k, a, b, d * (u1 * u2));
    SumClosed(k, a, b);
    SumSound(k, r, c, d * ((r.0 * r.1) * u3));
    Cleared(Sum(k, r, c).0, r.0, r.1, d * (u1 * u2), a.0 * b.1 + a.1 * b.0, a.1 * b.1 + a.0 * b.0, c.1, c.0, u3, d,
            k.m);
    CrossProduct(a.0, a.1, b.0, b.1);
  }

  /** The y coordinate of (a + b) + c without its denominators. */
  lemma ClearedY(k: Curve, a: Elt, b: Elt, c: Elt)
    requires Complete(k) && Element(k, a) && Element(k, b) && Element(k, c)
    ensures var d, x1, y1, x2, y2, x3, y3 := k.d, a.0, a.1, b.0, b.1, c.0, c.1;
            var e, h := x1 * y2 + y1 * x2, y1 * y2 + x1 * x2;
            var den := Divisor(d, x1 * y1, -(x1 * x1 + y1 * y1), x2 * y2, -(x2 * x2 + y2 * y2), x3 * y3);
            var n := (e * x3 + h * y3) - (d * ((x1 * y1) * (x2 * y2))) * (e * x3 - h * y3);
            den % k.m != 0 && 0 <= Sum(k, Sum(k, a, b), c).1 < k.m && Cong(Sum(k, Sum(k, a, b), c).1 * den, n, k.m)
  {
    var d, r, u1, u2, u3 := k.d, Sum(k, a, b), a.0 * a.1, b.0 * b.1, c.0 * c.1;
    var e, h := a.0 * b.1 + a.1 * b.0, a.1 * b.1 + a.0 * b.0;
    SumSound(k, a, b, d * (u1 * u2));
    SumClosed(k, a, b);
    SumSound(k, r, c, d * ((r.0 * r.1) * u3));
    NegatedTerm(d, r.0 * r.1, u3);
    Cleared(Sum(k, r, c).1, r.0, r.1, d * (u1 * u2), e, h, c.0, c.1, -u3, d, k.m);
    CrossProduct(a.0, a.1, b.0, b.1);
    NegatedDivisor(d, u1, a.0 * a.0 + a.1 * a.1, u2, b.0 * b.0 + b.1 * b.1, u3, e * h);
  }

  lemma XAssociates(k: Curve, a: Elt, b: Elt, c: Elt)
    requires Complete(k) && Element(k, a) && Element(k, b) && Element(k, c)
    ensures Sum(k, Sum(k, a, b), c).0 == Sum(k, Sum(k, c, b), a).0
  {
    var m, d, x1, y1, x2, y2, x3, y3 := k.m, k.d, a.0, a.1, b.0, b.1, c.0, c.1;
    var u1, u2, u3, s1, s2, s3 := x1 * y1, x2 * y2, x3 * y3, x1 * x1 + y1 * y1, x2 * x2 + y2 * y2, x3 * x3 + y3 * y3;
    var e, h, e', h' := x1 * y2 + y1 * x2, y1 * y2 + x1 * x2, x3 * y2 + y3 * x2, y3 * y2 + x3 * x2;
    CurveSquare(x1, y1, d, m);
    CurveSquare(x2, y2, d, m);
    CurveSquare(x3, y3, d, m);
    GapX(x1, y1, x2, y2, x3, y3);
    CrossEqual(d, e * y3 + h * x3, e * y3 - h * x3, e' * y1 - h' * x1, u1, u2, u3, s1, s2, s3,
               (y1 + x1) * (y1 - x1) - 1, (y2 + x2) * (y2 - x2) - 1, (y3 + x3) * (y3 - x3) - 1, m);
    ClearedX(k, a, b, c);
    ClearedX(k, c, b, a);
    CoordinatesEqual(Sum(k, Sum(k, a, b), c).0, Sum(k, Sum(k, c, b), a).0,
                     (e * y3 + h * x3) - (d * (u1 * u2)) * (e * y3 - h * x3),
                     (e' * y1 + h' * x1) - (d * (u3 * u2)) * (e' * y1 - h' * x1),
                     Divisor(d, u1, s1, u2, s2, u3), Divisor(d, u3, s3, u2, s2, u1), m);
  }

  lemma YAssociates(k: Curve, a: Elt, b: Elt, c: Elt)
    requires Complete(k) && Element(k, a) && Element(k, b) && Element(k, c)
    ensures Sum(k, Sum(k, a, b), c).1 == Sum(k, Sum(k, c, b), a).1
  {
    var m, d, x1, y1, x2, y2, x3, y3 := k.m, k.d, a.0, a.1, b.0, b.1, c.0, c.1;
    var u1, u2, u3, s1, s2, s3 := x1 * y1, x2 * y2, x3 * y3, x1 * x1 + y1 * y1, x2 * x2 + y2 * y2, x3 * x3 + y3 * y3;
    var e, h, e', h' := x1 * y2 + y1 * x2, y1 * y2 + x1 * x2, x3 * y2 + y3 * x2, y3 * y2 + x3 * x2;
    CurveSquare(x1, y1, d, m);
    CurveSquare(x2, y2, d, m);
    CurveSquare(x3, y3, d, m);
    GapY(x1, y1, x2, y2, x3, y3);
    CrossEqual(d, e * x3 + h * y3, e * x3 - h * y3, e' * x1 - h' * y1, u1, u2, u3, -s1, -s2, -s3,
               (y1 + x1) * (y1 - x1) - 1, (y2 + x2) * (y2 - x2) - 1, (y3 + x3) * (y3 - x3) - 1, m);
    ClearedY(k, a, b, c);
    ClearedY(k, c, b, a);
    CoordinatesEqual(Sum(k, Sum(k, a, b), c).1, Sum(k, Sum(k, c, b), a).1,
                     (e * x3 + h * y3) - (d * (u1 * u2)) * (e * x3 - h * y3),
                     (e' * x1 + h' * y1) - (d * (u3 * u2)) * (e' * x1 - h' * y1),
                     Divisor(d, u1, -s1, u2, -s2, u3), Divisor(d, u3, -s3, u2, -s2, u1), m);
  }

  lemma NegatedTerm(d: int, x: int, u: int)
    ensures 1 + d * (x * -u) == 1 - d * (x * u)
  {
    assert x * -u == -(x * u);
    Negatives(d, x * u);
  }

  lemma NegatedDivisor(d: int, u1: int, s1: int, u2: int, s2: int, u3: int, p: int)
    requires p == u1 * s2 + u2 * s1
    ensures Divisor(d, u1, -s1, u2, -s2, u3) == 1 - (d * (u1 * u2)) * (d * (u1 * u2)) + d * (p * -u3)
  {
    Negatives(u1, s2);
    Negatives(u2, s1);
    assert -p * u3 == p * -u3;
  }

  /** The sum is associative. */
  lemma SumAssociates(k: Curve, a: Elt, b: Elt, c: Elt)
    requires Complete(k) && Element(k, a) && Element(k, b) && Element(k, c)
    ensures Sum(k, Sum(k, a, b), c) == Sum(k, a, Sum(k, b, c))
  {
    XAssociates(k, a, b, c);
    YAssociates(k, a, b, c);
    SumCommutes(k, c, b);
    SumCommutes(k, Sum(k, b, c), a);
  }
}
