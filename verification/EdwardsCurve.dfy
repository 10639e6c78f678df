/**
  Twisted Edwards curves -x^2 + y^2 = 1 + d x^2 y^2 modulo any m, in extended
  coordinates, with the unified addition of crypto/ed25519.c.
 */
module EdwardsCurve {
  import opened ModArith

  /**
    The modulus, the coefficient d, the constant the addition uses for 2d, a square root
    of -1, the exponent (m - 5) / 8 and the weight of the sign bit in an encoded point.
   */
  datatype Curve = Curve(m: int, d: int, d2: int, i: int, e: nat, sign: int)

  /** Extended coordinates. */
  datatype Pt = Pt(x: int, y: int, z: int, t: int)

  predicate Proper(c: Curve) {
    c.m == 8 * c.e + 5 && c.sign > 0 && Cong(c.d2, 2 * c.d, c.m) && Cong(c.i * c.i, -1, c.m)
  }

  function Plus(a: int, b: int, m: int): int requires m > 0 { (a + b) % m }
  function Minus(a: int, b: int, m: int): int requires m > 0 { (a - b) % m }
  function Times(a: int, b: int, m: int): int requires m > 0 { a * b % m }

  /** The four intermediate values of `add`. */
  function AddE(c: Curve, p: Pt, q: Pt): int
    requires c.m > 0
  {
    Minus(Times(Plus(p.x, p.y, c.m), Plus(q.x, q.y, c.m), c.m),
          Times(Minus(p.y, p.x, c.m), Minus(q.y, q.x, c.m), c.m), c.m)
  }

  function AddH(c: Curve, p: Pt, q: Pt): int
    requires c.m > 0
  {
    Plus(Times(Plus(p.x, p.y, c.m), Plus(q.x, q.y, c.m), c.m),
         Times(Minus(p.y, p.x, c.m), Minus(q.y, q.x, c.m), c.m), c.m)
  }

  function AddF(c: Curve, p: Pt, q: Pt): int
    requires c.m > 0
  {
    Minus(Plus(Times(p.z, q.z, c.m), Times(p.z, q.z, c.m), c.m), Times(Times(p.t, q.t, c.m), c.d2, c.m), c.m)
  }

  function AddG(c: Curve, p: Pt, q: Pt): int
    requires c.m > 0
  {
    Plus(Plus(Times(p.z, q.z, c.m), Times(p.z, q.z, c.m), c.m), Times(Times(p.t, q.t, c.m), c.d2, c.m), c.m)
  }

  /** The unified addition, one field operation at a time. */
  function Add(c: Curve, p: Pt, q: Pt): Pt
    requires c.m > 0
  {
    var e, f, g, h := AddE(c, p, q), AddF(c, p, q), AddG(c, p, q), AddH(c, p, q);
    Pt(Times(e, f, c.m), Times(h, g, c.m), Times(g, f, c.m), Times(e, h, c.m))
  }

  /** The addition as the sequence of field operations in `add`. */
  lemma AddSteps(k: Curve, p: Pt, q: Pt, a: int, b: int, c: int, d: int, m: int)
    requires m == k.m > 0
    requires a == Times(Minus(p.y, p.x, m), Minus(q.y, q.x, m), m)
    requires b == Times(Plus(p.x, p.y, m), Plus(q.x, q.y, m), m)
    requires c == Times(Times(p.t, q.t, m), k.d2, m) && d == Plus(Times(p.z, q.z, m), Times(p.z, q.z, m), m)
    ensures Add(k, p, q) == Pt(Times(Minus(b, a, m), Minus(d, c, m), m), Times(Plus(b, a, m), Plus(d, c, m), m),
                               Times(Plus(d, c, m), Minus(d, c, m), m), Times(Minus(b, a, m), Plus(b, a, m), m))
  {}

  /** A point satisfies both equations of the extended curve. */
  predicate OnCurve(c: Curve, p: Pt)
    requires c.m > 0
  {
    && Cong(p.x * p.y, p.z * p.t, c.m)
    && Cong(p.y * p.y - p.x * p.x, p.z * p.z + c.d * (p.t * p.t), c.m)
  }

  const IDENTITY: Pt := Pt(0, 1, 1, 0)

  lemma IdentityOnCurve(c: Curve)
    requires c.m > 0
    ensures OnCurve(c, IDENTITY)
  {}

  // --------------------------------------------------- the textbook formula

  lemma TimesCong(a: int, a': int, b: int, b': int, m: int)
    requires m > 0 && Cong(a, a', m) && Cong(b, b', m)
    ensures Cong(Times(a, b, m), a' * b', m)
  {
    CongMul(a, a', b, b', m);
    ModIdem(a * b, m);
  }

  lemma PlusCong(a: int, a': int, b: int, b': int, m: int)
    requires m > 0 && Cong(a, a', m) && Cong(b, b', m)
    ensures Cong(Plus(a, b, m), a' + b', m)
  {
    CongAdd(a, a', b, b', m);
    ModIdem(a + b, m);
  }

  lemma MinusCong(a: int, a': int, b: int, b': int, m: int)
    requires m > 0 && Cong(a, a', m) && Cong(b, b', m)
    ensures Cong(Minus(a, b, m), a' - b', m)
  {
    CongSub(a, a', b, b', m);
    ModIdem(a - b, m);
  }

  /** The textbook numerators and denominators of a sum, as plain integers. */
  function SumE(p: Pt, q: Pt): int { p.x * q.y + p.y * q.x }
  function SumH(p: Pt, q: Pt): int { p.y * q.y + p.x * q.x }
  function SumF(d: int, p: Pt, q: Pt): int { p.z * q.z - d * (p.t * q.t) }
  function SumG(d: int, p: Pt, q: Pt): int { p.z * q.z + d * (p.t * q.t) }

  lemma CrossTerms(c: Curve, p: Pt, q: Pt)
    requires c.m > 0
    ensures Cong(AddE(c, p, q), 2 * SumE(p, q), c.m)
    ensures Cong(AddH(c, p, q), 2 * SumH(p, q), c.m)
  {
    PlusCong(p.x, p.x, p.y, p.y, c.m);
    PlusCong(q.x, q.x, q.y, q.y, c.m);
    MinusCong(p.y, p.y, p.x, p.x, c.m);
    MinusCong(q.y, q.y, q.x, q.x, c.m);
    var b, a := (p.x + p.y) * (q.x + q.y), (p.y - p.x) * (q.y - q.x);
    TimesCong(Plus(p.x, p.y, c.m), p.x + p.y, Plus(q.x, q.y, c.m), q.x + q.y, c.m);
    TimesCong(Minus(p.y, p.x, c.m), p.y - p.x, Minus(q.y, q.x, c.m), q.y - q.x, c.m);
    var b' := Times(Plus(p.x, p.y, c.m), Plus(q.x, q.y, c.m), c.m);
    var a' := Times(Minus(p.y, p.x, c.m), Minus(q.y, q.x, c.m), c.m);
    MinusCong(b', b, a', a, c.m);
    PlusCong(b', b, a', a, c.m);
    CrossExpand(p.x, p.y, q.x, q.y);
  }

  lemma CrossExpand(x: int, y: int, x': int, y': int)
    ensures (x + y) * (x' + y') - (y - x) * (y' - x') == 2 * (x * y' + y * x')
    ensures (x + y) * (x' + y') + (y - x) * (y' - x') == 2 * (y * y' + x * x')
  {}

  lemma DiagonalTerms(c: Curve, p: Pt, q: Pt)
    requires Proper(c)
    ensures Cong(AddF(c, p, q), 2 * SumF(c.d, p, q), c.m)
    ensures Cong(AddG(c, p, q), 2 * SumG(c.d, p, q), c.m)
  {
    var zz, tt := p.z * q.z, p.t * q.t;
    var z' := Times(p.z, q.z, c.m);
    var t' := Times(Times(p.t, q.t, c.m), c.d2, c.m);
    TimesCong(p.t, p.t, q.t, q.t, c.m);
    TimesCong(Times(p.t, q.t, c.m), tt, c.d2, 2 * c.d, c.m);
    TimesCong(p.z, p.z, q.z, q.z, c.m);
    PlusCong(z', zz, z', zz, c.m);
    MinusCong(Plus(z', z', c.m), zz + zz, t', tt * (2 * c.d), c.m);
    PlusCong(Plus(z', z', c.m), zz + zz, t', tt * (2 * c.d), c.m);
    assert tt * (2 * c.d) == 2 * (c.d * tt);
  }

  /** `Add` computes the textbook sum, scaled by 4. */
  lemma AddFormula(c: Curve, p: Pt, q: Pt)
    requires Proper(c)
    ensures var r, e, f, g, h := Add(c, p, q), SumE(p, q), SumF(c.d, p, q), SumG(c.d, p, q), SumH(p, q);
            && Cong(r.x, 4 * (e * f), c.m) && Cong(r.y, 4 * (g * h), c.m)
            && Cong(r.z, 4 * (f * g), c.m) && Cong(r.t, 4 * (e * h), c.m)
  {
    CrossTerms(c, p, q);
    DiagonalTerms(c, p, q);
    DoubledProducts(AddE(c, p, q), AddF(c, p, q), AddG(c, p, q), AddH(c, p, q),
                    SumE(p, q), SumF(c.d, p, q), SumG(c.d, p, q), SumH(p, q), c.m);
  }

  lemma DoubledProducts(e2: int, f2: int, g2: int, h2: int, e: int, f: int, g: int, h: int, m: int)
    requires m > 0 && Cong(e2, 2 * e, m) && Cong(f2, 2 * f, m) && Cong(g2, 2 * g, m) && Cong(h2, 2 * h, m)
    ensures Cong(Times(e2, f2, m), 4 * (e * f), m) && Cong(Times(h2, g2, m), 4 * (g * h), m)
    ensures Cong(Times(g2, f2, m), 4 * (f * g), m) && Cong(Times(e2, h2, m), 4 * (e * h), m)
  {
    DoubledProduct(e2, f2, e, f, m);
    DoubledProduct(h2, g2, h, g, m);
    DoubledProduct(g2, f2, g, f, m);
    DoubledProduct(e2, h2, e, h, m);
    assert h * g == g * h && g * f == f * g;
  }

  lemma DoubledProduct(a2: int, b2: int, a: int, b: int, m: int)
    requires m > 0 && Cong(a2, 2 * a, m) && Cong(b2, 2 * b, m)
    ensures Cong(Times(a2, b2, m), 4 * (a * b), m)
  {
    TimesCong(a2, 2 * a, b2, 2 * b, m);
    assert (2 * a) * (2 * b) == 4 * (a * b);
  }

  // ------------------------------------------------------ integer identities

  lemma CrossSquares(x: int, y: int, x': int, y': int)
    ensures (y * y' + x * x') * (y * y' + x * x') - (x * y' + y * x') * (x * y' + y * x')
         == (y * y - x * x) * (y' * y' - x' * x')
    ensures (y * y' + x * x') * (y * y' + x * x') + (x * y' + y * x') * (x * y' + y * x')
         == (y * y + x * x) * (y' * y' + x' * x') + 4 * ((x * y) * (x' * y'))
  {
    PairSquare(y, y', x, x');
    PairSquare(x, y', y, x');
    Quadrants(y * y, x * x, y' * y', x' * x');
  }

  lemma PairSquare(a: int, b: int, c: int, d: int)
    ensures (a * b + c * d) * (a * b + c * d) == (a * a) * (b * b) + (c * c) * (d * d) + 2 * ((a * c) * (b * d))
  {}

  lemma Quadrants(u: int, v: int, u': int, v': int)
    ensures (u - v) * (u' - v') == u * u' + v * v' - v * u' - u * v'
    ensures (u + v) * (u' + v') == u * u' + v * v' + v * u' + u * v'
  {}

  lemma CrossProduct(x: int, y: int, x': int, y': int)
    ensures (x * y' + y * x') * (y * y' + x * x') == (x * y) * (y' * y' + x' * x') + (x' * y') * (y * y + x * x)
  {}

  lemma SumOfSquares(x: int, y: int)
    ensures (y * y + x * x) * (y * y + x * x) == (y * y - x * x) * (y * y - x * x) + 4 * ((x * y) * (x * y))
  {}

  lemma WeightedSquares(u: int, v: int, e: int, h: int)
    ensures ((u + v) * h) * ((u + v) * h) - (e * (u - v)) * (e * (u - v))
         == (u * u + v * v) * (h * h - e * e) + 2 * (u * v) * (h * h + e * e)
    ensures ((u - v) * (u + v)) * ((u - v) * (u + v)) == (u * u - v * v) * (u * u - v * v)
  {
    var hh, ee := h * h, e * e;
    assert ((u + v) * h) * ((u + v) * h) == (u * u + v * v + 2 * (u * v)) * hh;
    assert (e * (u - v)) * (e * (u - v)) == (u * u + v * v - 2 * (u * v)) * ee;
  }

  /** The defect of a sum in the curve equation, in terms of the defects of its summands. */
  lemma Defect(u: int, v: int, d: int, e: int, h: int, a: int, a': int, m: int, m': int, s: int, s': int)
    requires h * h - e * e == a * a' && h * h + e * e == s * s' + 4 * (m * m') && e * h == m * s' + m' * s
    requires s * s == a * a + 4 * (m * m) && s' * s' == a' * a' + 4 * (m' * m')
    ensures (u * u + v * v) * (h * h - e * e) + 2 * (u * v) * (h * h + e * e)
            - (u * u - v * v) * (u * u - v * v) - d * ((e * h) * (e * h))
         == (2 * (s * s') + 8 * (m * m')) * (u * v - d * (m * m')) + Bracket(u * u, v * v, d, a, a', m, m')
  {
    SquareOfSum(m, m', s, s', a, a');
    var mm, ss, uv := m * m', s * s', u * v;
    var x, y := (m * m) * (a' * a'), (m' * m') * (a * a);
    assert d * (x + y + 8 * (mm * mm) + 2 * (mm * ss)) == d * x + d * y + 8 * (d * (mm * mm)) + 2 * (d * (mm * ss));
    assert (2 * ss + 8 * mm) * (uv - d * mm)
           == 2 * (ss * uv) + 8 * (mm * uv) - 2 * (d * (mm * ss)) - 8 * (d * (mm * mm));
    assert 2 * uv * (ss + 4 * mm) == 2 * (ss * uv) + 8 * (mm * uv);
  }

  function Bracket(u2: int, v2: int, d: int, a: int, a': int, m: int, m': int): int {
    (u2 + v2) * (a * a') - (u2 - v2) * (u2 - v2) - d * ((m * m) * (a' * a')) - d * ((m' * m') * (a * a))
  }

  lemma SquareOfSum(m: int, m': int, s: int, s': int, a: int, a': int)
    requires s * s == a * a + 4 * (m * m) && s' * s' == a' * a' + 4 * (m' * m')
    ensures (m * s' + m' * s) * (m * s' + m' * s)
         == (m * m) * (a' * a') + (m' * m') * (a * a) + 8 * ((m * m') * (m * m')) + 2 * ((m * m') * (s * s'))
  {
    assert (m * s' + m' * s) * (m * s' + m' * s)
           == (m * m) * (s' * s') + (m' * m') * (s * s) + 2 * ((m * m') * (s * s'));
    assert (m * m) * (a' * a' + 4 * (m' * m')) == (m * m) * (a' * a') + 4 * ((m * m') * (m * m'));
    assert (m' * m') * (a * a + 4 * (m * m)) == (m' * m') * (a * a) + 4 * ((m * m') * (m * m'));
  }

  /** On points of the curve the bracket vanishes identically. */
  lemma BracketVanishes(z: int, t: int, z': int, t': int, d: int)
    ensures Bracket((z * z') * (z * z'), (d * (t * t')) * (d * (t * t')), d,
                    z * z + d * (t * t), z' * z' + d * (t' * t'), z * t, z' * t') == 0
  {
    var p, q, p', q' := z * z, d * (t * t), z' * z', d * (t' * t');
    var c, c' := p + q, p' + q';
    SquareProduct(z, z');
    WeightedProduct(t, t', d);
    WeightedSquare(z, t, d, c' * c');
    WeightedSquare(z', t', d, c * c);
    QuarticIdentity(p, q, p', q');
  }

  lemma SquareProduct(a: int, b: int)
    ensures (a * b) * (a * b) == (a * a) * (b * b)
  {}

  lemma WeightedProduct(t: int, t': int, d: int)
    ensures (d * (t * t')) * (d * (t * t')) == (d * (t * t)) * (d * (t' * t'))
  {
    SquareProduct(d, t * t');
    SquareProduct(t, t');
    var a, b := t * t, t' * t';
    assert (d * d) * (a * b) == (d * a) * (d * b);
  }

  lemma WeightedSquare(z: int, t: int, d: int, w: int)
    ensures d * (((z * t) * (z * t)) * w) == ((z * z) * (d * (t * t))) * w
  {
    SquareProduct(z, t);
    var a, b := z * z, t * t;
    assert d * ((a * b) * w) == (d * (a * b)) * w;
    assert d * (a * b) == a * (d * b);
  }

  lemma QuarticIdentity(p: int, q: int, p': int, q': int)
    ensures (p * p' + q * q') * ((p + q) * (p' + q')) - (p * p' - q * q') * (p * p' - q * q')
            - (p * q) * ((p' + q') * (p' + q')) - (p' * q') * ((p + q) * (p + q)) == 0
  {}

  // --------------------------------------------- addition stays on the curve

  /** The defect of a sum of curve points is a multiple of the modulus. */
  lemma DefectVanishes(c: Curve, p: Pt, q: Pt)
    requires c.m > 0 && OnCurve(c, p) && OnCurve(c, q)
    ensures var e, f, g, h := SumE(p, q), SumF(c.d, p, q), SumG(c.d, p, q), SumH(p, q);
            Cong((g * h) * (g * h) - (e * f) * (e * f), (f * g) * (f * g) + c.d * ((e * h) * (e * h)), c.m)
  {
    var d, e, h, u, v := c.d, SumE(p, q), SumH(p, q), p.z * q.z, c.d * (p.t * q.t);
    var a, a' := p.y * p.y - p.x * p.x, q.y * q.y - q.x * q.x;
    var m, m' := p.x * p.y, q.x * q.y;
    var s, s' := p.y * p.y + p.x * p.x, q.y * q.y + q.x * q.x;
    CrossSquares(p.x, p.y, q.x, q.y);
    CrossProduct(p.x, p.y, q.x, q.y);
    SumOfSquares(p.x, p.y);
    SumOfSquares(q.x, q.y);
    WeightedSquares(u, v, e, h);
    Defect(u, v, d, e, h, a, a', m, m', s, s');
    MixedTerm(c, p, q);
    CongMul(2 * (s * s') + 8 * (m * m'), 2 * (s * s') + 8 * (m * m'), u * v - d * (m * m'), 0, c.m);
    BracketCong(u * u, v * v, d, a, a', m, m', p.z * p.z + d * (p.t * p.t), q.z * q.z + d * (q.t * q.t), p.z * p.t,
                q.z * q.t, c.m);
    BracketVanishes(p.z, p.t, q.z, q.t, d);
    var lhs := (u * u + v * v) * (h * h - e * e) + 2 * (u * v) * (h * h + e * e);
    var rhs := (u * u - v * v) * (u * u - v * v) + d * ((e * h) * (e * h));
    CongAdd((2 * (s * s') + 8 * (m * m')) * (u * v - d * (m * m')), 0, Bracket(u * u, v * v, d, a, a', m, m'), 0, c.m);
    CongAdd(lhs - rhs, 0, rhs, rhs, c.m);
  }

  lemma MixedTerm(c: Curve, p: Pt, q: Pt)
    requires c.m > 0 && OnCurve(c, p) && OnCurve(c, q)
    ensures Cong((p.z * q.z) * (c.d * (p.t * q.t)) - c.d * ((p.x * p.y) * (q.x * q.y)), 0, c.m)
  {
    var n, m := (p.z * p.t) * (q.z * q.t), (p.x * p.y) * (q.x * q.y);
    CongMul(p.x * p.y, p.z * p.t, q.x * q.y, q.z * q.t, c.m);
    CongMul(c.d, c.d, m, n, c.m);
    assert (p.z * q.z) * (c.d * (p.t * q.t)) == c.d * n;
    CongSub(c.d * n, c.d * n, c.d * m, c.d * n, c.m);
  }

  lemma BracketCong(u2: int, v2: int, d: int, a: int, a': int, m: int, m': int, c: int, c': int, n: int, n': int,
                    k: int)
    requires k > 0 && Cong(a, c, k) && Cong(a', c', k) && Cong(m, n, k) && Cong(m', n', k)
    ensures Cong(Bracket(u2, v2, d, a, a', m, m'), Bracket(u2, v2, d, c, c', n, n'), k)
  {
    CongMul(a, c, a', c', k);
    CongMul(u2 + v2, u2 + v2, a * a', c * c', k);
    CrossCong(d, m, n, a', c', k);
    CrossCong(d, m', n', a, c, k);
    var w := (u2 - v2) * (u2 - v2);
    var x, x', y, y' := (u2 + v2) * (a * a'), (u2 + v2) * (c * c'), d * ((m * m) * (a' * a')),
        d * ((n * n) * (c' * c'));
    CongSub(x, x', w, w, k);
    CongSub(x - w, x' - w, y, y', k);
    CongSub(x - w - y, x' - w - y', d * ((m' * m') * (a * a)), d * ((n' * n') * (c * c)), k);
  }

  lemma CrossCong(d: int, m: int, n: int, a: int, c: int, k: int)
    requires k > 0 && Cong(m, n, k) && Cong(a, c, k)
    ensures Cong(d * ((m * m) * (a * a)), d * ((n * n) * (c * c)), k)
  {
    CongMul(m, n, m, n, k);
    CongMul(a, c, a, c, k);
    CongMul(m * m, n * n, a * a, c * c, k);
    CongMul(d, d, (m * m) * (a * a), (n * n) * (c * c), k);
  }

  /** Addition never leaves the curve. */
  lemma AddOnCurve(c: Curve, p: Pt, q: Pt)
    requires Proper(c) && OnCurve(c, p) && OnCurve(c, q)
    ensures OnCurve(c, Add(c, p, q))
  {
    var r, e, f, g, h := Add(c, p, q), SumE(p, q), SumF(c.d, p, q), SumG(c.d, p, q), SumH(p, q);
    AddFormula(c, p, q);
    DefectVanishes(c, p, q);
    ScaledCurve(c, r, e * f, g * h, f * g, e * h);
    ScaledSegre(c, r, e, f, g, h);
  }

  /** X Y = Z T for a sum, whatever its summands. */
  lemma ScaledSegre(c: Curve, r: Pt, e: int, f: int, g: int, h: int)
    requires c.m > 0
    requires Cong(r.x, 4 * (e * f), c.m) && Cong(r.y, 4 * (g * h), c.m) && Cong(r.z, 4 * (f * g), c.m)
    requires Cong(r.t, 4 * (e * h), c.m)
    ensures Cong(r.x * r.y, r.z * r.t, c.m)
  {
    CongMul(r.x, 4 * (e * f), r.y, 4 * (g * h), c.m);
    CongMul(r.z, 4 * (f * g), r.t, 4 * (e * h), c.m);
    SegreProducts(e, f, g, h);
  }

  lemma SegreProducts(e: int, f: int, g: int, h: int)
    ensures (4 * (e * f)) * (4 * (g * h)) == (4 * (f * g)) * (4 * (e * h))
  {
    assert (e * f) * (g * h) == (f * g) * (e * h);
  }

  lemma ScaledCurve(c: Curve, r: Pt, x: int, y: int, z: int, t: int)
    requires c.m > 0
    requires Cong(r.x, 4 * x, c.m) && Cong(r.y, 4 * y, c.m) && Cong(r.z, 4 * z, c.m) && Cong(r.t, 4 * t, c.m)
    requires Cong(y * y - x * x, z * z + c.d * (t * t), c.m)
    ensures Cong(r.y * r.y - r.x * r.x, r.z * r.z + c.d * (r.t * r.t), c.m)
  {
    var d := c.d;
    CongMul(r.x, 4 * x, r.x, 4 * x, c.m);
    CongMul(r.y, 4 * y, r.y, 4 * y, c.m);
    CongMul(r.z, 4 * z, r.z, 4 * z, c.m);
    CongMul(r.t, 4 * t, r.t, 4 * t, c.m);
    CongMul(d, d, r.t * r.t, (4 * t) * (4 * t), c.m);
    CongSub(r.y * r.y, (4 * y) * (4 * y), r.x * r.x, (4 * x) * (4 * x), c.m);
    CongAdd(r.z * r.z, (4 * z) * (4 * z), d * (r.t * r.t), d * ((4 * t) * (4 * t)), c.m);
    CongMul(16, 16, y * y - x * x, z * z + d * (t * t), c.m);
    SixteenTimes(x, y, z, t, d);
  }

  lemma SixteenTimes(x: int, y: int, z: int, t: int, d: int)
    ensures (4 * y) * (4 * y) - (4 * x) * (4 * x) == 16 * (y * y - x * x)
    ensures (4 * z) * (4 * z) + d * ((4 * t) * (4 * t)) == 16 * (z * z + d * (t * t))
  {}
}
