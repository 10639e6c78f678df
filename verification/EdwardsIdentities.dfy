/** The polynomial identity behind associativity of the Edwards addition law. */
module EdwardsIdentities {
  import opened Radix

  // Points enter as p = y + x and n = y - x, so that y^2 - x^2 = pn.

  /** Twice the numerator of x in a sum of three points. Swapping p and n of a point negates the point. */
  function Whole(p1: int, n1: int, p2: int, n2: int, p3: int, n3: int): int {
    p1 * (p2 * p3) - n1 * (n2 * n3)
  }

  /** Four times a multiple of a denominator has parts of degree four and six. */
  function Low(p1: int, n1: int, p2: int, n2: int, p3: int, n3: int): int {
    (p1 * p1 - n1 * n1) * (p2 * n2 + p3 * n3) - ((p2 * p3) * (p2 * p3) - (n2 * n3) * (n2 * n3))
  }

  function High(p1: int, n1: int, p2: int, n2: int, p3: int, n3: int): int {
    (p1 * n1) * ((p2 * p3) * (p2 * p3) - (n2 * n3) * (n2 * n3)) - (p1 * p1 - n1 * n1) * ((p2 * n2) * (p3 * n3))
  }

  function Difference(p1: int, n1: int, p2: int, n2: int, p3: int, n3: int): int {
    (p2 * p2 - n2 * n2) * (p1 * n1 - p3 * n3) + (p1 * n3) * (p1 * n3) - (n1 * p3) * (n1 * p3)
  }

  /** The part of degree nine. */
  lemma HighFactored(p1: int, n1: int, p2: int, n2: int, p3: int, n3: int)
    ensures High(p1, n1, p2, n2, p3, n3) == Whole(n1, p1, p2, n2, p3, n3) * (p1 * (p2 * p3) + n1 * (n2 * n3))
  {
    Interchange(p2, n2, p3, n3);
    HighFactors(p1, n1, p2 * p3, n2 * n3);
  }

  lemma HighFactors(p: int, n: int, a: int, b: int)
    ensures (p * n) * (a * a - b * b) - (p * p - n * n) * (a * b) == (n * a - p * b) * (p * a + n * b)
  {
    assert (n * a) * (p * a) == (p * n) * (a * a) && (p * b) * (n * b) == (p * n) * (b * b);
    assert (n * a) * (n * b) == (n * n) * (a * b) && (p * b) * (p * a) == (p * p) * (a * b);
    Quadrants(n * a, p * b, p * a, n * b);
  }

  lemma Quadrants(u: int, v: int, u': int, v': int)
    ensures (u - v) * (u' + v') == u * u' + u * v' - v * u' - v * v'
  {}

  lemma HighVanishes(p1: int, n1: int, p2: int, n2: int, p3: int, n3: int)
    ensures Whole(p1, n1, p2, n2, n3, p3) * High(p1, n1, p2, n2, p3, n3)
         == Whole(n1, p1, p2, n2, p3, n3) * High(p3, n3, p2, n2, p1, n1)
  {
    HighFactored(p1, n1, p2, n2, p3, n3);
    HighFactored(p3, n3, p2, n2, p1, n1);
    var c := p1 * (p2 * p3) + n1 * (n2 * n3);
    assert p3 * (p2 * p1) + n3 * (n2 * n1) == c;
    assert Whole(n3, p3, p2, n2, p1, n1) == Whole(p1, n1, p2, n2, n3, p3);
    var a, b := Whole(p1, n1, p2, n2, n3, p3), Whole(n1, p1, p2, n2, p3, n3);
    assert a * (b * c) == b * (a * c);
  }

  /** A product of a linear and a quadratic form, collected by powers of p and n. */
  lemma Collect(a: int, b: int, f: int, g: int, u: int, v: int, p: int, n: int)
    ensures (a * p - b * n) * (f * (p * n) + g - u * (p * p) + v * (n * n))
         == (a * f + b * u) * (p * (p * n)) + (a * v - b * f) * (p * (n * n)) + (a * g) * p
            - (a * u) * (p * (p * p)) - (b * v) * (n * (n * n)) - (b * g) * n
  {
    CollectOne(a, f, g, u, v, p, n);
    CollectOther(b, f, g, u, v, p, n);
    Less(a * p, b * n, f * (p * n) + g - u * (p * p) + v * (n * n));
    More(a * f, b * u, p * (p * n));
    Less(a * v, b * f, p * (n * n));
  }

  lemma More(a: int, b: int, c: int)
    ensures (a + b) * c == a * c + b * c
  {}

  lemma Less(a: int, b: int, c: int)
    ensures (a - b) * c == a * c - b * c
  {}

  lemma CollectOne(a: int, f: int, g: int, u: int, v: int, p: int, n: int)
    ensures (a * p) * (f * (p * n) + g - u * (p * p) + v * (n * n))
         == (a * f) * (p * (p * n)) + (a * g) * p - (a * u) * (p * (p * p)) + (a * v) * (p * (n * n))
  {
    Interchange(a, p, f, p * n);
    Interchange(a, p, u, p * p);
    Interchange(a, p, v, n * n);
    Four(a * p, f * (p * n), g, u * (p * p), v * (n * n));
    assert (a * p) * g == (a * g) * p;
  }

  lemma CollectOther(b: int, f: int, g: int, u: int, v: int, p: int, n: int)
    ensures (b * n) * (f * (p * n) + g - u * (p * p) + v * (n * n))
         == (b * f) * (p * (n * n)) + (b * g) * n - (b * u) * (p * (p * n)) + (b * v) * (n * (n * n))
  {
    Interchange(b, n, f, p * n);
    Interchange(b, n, u, p * p);
    Interchange(b, n, v, n * n);
    Four(b * n, f * (p * n), g, u * (p * p), v * (n * n));
    assert (b * n) * g == (b * g) * n;
    assert n * (p * n) == p * (n * n) && n * (p * p) == p * (p * n);
  }

  lemma Four(w: int, x: int, y: int, z: int, t: int)
    ensures w * (x + y - z + t) == w * x + w * y - w * z + w * t
  {}

  lemma Coefficient1(a: int, b: int, c: int, e: int)
    ensures (a * c) * (a * b - c * e) + (a * e) * (c * c) - (b * c) * (a * a) == 0
  {
    assert (a * c) * (a * b) == (b * c) * (a * a) && (a * c) * (c * e) == (a * e) * (c * c);
  }

  lemma Coefficient2(a: int, b: int, c: int, e: int)
    ensures (b * e) * (a * b - c * e) + ((a * e) * (a * a - b * b) + (b * c) * (c * c))
            - ((b * c) * (c * c - e * e) + (a * e) * (a * a)) == 0
  {
    assert (b * e) * (a * b) == (a * e) * (b * b) && (b * e) * (c * e) == (b * c) * (e * e);
  }

  lemma Coefficient3(a: int, b: int, c: int, e: int)
    ensures (a * c) * (a * b - c * e) + ((a * e) * (e * e) - (b * c) * (a * a - b * b))
            - ((b * c) * (b * b) - (a * e) * (c * c - e * e)) == 0
  {
    assert (a * c) * (a * b) == (b * c) * (a * a) && (a * c) * (c * e) == (a * e) * (c * c);
  }

  lemma Coefficient4(a: int, b: int, c: int, e: int)
    ensures (b * e) * (a * b - c * e) + (b * c) * (e * e) - (a * e) * (b * b) == 0
  {
    assert (b * e) * (a * b) == (a * e) * (b * b) && (b * e) * (c * e) == (b * c) * (e * e);
  }

  lemma Coefficients56(a: int, b: int, c: int, e: int)
    ensures (a * c) * ((a * e) * (a * e) - (b * c) * (b * c)) - (a * e) * ((a * a - b * b) * (c * e))
            + (b * c) * ((c * c - e * e) * (a * b)) == 0
    ensures (b * e) * ((a * e) * (a * e) - (b * c) * (b * c)) - (b * c) * ((a * a - b * b) * (c * e))
            + (a * e) * ((c * c - e * e) * (a * b)) == 0
  {
    Less(a * a, b * b, c * e);
    Less(c * c, e * e, a * b);
    Interchange(a, a, c, e);
    Interchange(b, b, c, e);
    Interchange(c, c, a, b);
    Interchange(e, e, a, b);
    Products(a * c, b * e, a * e, b * c);
  }

  lemma Products(t: int, u: int, v: int, w: int)
    ensures t * (v * v - w * w) - v * (t * v - w * u) + w * (t * w - v * u) == 0
    ensures u * (v * v - w * w) - w * (t * v - w * u) + v * (t * w - v * u) == 0
  {}

  lemma LowForms(a: int, b: int, p: int, n: int, c: int, e: int)
    ensures Whole(a, b, p, n, c, e) == (a * c) * p - (b * e) * n
    ensures Low(a, b, p, n, c, e)
         == (a * a - b * b) * (p * n) + (a * a - b * b) * (c * e) - (c * c) * (p * p) + (e * e) * (n * n)
    ensures Difference(a, b, p, n, c, e)
         == 0 * (p * n) + ((a * e) * (a * e) - (b * c) * (b * c)) - (c * e - a * b) * (p * p)
            + (c * e - a * b) * (n * n)
  {
    assert a * (p * c) == (a * c) * p && b * (n * e) == (b * e) * n;
    Interchange(p, c, p, c);
    Interchange(n, e, n, e);
    var f, x := a * a - b * b, a * b - c * e;
    assert f * (p * n + c * e) == f * (p * n) + f * (c * e);
    assert (p * p - n * n) * x == (n * n) * (-x) - (p * p) * (-x);
  }

  /** Six terms collected by their factors. */
  lemma Vanish(k1: int, k2: int, k3: int, m: int)
    requires k1 - k2 + k3 == 0
    ensures k1 * m - k2 * m + k3 * m == 0
  {
    assert (k1 - k2 + k3) * m == k1 * m - k2 * m + k3 * m;
  }

  /** The part of degree seven. */
  lemma LowVanishes(p1: int, n1: int, p2: int, n2: int, p3: int, n3: int)
    ensures Whole(p1, n1, p2, n2, p3, n3) * Difference(p1, n1, p2, n2, p3, n3)
            - Whole(p1, n1, p2, n2, n3, p3) * Low(p1, n1, p2, n2, p3, n3)
            + Whole(n1, p1, p2, n2, p3, n3) * Low(p3, n3, p2, n2, p1, n1) == 0
  {
    LowForms(p1, n1, p2, n2, p3, n3);
    LowForms(p1, n1, p2, n2, n3, p3);
    LowForms(n1, p1, p2, n2, p3, n3);
    LowForms(p3, n3, p2, n2, p1, n1);
    LowCollected(p1, n1, p2, n2, p3, n3);
  }

  lemma LowCollected(a: int, b: int, p: int, n: int, c: int, e: int)
    ensures var x, y, f, h := c * e - a * b, (a * e) * (a * e) - (b * c) * (b * c), a * a - b * b, c * c - e * e;
            ((a * c) * p - (b * e) * n) * (0 * (p * n) + y - x * (p * p) + x * (n * n))
            - ((a * e) * p - (b * c) * n) * (f * (p * n) + f * (c * e) - (c * c) * (p * p) + (e * e) * (n * n))
            + ((b * c) * p - (a * e) * n) * (h * (p * n) + h * (a * b) - (a * a) * (p * p) + (b * b) * (n * n)) == 0
  {
    var x, y, f, h := c * e - a * b, (a * e) * (a * e) - (b * c) * (b * c), a * a - b * b, c * c - e * e;
    Coefficient1(a, b, c, e);
    Coefficient2(a, b, c, e);
    Coefficient3(a, b, c, e);
    Coefficient4(a, b, c, e);
    Coefficients56(a, b, c, e);
    FlipDifference(a * c, a * b, c * e);
    FlipDifference(b * e, a * b, c * e);
    ThreeForms(Form(a * c, b * e, 0, y, x, x), Form(a * e, b * c, f, f * (c * e), c * c, e * e),
               Form(b * c, a * e, h, h * (a * b), a * a, b * b), p, n);
  }

  lemma FlipDifference(a: int, x: int, y: int)
    ensures a * (y - x) == -(a * (x - y))
  {}

  /** A linear and a quadratic form in p and n. */
  datatype Form = Form(a: int, b: int, f: int, g: int, u: int, v: int) {
    function At(p: int, n: int): int {
      (a * p - b * n) * (f * (p * n) + g - u * (p * p) + v * (n * n))
    }
  }

  /** Three products cancel when all six coefficients do. */
  lemma ThreeForms(r: Form, s: Form, t: Form, p: int, n: int)
    requires (r.a * r.f + r.b * r.u) - (s.a * s.f + s.b * s.u) + (t.a * t.f + t.b * t.u) == 0
    requires (r.a * r.v - r.b * r.f) - (s.a * s.v - s.b * s.f) + (t.a * t.v - t.b * t.f) == 0
    requires r.a * r.g - s.a * s.g + t.a * t.g == 0 && r.b * r.g - s.b * s.g + t.b * t.g == 0
    requires r.a * r.u - s.a * s.u + t.a * t.u == 0 && r.b * r.v - s.b * s.v + t.b * t.v == 0
    ensures r.At(p, n) - s.At(p, n) + t.At(p, n) == 0
  {
    Collect(r.a, r.b, r.f, r.g, r.u, r.v, p, n);
    Collect(s.a, s.b, s.f, s.g, s.u, s.v, p, n);
    Collect(t.a, t.b, t.f, t.g, t.u, t.v, p, n);
    Vanish(r.a * r.f + r.b * r.u, s.a * s.f + s.b * s.u, t.a * t.f + t.b * t.u, p * (p * n));
    Vanish(r.a * r.v - r.b * r.f, s.a * s.v - s.b * s.f, t.a * t.v - t.b * t.f, p * (n * n));
    Vanish(r.a * r.g, s.a * s.g, t.a * t.g, p);
    Vanish(r.a * r.u, s.a * s.u, t.a * t.u, p * (p * p));
    Vanish(r.b * r.v, s.b * s.v, t.b * t.v, n * (n * n));
    Vanish(r.b * r.g, s.b * s.g, t.b * t.g, n);
  }

  // ------------------------------------------------------- the gap between both sides

  /**
    How far the cross products of both bracketings are apart, over d and x2 y2: u is xy, s is x^2 + y^2 and
    v is d (xy)^2 for each point.
   */
  function Gap(sum: int, left: int, right: int, u1: int, u2: int, u3: int, s1: int, s2: int, s3: int, v1: int,
               v2: int, v3: int): int {
    sum * (u2 * (v1 - v3) + (u1 * s3 - u3 * s1)) - left * Multiple(u1, v1, u2, s2, v2, u3, s3, v3)
    + right * Multiple(u3, v3, u2, s2, v2, u1, s1, v1)
  }

  /** A denominator times xy of the point outside the brackets. */
  function Multiple(u: int, v: int, u2: int, s2: int, v2: int, u3: int, s3: int, v3: int): int {
    u * (1 - v2 * v3) + v * (u2 * s3 + u3 * s2)
  }

  lemma MultipleForm(x1: int, y1: int, x2: int, y2: int, x3: int, y3: int)
    ensures var p1, n1, p2, n2, p3, n3 := y1 + x1, y1 - x1, y2 + x2, y2 - x2, y3 + x3, y3 - x3;
            var u1, u2, u3, s2, s3 := x1 * y1, x2 * y2, x3 * y3, x2 * x2 + y2 * y2, x3 * x3 + y3 * y3;
            && 4 * Multiple(u1, p1 * n1 - 1, u2, s2, p2 * n2 - 1, u3, s3, p3 * n3 - 1)
               == High(p1, n1, p2, n2, p3, n3) + Low(p1, n1, p2, n2, p3, n3)
            && 4 * Multiple(u1, p1 * n1 - 1, u2, -s2, p2 * n2 - 1, u3, -s3, p3 * n3 - 1)
               == High(p1, -n1, p2, -n2, p3, -n3) - Low(p1, -n1, p2, -n2, p3, -n3)
  {
    PlusMinus(x1, y1);
    MixedForm(x2, y2, x3, y3);
    var u2, u3, s2, s3 := x2 * y2, x3 * y3, x2 * x2 + y2 * y2, x3 * x3 + y3 * y3;
    MultipleParts(y1 + x1, y1 - x1, y2 + x2, y2 - x2, y3 + x3, y3 - x3, x1 * y1, u2, u3, s2, s3);
  }

  lemma MultipleParts(p1: int, n1: int, p2: int, n2: int, p3: int, n3: int, u1: int, u2: int, u3: int, s2: int, s3: int)
    requires p1 * p1 - n1 * n1 == 4 * u1
    requires (p2 * p3) * (p2 * p3) - (n2 * n3) * (n2 * n3) == 4 * (u2 * s3 + u3 * s2)
    ensures 4 * Multiple(u1, p1 * n1 - 1, u2, s2, p2 * n2 - 1, u3, s3, p3 * n3 - 1)
            == High(p1, n1, p2, n2, p3, n3) + Low(p1, n1, p2, n2, p3, n3)
    ensures 4 * Multiple(u1, p1 * n1 - 1, u2, -s2, p2 * n2 - 1, u3, -s3, p3 * n3 - 1)
            == High(p1, -n1, p2, -n2, p3, -n3) - Low(p1, -n1, p2, -n2, p3, -n3)
  {
    var f, m := p1 * p1 - n1 * n1, (p2 * p3) * (p2 * p3) - (n2 * n3) * (n2 * n3);
    Negatives(u2, s3);
    Negatives(u3, s2);
    MultipleAlgebra(u1, p1 * n1, p2 * n2, p3 * n3, u2 * s3 + u3 * s2, f, m);
    MultipleAlgebra(u1, p1 * n1, p2 * n2, p3 * n3, u2 * -s3 + u3 * -s2, f, -m);
    Negatives(p1 * n1, m);
    Negated(p1, n1, p2, n2, p3, n3);
  }

  /** Negating every n changes the sign of pn and keeps squares. */
  lemma Negated(p1: int, n1: int, p2: int, n2: int, p3: int, n3: int)
    ensures var f, m := p1 * p1 - n1 * n1, (p2 * p3) * (p2 * p3) - (n2 * n3) * (n2 * n3);
            && High(p1, -n1, p2, -n2, p3, -n3) == -((p1 * n1) * m) - f * ((p2 * n2) * (p3 * n3))
            && Low(p1, -n1, p2, -n2, p3, -n3) == -(f * (p2 * n2 + p3 * n3)) - m
  {
    assert p1 * -n1 == -(p1 * n1) && p2 * -n2 == -(p2 * n2) && p3 * -n3 == -(p3 * n3);
    assert -n2 * -n3 == n2 * n3 && -n1 * -n1 == n1 * n1;
    var f, w2, w3 := p1 * p1 - n1 * n1, p2 * n2, p3 * n3;
    assert -w2 * -w3 == w2 * w3 && f * (-w2 + -w3) == -(f * (w2 + w3));
  }

  lemma MultipleAlgebra(u: int, w1: int, w2: int, w3: int, k: int, f: int, m: int)
    requires f == 4 * u && m == 4 * k
    ensures 4 * (u * (1 - (w2 - 1) * (w3 - 1)) + (w1 - 1) * k) == f * (w2 + w3) - m + (w1 * m - f * (w2 * w3))
  {
    assert 1 - (w2 - 1) * (w3 - 1) == w2 + w3 - w2 * w3;
    assert u * (w2 + w3 - w2 * w3) == u * (w2 + w3) - u * (w2 * w3);
    assert (w1 - 1) * k == w1 * k - k;
    FourTimes(f, u, w2 + w3);
    FourTimes(f, u, w2 * w3);
    FourTimes(m, k, w1);
  }

  lemma PlusMinus(x: int, y: int)
    ensures (y + x) * (y + x) == x * x + y * y + 2 * (x * y) && (y - x) * (y - x) == x * x + y * y - 2 * (x * y)
  {}

  lemma MixedForm(x: int, y: int, x': int, y': int)
    ensures var p, n, p', n' := y + x, y - x, y' + x', y' - x';
            && (p * p') * (p * p') - (n * n') * (n * n')
               == 4 * ((x * y) * (x' * x' + y' * y') + (x' * y') * (x * x + y * y))
            && (p * n') * (p * n') - (n * p') * (n * p')
               == 4 * ((x * y) * (x' * x' + y' * y') - (x' * y') * (x * x + y * y))
  {
    var p, n, p', n' := y + x, y - x, y' + x', y' - x';
    Interchange(p, p', p, p');
    Interchange(n, n', n, n');
    Interchange(p, n', p, n');
    Interchange(n, p', n, p');
    var s, u, s', u' := x * x + y * y, x * y, x' * x' + y' * y', x' * y';
    PlusMinus(x, y);
    PlusMinus(x', y');
    MixedAlgebra(s, u, s', u');
  }

  lemma MixedAlgebra(s: int, u: int, s': int, u': int)
    ensures (s + 2 * u) * (s' + 2 * u') - (s - 2 * u) * (s' - 2 * u') == 4 * (u * s' + u' * s)
    ensures (s + 2 * u) * (s' - 2 * u') - (s - 2 * u) * (s' + 2 * u') == 4 * (u * s' - u' * s)
  {}

  /** Twice the numerators of a sum of three points, the first two of them summed first. */
  lemma SumForm(x1: int, y1: int, x2: int, y2: int, x3: int, y3: int)
    ensures var e, h := x1 * y2 + y1 * x2, y1 * y2 + x1 * x2;
            var p1, n1, p2, n2, p3, n3 := y1 + x1, y1 - x1, y2 + x2, y2 - x2, y3 + x3, y3 - x3;
            && 2 * (e * y3 + h * x3) == Whole(p1, n1, p2, n2, p3, n3)
            && 2 * (e * y3 - h * x3) == Whole(p1, n1, p2, n2, n3, p3)
            && 2 * (e * x3 + h * y3) == Whole(p1, -n1, p2, -n2, p3, -n3)
            && 2 * (e * x3 - h * y3) == Whole(p1, -n1, p2, -n2, -n3, p3)
  {
    var e, h := x1 * y2 + y1 * x2, y1 * y2 + x1 * x2;
    var p1, n1, p2, n2, p3, n3 := y1 + x1, y1 - x1, y2 + x2, y2 - x2, y3 + x3, y3 - x3;
    assert p1 * p2 == h + e && n1 * n2 == h - e;
    WholeForm(p1, n1, p2, n2, p3, n3);
    WholeForm(p1, n1, p2, n2, n3, p3);
    WholeForm(p1, -n1, p2, -n2, p3, -n3);
    WholeForm(p1, -n1, p2, -n2, -n3, p3);
    assert -n1 * -n2 == n1 * n2;
    SumAlgebra(e, h, x3, y3);
  }

  lemma WholeForm(p1: int, n1: int, p2: int, n2: int, p3: int, n3: int)
    ensures Whole(p1, n1, p2, n2, p3, n3) == (p1 * p2) * p3 - (n1 * n2) * n3
  {}

  lemma SumAlgebra(e: int, h: int, x: int, y: int)
    ensures (h + e) * (y + x) - (h - e) * (y - x) == 2 * (e * y + h * x)
    ensures (h + e) * (y - x) - (h - e) * (y + x) == 2 * (e * y - h * x)
    ensures (h + e) * (y + x) - (h - e) * -(y - x) == 2 * (e * x + h * y)
    ensures (h + e) * -(y - x) - (h - e) * (y + x) == 2 * (e * x - h * y)
  {}

  lemma GapX(x1: int, y1: int, x2: int, y2: int, x3: int, y3: int)
    ensures var e, h, e', h' := x1 * y2 + y1 * x2, y1 * y2 + x1 * x2, x3 * y2 + y3 * x2, y3 * y2 + x3 * x2;
            var w1, w2, w3 := (y1 + x1) * (y1 - x1), (y2 + x2) * (y2 - x2), (y3 + x3) * (y3 - x3);
            var s1, s2, s3 := x1 * x1 + y1 * y1, x2 * x2 + y2 * y2, x3 * x3 + y3 * y3;
            && e * y3 + h * x3 == e' * y1 + h' * x1
            && Gap(e * y3 + h * x3, e * y3 - h * x3, e' * y1 - h' * x1, x1 * y1, x2 * y2, x3 * y3,
                   s1, s2, s3, w1 - 1, w2 - 1, w3 - 1) == 0
  {
    var p1, n1, p2, n2, p3, n3 := y1 + x1, y1 - x1, y2 + x2, y2 - x2, y3 + x3, y3 - x3;
    SumForm(x1, y1, x2, y2, x3, y3);
    SumForm(x3, y3, x2, y2, x1, y1);
    MultipleForm(x1, y1, x2, y2, x3, y3);
    MultipleForm(x3, y3, x2, y2, x1, y1);
    Turned(p1, n1, p2, n2, p3, n3);
    Turned(n1, p1, p2, n2, p3, n3);
    DifferenceForm(x1, y1, x2, y2, x3, y3);
    HighVanishes(p1, n1, p2, n2, p3, n3);
    LowVanishes(p1, n1, p2, n2, p3, n3);
    var e, h, e', h' := x1 * y2 + y1 * x2, y1 * y2 + x1 * x2, x3 * y2 + y3 * x2, y3 * y2 + x3 * x2;
    var w1, w2, w3, u1, u2, u3 := p1 * n1, p2 * n2, p3 * n3, x1 * y1, x2 * y2, x3 * y3;
    var s1, s2, s3 := x1 * x1 + y1 * y1, x2 * x2 + y2 * y2, x3 * x3 + y3 * y3;
    EightTimes(e * y3 + h * x3, u2 * (w1 - w3) + (u1 * s3 - u3 * s1),
               e * y3 - h * x3, Multiple(u1, w1 - 1, u2, s2, w2 - 1, u3, s3, w3 - 1),
               e' * y1 - h' * x1, Multiple(u3, w3 - 1, u2, s2, w2 - 1, u1, s1, w1 - 1),
               High(p1, n1, p2, n2, p3, n3), Low(p1, n1, p2, n2, p3, n3),
               High(p3, n3, p2, n2, p1, n1), Low(p3, n3, p2, n2, p1, n1), 1);
  }

  lemma GapY(x1: int, y1: int, x2: int, y2: int, x3: int, y3: int)
    ensures var e, h, e', h' := x1 * y2 + y1 * x2, y1 * y2 + x1 * x2, x3 * y2 + y3 * x2, y3 * y2 + x3 * x2;
            var w1, w2, w3 := (y1 + x1) * (y1 - x1), (y2 + x2) * (y2 - x2), (y3 + x3) * (y3 - x3);
            var s1, s2, s3 := x1 * x1 + y1 * y1, x2 * x2 + y2 * y2, x3 * x3 + y3 * y3;
            && e * x3 + h * y3 == e' * x1 + h' * y1
            && Gap(e * x3 + h * y3, e * x3 - h * y3, e' * x1 - h' * y1, x1 * y1, x2 * y2, x3 * y3,
                   -s1, -s2, -s3, w1 - 1, w2 - 1, w3 - 1) == 0
  {
    var p1, n1, p2, n2, p3, n3 := y1 + x1, y1 - x1, y2 + x2, y2 - x2, y3 + x3, y3 - x3;
    SumForm(x1, y1, x2, y2, x3, y3);
    SumForm(x3, y3, x2, y2, x1, y1);
    MultipleForm(x1, y1, x2, y2, x3, y3);
    MultipleForm(x3, y3, x2, y2, x1, y1);
    Turned(p1, -n1, p2, -n2, p3, -n3);
    Turned(-n1, p1, p2, -n2, p3, -n3);
    DifferenceForm(x1, y1, x2, y2, x3, y3);
    HighVanishes(p1, -n1, p2, -n2, p3, -n3);
    LowVanishes(p1, -n1, p2, -n2, p3, -n3);
    var e, h, e', h' := x1 * y2 + y1 * x2, y1 * y2 + x1 * x2, x3 * y2 + y3 * x2, y3 * y2 + x3 * x2;
    var w1, w2, w3, u1, u2, u3 := p1 * n1, p2 * n2, p3 * n3, x1 * y1, x2 * y2, x3 * y3;
    var s1, s2, s3 := x1 * x1 + y1 * y1, x2 * x2 + y2 * y2, x3 * x3 + y3 * y3;
    EightTimes(e * x3 + h * y3, u2 * (w1 - w3) + (u1 * -s3 - u3 * -s1),
               e * x3 - h * y3, Multiple(u1, w1 - 1, u2, -s2, w2 - 1, u3, -s3, w3 - 1),
               e' * x1 - h' * y1, Multiple(u3, w3 - 1, u2, -s2, w2 - 1, u1, -s1, w1 - 1),
               High(p1, -n1, p2, -n2, p3, -n3), Low(p1, -n1, p2, -n2, p3, -n3),
               High(p3, -n3, p2, -n2, p1, -n1), Low(p3, -n3, p2, -n2, p1, -n1), -1);
  }

  lemma Turned(p1: int, n1: int, p2: int, n2: int, p3: int, n3: int)
    ensures Whole(p1, n1, p2, n2, p3, n3) == Whole(p3, n3, p2, n2, p1, n1)
  {
    assert p1 * (p2 * p3) == p3 * (p2 * p1) && n1 * (n2 * n3) == n3 * (n2 * n1);
  }

  lemma DifferenceForm(x1: int, y1: int, x2: int, y2: int, x3: int, y3: int)
    ensures var p1, n1, p2, n2, p3, n3 := y1 + x1, y1 - x1, y2 + x2, y2 - x2, y3 + x3, y3 - x3;
            var u1, u2, u3, s1, s3 := x1 * y1, x2 * y2, x3 * y3, x1 * x1 + y1 * y1, x3 * x3 + y3 * y3;
            && 4 * (u2 * (p1 * n1 - p3 * n3) + (u1 * s3 - u3 * s1)) == Difference(p1, n1, p2, n2, p3, n3)
            && 4 * (u2 * (p1 * n1 - p3 * n3) + (u1 * -s3 - u3 * -s1)) == -Difference(p1, -n1, p2, -n2, p3, -n3)
  {
    var p1, n1, p2, n2, p3, n3 := y1 + x1, y1 - x1, y2 + x2, y2 - x2, y3 + x3, y3 - x3;
    MixedForm(x1, y1, x3, y3);
    PlusMinus(x2, y2);
    NegatedDifference(p1, n1, p2, n2, p3, n3);
    FourTimes(p2 * p2 - n2 * n2, x2 * y2, p1 * n1 - p3 * n3);
    Negatives(x1 * y1, x3 * x3 + y3 * y3);
    Negatives(x3 * y3, x1 * x1 + y1 * y1);
  }

  lemma Negatives(a: int, b: int)
    ensures a * -b == -(a * b)
  {}

  lemma NegatedDifference(p1: int, n1: int, p2: int, n2: int, p3: int, n3: int)
    ensures Difference(p1, -n1, p2, -n2, p3, -n3)
         == -((p2 * p2 - n2 * n2) * (p1 * n1 - p3 * n3)) + (p1 * n3) * (p1 * n3) - (n1 * p3) * (n1 * p3)
  {
    assert p1 * -n1 == -(p1 * n1) && p3 * -n3 == -(p3 * n3) && p1 * -n3 == -(p1 * n3) && -n1 * p3 == -(n1 * p3);
    assert -n2 * -n2 == n2 * n2;
    var f, w1, w3 := p2 * p2 - n2 * n2, p1 * n1, p3 * n3;
    assert f * (-w1 - -w3) == -(f * (w1 - w3));
    Squares(p1 * n3);
    Squares(n1 * p3);
  }

  lemma Squares(a: int)
    ensures -a * -a == a * a
  {}

  lemma FourTimes(f: int, u: int, w: int)
    requires f == 4 * u
    ensures f * w == 4 * (u * w)
  {}

  /** Both homogeneous parts vanish, so the whole does. */
  lemma EightTimes(s: int, x: int, l: int, r: int, l': int, r': int, h: int, o: int, h': int, o': int, sign: int)
    requires (sign == 1 || sign == -1) && 4 * r == h + sign * o && 4 * r' == h' + sign * o'
    requires 2 * l * h == 2 * l' * h'
    requires 2 * s * (sign * (4 * x)) - 2 * l * o + 2 * l' * o' == 0
    ensures s * x - l * r + l' * r' == 0
  {
    assert 8 * (s * x) == 2 * s * (4 * x);
    assert 8 * (l * r) == 2 * l * (4 * r) && 8 * (l' * r') == 2 * l' * (4 * r');
    if sign == 1 {
      assert 2 * l * (h + o) == 2 * l * h + 2 * l * o && 2 * l' * (h' + o') == 2 * l' * h' + 2 * l' * o';
    } else {
      assert 2 * l * (h - o) == 2 * l * h - 2 * l * o && 2 * l' * (h' - o') == 2 * l' * h' - 2 * l' * o';
      assert 2 * s * -(4 * x) == -(2 * s * (4 * x));
    }
  }

  /** The denominator of x once the first two of three points are summed first. */
  function Divisor(d: int, u1: int, s1: int, u2: int, s2: int, u3: int): int {
    1 - (d * (u1 * u2)) * (d * (u1 * u2)) + d * ((u1 * s2 + u2 * s1) * u3)
  }

  /** The cross products of both bracketings differ by a multiple of the gap. */
  lemma CrossDifference(d: int, sum: int, left: int, right: int, u1: int, u2: int, u3: int, s1: int, s2: int, s3: int)
    ensures (sum - (d * (u1 * u2)) * left) * Divisor(d, u3, s3, u2, s2, u1)
            - (sum - (d * (u3 * u2)) * right) * Divisor(d, u1, s1, u2, s2, u3)
         == (d * u2) * Gap(sum, left, right, u1, u2, u3, s1, s2, s3, d * (u1 * u1), d * (u2 * u2), d * (u3 * u3))
  {
    var den, den' := Divisor(d, u1, s1, u2, s2, u3), Divisor(d, u3, s3, u2, s2, u1);
    var v1, v2, v3 := d * (u1 * u1), d * (u2 * u2), d * (u3 * u3);
    DivisorMultiple(d, u1, u2, u3, s2, s3);
    DivisorMultiple(d, u3, u2, u1, s2, s1);
    DivisorDifference(d, u1, u2, u3, s1, s2, s3);
    var x, m, m' := u2 * (v1 - v3) + (u1 * s3 - u3 * s1), Multiple(u1, v1, u2, s2, v2, u3, s3, v3),
        Multiple(u3, v3, u2, s2, v2, u1, s1, v1);
    Regroup(d, u1, u2);
    Regroup(d, u3, u2);
    CrossAlgebra(d * u2, u1, u3, sum, left, right, den, den', x, m, m');
  }

  lemma Regroup(d: int, u: int, v: int)
    ensures d * (u * v) == (d * v) * u
  {}

  lemma CrossAlgebra(g: int, u1: int, u3: int, sum: int, left: int, right: int, den: int, den': int, x: int, m: int,
                     m': int)
    requires den' - den == g * x && u1 * den' == m && u3 * den == m'
    ensures (sum - (g * u1) * left) * den' - (sum - (g * u3) * right) * den == g * (sum * x - left * m + right * m')
  {
    assert (sum - (g * u1) * left) * den' == sum * den' - ((g * u1) * left) * den';
    assert (sum - (g * u3) * right) * den == sum * den - ((g * u3) * right) * den;
    assert ((g * u1) * left) * den' == g * (left * (u1 * den')) by {
      Interchange(g, u1, left, den');
      assert ((g * u1) * left) * den' == (g * u1) * (left * den');
      assert (g * left) * (u1 * den') == g * (left * (u1 * den'));
    }
    assert ((g * u3) * right) * den == g * (right * (u3 * den)) by {
      Interchange(g, u3, right, den);
      assert ((g * u3) * right) * den == (g * u3) * (right * den);
      assert (g * right) * (u3 * den) == g * (right * (u3 * den));
    }
    assert sum * den' - sum * den == sum * (den' - den);
    assert sum * (g * x) == g * (sum * x);
    assert g * (sum * x - left * m + right * m') == g * (sum * x) - g * (left * m) + g * (right * m');
  }

  lemma DivisorMultiple(d: int, u1: int, u2: int, u3: int, s2: int, s3: int)
    ensures u1 * Divisor(d, u3, s3, u2, s2, u1)
            == Multiple(u1, d * (u1 * u1), u2, s2, d * (u2 * u2), u3, s3, d * (u3 * u3))
  {
    var k := u3 * s2 + u2 * s3;
    Interchange(d, u3 * u2, d, u3 * u2);
    Interchange(u3, u2, u3, u2);
    Interchange(d, u2 * u2, d, u3 * u3);
    Triple(u1, d, k);
    Spread(u1, 1, 1 - (d * (u2 * u2)) * (d * (u3 * u3)), 0, d * (k * u1));
  }

  lemma Triple(u: int, d: int, k: int)
    ensures u * (d * (k * u)) == (d * (u * u)) * k
  {
    assert u * (k * u) == (u * u) * k;
    assert u * (d * (k * u)) == d * (u * (k * u));
  }

  lemma DivisorDifference(d: int, u1: int, u2: int, u3: int, s1: int, s2: int, s3: int)
    ensures Divisor(d, u3, s3, u2, s2, u1) - Divisor(d, u1, s1, u2, s2, u3)
         == (d * u2) * (u2 * (d * (u1 * u1) - d * (u3 * u3)) + (u1 * s3 - u3 * s1))
  {
    DivisorSquare(d, u1, u2);
    DivisorSquare(d, u3, u2);
    DivisorCross(d, u1, u2, u3, s1, s2, s3);
    Spread(d * u2, u2, d * (u1 * u1), d * (u3 * u3), u1 * s3 - u3 * s1);
  }

  lemma Spread(g: int, u: int, v: int, w: int, z: int)
    ensures g * (u * (v - w) + z) == g * (u * v) - g * (u * w) + g * z
  {
    assert u * (v - w) == u * v - u * w;
  }

  lemma DivisorCross(d: int, u1: int, u2: int, u3: int, s1: int, s2: int, s3: int)
    ensures d * ((u3 * s2 + u2 * s3) * u1) - d * ((u1 * s2 + u2 * s1) * u3) == (d * u2) * (u1 * s3 - u3 * s1)
  {
    assert (u3 * s2) * u1 == (u1 * s2) * u3 && (u2 * s3) * u1 == u2 * (u1 * s3) && (u2 * s1) * u3 == u2 * (u3 * s1);
    More(u3 * s2, u2 * s3, u1);
    More(u1 * s2, u2 * s1, u3);
    var x, y := u1 * s3, u3 * s1;
    assert d * (u2 * x) == (d * u2) * x && d * (u2 * y) == (d * u2) * y;
    assert (d * u2) * (x - y) == (d * u2) * x - (d * u2) * y;
  }

  lemma DivisorSquare(d: int, u: int, u2: int)
    ensures (d * (u * u2)) * (d * (u * u2)) == (d * u2) * (u2 * (d * (u * u)))
  {
    Interchange(d, u * u2, d, u * u2);
    Interchange(u, u2, u, u2);
    var a, b := u * u, u2 * u2;
    assert (d * d) * (a * b) == d * ((d * a) * b);
    assert (d * u2) * (u2 * (d * a)) == d * (b * (d * a));
  }
}
