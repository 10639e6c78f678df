/** What point decoding and encoding compute, stated on residues (RFC 8032, sections 5.1.2 and 5.1.3). */
module Decode {
  import opened Machine
  import opened ModArith
  import opened Radix
  import opened EdwardsCurve

  datatype Option<T> = None | Some(value: T)

  /** x^2 is the quotient of these two. */
  function Num(y: int, m: int): int requires m > 0 { (y * y - 1) % m }
  function Den(y: int, d: int, m: int): int requires m > 0 { (1 + d * (y * y)) % m }

  /** The only candidate for a square root of `u / v`, up to a square root of -1. */
  function Candidate(u: int, v: int, e: nat, m: int): int
    requires m > 0
  {
    u * Pow(v, 3) * Pow(u * Pow(v, 7), e) % m
  }

  /** `x` squared times `v` is `u`. */
  predicate IsRoot(x: int, u: int, v: int, m: int)
    requires m > 0
  {
    Cong(x * x * v, u, m)
  }

  function Root(k: Curve, u: int, v: int): Option<int>
    requires k.m > 0
  {
    var c := Candidate(u, v, k.e, k.m);
    if IsRoot(c, u, v, k.m) then Some(c)
    else if IsRoot(c * k.i % k.m, u, v, k.m) then Some(c * k.i % k.m)
    else None
  }

  /** The y coordinate of an encoded point. */
  function EncodedY(k: Curve, s: seq<byte>): int
    requires k.m > 0 && k.sign > 0
  {
    (Eval(s, 256) % k.sign) % k.m
  }

  /** The sign bit of an encoded point. */
  function EncodedSign(k: Curve, s: seq<byte>): int
    requires k.sign > 0
  {
    (Eval(s, 256) / k.sign) % 2
  }

  /** `unpackneg`: the negated point with the given y coordinate and sign bit. */
  function DecodeNeg(k: Curve, s: seq<byte>): Option<Pt>
    requires k.m > 0 && k.sign > 0
  {
    var y := EncodedY(k, s);
    match Root(k, Num(y, k.m), Den(y, k.d, k.m))
    case None => None
    case Some(c) => Some(WithSign(k, y, c, EncodedSign(k, s)))
  }

  /** The affine point over `y` whose x is the one of `c` and `-c` that lacks the encoded sign. */
  function WithSign(k: Curve, y: int, c: int, sign: int): Pt
    requires k.m > 0
  {
    var x := if c % 2 == sign then (0 - c) % k.m else c;
    Pt(x, y, 1, x * y % k.m)
  }

  /** `pack`: y / z with the parity of x / z on top, division being by the power m - 2. */
  function Encoding(k: Curve, p: Pt): int
    requires k.m > 2
  {
    var zi := PowMod(p.z, k.m - 2, k.m);
    p.y * zi % k.m + k.sign * ((p.x * zi % k.m) % 2)
  }

  // ----------------------------------------------------------- soundness

  lemma RootSound(k: Curve, u: int, v: int)
    requires k.m > 0
    ensures Root(k, u, v).Some? ==> 0 <= Root(k, u, v).value < k.m && IsRoot(Root(k, u, v).value, u, v, k.m)
  {}

  /** Negation keeps roots. */
  lemma NegateRoot(c: int, u: int, v: int, m: int)
    requires m > 0 && IsRoot(c, u, v, m)
    ensures IsRoot((0 - c) % m, u, v, m)
  {
    var n := (0 - c) % m;
    ModIdem(0 - c, m);
    CongMul(n, 0 - c, n, 0 - c, m);
    assert (0 - c) * (0 - c) == c * c;
    CongMul(n * n, c * c, v, v, m);
  }

  /** Negation flips the parity of nonzero residues of an odd modulus. */
  lemma NegateParity(c: int, m: int)
    requires 0 <= c < m && m % 2 == 1
    ensures 0 <= (0 - c) % m < m
    ensures (0 - c) % m != 0 ==> ((0 - c) % m) % 2 != c % 2
  {
    if c != 0 {
      DivUnique(0 - c, -1, m - c, m);
    }
  }

  /** The quotient equation is the curve equation at z = 1. */
  lemma AffineEquation(x: int, y: int, t: int, d: int, u: int, v: int, m: int)
    requires m > 0 && Cong(x * x * v, u, m) && Cong(u, y * y - 1, m) && Cong(v, 1 + d * (y * y), m) && Cong(t, x * y, m)
    ensures Cong(x * x * (1 + d * (y * y)), y * y - 1, m)
    ensures Cong(y * y - x * x, 1 + d * (t * t), m)
  {
    CongMul(x * x, x * x, v, 1 + d * (y * y), m);
    CongMul(t, x * y, t, x * y, m);
    CongMul(d, d, t * t, (x * y) * (x * y), m);
    var xx, yy, e := x * x, y * y, d * ((x * y) * (x * y));
    ExpandProduct(x, y, d);
    CongSub(yy - 1, xx + e, xx - 1, xx - 1, m);
    CongAdd(1, 1, d * (t * t), e, m);
  }

  lemma ExpandProduct(x: int, y: int, d: int)
    ensures x * x * (1 + d * (y * y)) == x * x + d * ((x * y) * (x * y))
  {
    assert (x * x) * (y * y) == (x * y) * (x * y);
    assert (x * x) * (d * (y * y)) == d * ((x * x) * (y * y));
  }

  lemma AffineOnCurve(k: Curve, x: int, y: int)
    requires k.m > 0 && IsRoot(x, Num(y, k.m), Den(y, k.d, k.m), k.m)
    ensures Cong(x * x * (1 + k.d * (y * y)), y * y - 1, k.m)
    ensures OnCurve(k, Pt(x, y, 1, x * y % k.m))
  {
    ModIdem(x * y, k.m);
    ModIdem(y * y - 1, k.m);
    ModIdem(1 + k.d * (y * y), k.m);
    AffineEquation(x, y, x * y % k.m, k.d, Num(y, k.m), Den(y, k.d, k.m), k.m);
  }

  /** Either choice of sign gives a point of the curve, and only x = 0 can keep the encoded sign. */
  lemma WithSignSound(k: Curve, y: int, c: int, sign: int, x: int)
    requires k.m > 0 && k.m % 2 == 1 && 0 <= c < k.m && IsRoot(c, Num(y, k.m), Den(y, k.d, k.m), k.m)
    requires x == WithSign(k, y, c, sign).x
    ensures OnCurve(k, Pt(x, y, 1, x * y % k.m)) && 0 <= x < k.m
    ensures Cong(x * x * (1 + k.d * (y * y)), y * y - 1, k.m)
    ensures x != 0 ==> x % 2 != sign
  {
    NegateParity(c, k.m);
    if x != c {
      NegateRoot(c, Num(y, k.m), Den(y, k.d, k.m), k.m);
    }
    AffineOnCurve(k, x, y);
  }

  /** Whenever decoding succeeds the result is an affine point of the curve with the right y and the opposite sign. */
  lemma DecodeSound(k: Curve, s: seq<byte>)
    requires Proper(k) && DecodeNeg(k, s).Some?
    ensures var p := DecodeNeg(k, s).value;
            && OnCurve(k, p) && p.z == 1 && p.y == EncodedY(k, s) && 0 <= p.x < k.m && p.t == p.x * p.y % k.m
            && Cong(p.x * p.x * (1 + k.d * (p.y * p.y)), p.y * p.y - 1, k.m)
            && (p.x != 0 ==> p.x % 2 != EncodedSign(k, s))
  {
    var y := EncodedY(k, s);
    var u, v := Num(y, k.m), Den(y, k.d, k.m);
    RootSound(k, u, v);
    WithSignSound(k, y, Root(k, u, v).value, EncodedSign(k, s), DecodeNeg(k, s).value.x);
  }

  // ---------------------------------------------------------- completeness

  ghost predicate FermatAt(a: int, m: int) requires m > 0 { a % m != 0 ==> PowMod(a, m - 1, m) == 1 }
  ghost predicate DomainAt(a: int, b: int, m: int) requires m > 0 { (a * b) % m == 0 ==> a % m == 0 || b % m == 0 }

  /** Consequences of the modulus being prime that the decoder relies on. */
  ghost predicate FieldLaws(m: int) {
    m > 0 && (forall a :: FermatAt(a, m)) && (forall a, b :: DomainAt(a, b, m))
  }

  /** The square of the candidate, before reduction. */
  lemma CandidateSquare(u: int, v: int, e: nat)
    ensures var w := u * Pow(v, 7); var c := u * Pow(v, 3) * Pow(w, e);
            c * c * v == u * Pow(w, 2 * e + 1)
  {
    var v3, v7 := Pow(v, 3), Pow(v, 7);
    var w := u * v7;
    var q := Pow(w, e);
    PowAdd(v, 3, 4);
    PowAdd(v, 3, 1);
    assert Pow(v, 1) == v * Pow(v, 0);
    PowAdd(w, e, e);
    Rearrange(u, v3, v, v7, q);
    assert Pow(w, 2 * e + 1) == w * Pow(w, 2 * e);
    assert u * (w * (q * q)) == u * w * (q * q);
  }

  lemma Rearrange(u: int, v3: int, v: int, v7: int, q: int)
    requires v7 == v3 * (v3 * v)
    ensures (u * v3 * q) * (u * v3 * q) * v == u * (u * v7) * (q * q)
  {
    assert (u * v3 * q) * (u * v3 * q) == (u * u) * (v3 * v3) * (q * q);
    assert (u * u) * (v3 * v3) * (q * q) * v == (u * u) * (v3 * v3 * v) * (q * q);
    assert u * (u * v7) == (u * u) * v7;
  }

  /** If u = x^2 v, then u v^7 is the square of x v^4. */
  lemma SquareOfK(x: int, u: int, v: int, m: int)
    requires m > 0 && Cong(u, x * x * v, m)
    ensures Cong(u * Pow(v, 7), (x * Pow(v, 4)) * (x * Pow(v, 4)), m)
  {
    CongMul(u, x * x * v, Pow(v, 7), Pow(v, 7), m);
    PowAdd(v, 1, 7);
    PowAdd(v, 4, 4);
    assert Pow(v, 1) == v * Pow(v, 0);
    SquareAlgebra(x, v, Pow(v, 4), Pow(v, 7));
  }

  lemma SquareAlgebra(x: int, v: int, v4: int, v7: int)
    requires v * v7 == v4 * v4
    ensures (x * x * v) * v7 == (x * v4) * (x * v4)
  {
    assert (x * x * v) * v7 == (x * x) * (v * v7);
    assert (x * v4) * (x * v4) == (x * x) * (v4 * v4);
  }

  lemma PlusMinusOne(j: int, m: int)
    requires FieldLaws(m) && Cong(j * j, 1, m)
    ensures Cong(j, 1, m) || Cong(j, -1, m)
  {
    CongSub(j * j, 1, 1, 1, m);
    assert (j - 1) * (j + 1) == j * j - 1;
    assert DomainAt(j - 1, j + 1, m);
    if (j - 1) % m == 0 {
      CongAdd(j - 1, 0, 1, 1, m);
    } else {
      CongAdd(j + 1, 0, -1, -1, m);
    }
  }

  /** The candidate squared is `u` times (x v^4) to the power 4e + 2. */
  lemma CandidateValue(x: int, u: int, v: int, e: nat, m: int)
    requires m > 0 && Cong(u, x * x * v, m)
    ensures var c := Candidate(u, v, e, m);
            Cong(c * c * v, u * Pow(x * Pow(v, 4), 4 * e + 2), m)
  {
    var w, k := u * Pow(v, 7), x * Pow(v, 4);
    var c', c := u * Pow(v, 3) * Pow(w, e), Candidate(u, v, e, m);
    ModIdem(c', m);
    CongMul(c, c', c, c', m);
    CongMul(c * c, c' * c', v, v, m);
    CandidateSquare(u, v, e);
    SquareOfK(x, u, v, m);
    PowCong(w, k * k, 2 * e + 1, m);
    PowProduct(k, k, 2 * e + 1);
    PowAdd(k, 2 * e + 1, 2 * e + 1);
    CongMul(u, u, Pow(w, 2 * e + 1), Pow(k, 4 * e + 2), m);
  }

  /** (x v^4)^((m - 1) / 2) is 1 or -1. */
  lemma HalfPower(g: int, e: nat, m: int)
    requires m == 8 * e + 5 && FieldLaws(m) && g % m != 0
    ensures Cong(Pow(g, 4 * e + 2), 1, m) || Cong(Pow(g, 4 * e + 2), -1, m)
  {
    assert FermatAt(g, m);
    PowAdd(g, 4 * e + 2, 4 * e + 2);
    DivUnique(1, 0, 1, m);
    PlusMinusOne(Pow(g, 4 * e + 2), m);
  }

  /** One of the two candidates is a root once the candidate squared is `u` up to sign. */
  lemma RootUpToSign(k: Curve, u: int, v: int, j: int)
    requires Proper(k) && (Cong(j, 1, k.m) || Cong(j, -1, k.m))
    requires var c := Candidate(u, v, k.e, k.m); Cong(c * c * v, u * j, k.m)
    ensures Root(k, u, v).Some?
  {
    var c := Candidate(u, v, k.e, k.m);
    if Cong(j, 1, k.m) {
      CongMul(u, u, j, 1, k.m);
    } else {
      CongMul(u, u, j, -1, k.m);
      OtherRoot(c, k.i, u, v, k.m);
    }
  }

  /** If any square root of u / v exists, `Root` finds one. */
  lemma RootComplete(k: Curve, x: int, u: int, v: int)
    requires Proper(k) && FieldLaws(k.m) && IsRoot(x, u, v, k.m)
    ensures Root(k, u, v).Some?
  {
    var g := x * Pow(v, 4);
    CandidateValue(x, u, v, k.e, k.m);
    if g % k.m == 0 {
      ZeroRoot(x, u, v, k.e, k.m);
    } else {
      HalfPower(g, k.e, k.m);
      RootUpToSign(k, u, v, Pow(g, 4 * k.e + 2));
    }
  }

  lemma ZeroRoot(x: int, u: int, v: int, e: nat, m: int)
    requires FieldLaws(m) && Cong(u, x * x * v, m) && (x * Pow(v, 4)) % m == 0
    ensures IsRoot(Candidate(u, v, e, m), u, v, m)
  {
    assert DomainAt(x, Pow(v, 4), m);
    if x % m == 0 {
      CongMul(x, 0, x, 0, m);
      CongMul(x * x, 0, v, v, m);
    } else {
      ZeroPower(v, 4, m);
      CongMul(x * x, x * x, v, 0, m);
    }
    var r := Pow(v, 3) * Pow(u * Pow(v, 7), e);
    MulAssoc(u, Pow(v, 3), Pow(u * Pow(v, 7), e));
    CongMul(u, 0, r, r, m);
    assert Candidate(u, v, e, m) == 0;
  }

  lemma {:induction false} ZeroPower(v: int, n: nat, m: int)
    requires FieldLaws(m) && m > 1 && Pow(v, n) % m == 0
    ensures v % m == 0
  {
    if n > 0 {
      assert DomainAt(v, Pow(v, n - 1), m);
      if v % m != 0 {
        ZeroPower(v, n - 1, m);
      }
    } else {
      DivUnique(1, 0, 1, m);
    }
  }

  /** Multiplying by a square root of -1 turns a root of -u into a root of u. */
  lemma OtherRoot(c: int, i: int, u: int, v: int, m: int)
    requires m > 0 && Cong(i * i, -1, m) && Cong(c * c * v, -u, m)
    ensures IsRoot(c * i % m, u, v, m)
  {
    var r := c * i % m;
    ModIdem(c * i, m);
    CongMul(r, c * i, r, c * i, m);
    CongMul(r * r, (c * i) * (c * i), v, v, m);
    CongMul(c * c * v, -u, i * i, -1, m);
    Factor(c, i, v);
  }

  lemma Factor(c: int, i: int, v: int)
    ensures (c * i) * (c * i) * v == (c * c * v) * (i * i)
  {
    assert (c * i) * (c * i) == (c * c) * (i * i);
  }

  /** u / v is a square. */
  ghost predicate IsSquare(u: int, v: int, m: int)
    requires m > 0
  {
    exists x :: IsRoot(x, u, v, m)
  }

  lemma RootExists(k: Curve, u: int, v: int)
    requires Proper(k) && FieldLaws(k.m)
    ensures Root(k, u, v).Some? <==> IsSquare(u, v, k.m)
  {
    RootSound(k, u, v);
    if x :| IsRoot(x, u, v, k.m) {
      RootComplete(k, x, u, v);
    }
  }

  /** Over a prime modulus decoding fails exactly when the encoded y is not on the curve. */
  lemma DecodeComplete(k: Curve, s: seq<byte>)
    requires Proper(k) && FieldLaws(k.m)
    ensures var y := EncodedY(k, s);
            DecodeNeg(k, s).Some? <==> IsSquare(Num(y, k.m), Den(y, k.d, k.m), k.m)
  {
    var y := EncodedY(k, s);
    RootExists(k, Num(y, k.m), Den(y, k.d, k.m));
  }

  // ------------------------------------- the operations of `unpackneg`, one by one

  lemma NumResidue(y: int, m: int)
    requires m > 0
    ensures Minus(Times(y, y, m), 1, m) == Num(y, m)
  {
    ModIdem(y * y, m);
    CongSub(Times(y, y, m), y * y, 1, 1, m);
  }

  lemma DenResidue(y: int, d: int, m: int)
    requires m > 0
    ensures Plus(1, Times(Times(y, y, m), d, m), m) == Den(y, d, m)
  {
    var yy := Times(y, y, m);
    TimesCong(y, y, y, y, m);
    TimesCong(yy, y * y, d, d, m);
    CongAdd(1, 1, Times(yy, d, m), (y * y) * d, m);
    assert (y * y) * d == d * (y * y);
  }

  function Sevenfold(u: int, v: int, m: int): int
    requires m > 0
  {
    var v2 := Times(v, v, m);
    var v6 := Times(Times(v2, v2, m), v2, m);
    Times(Times(v6, u, m), v, m)
  }

  /** The field operations before `pow2523` compute u v^7. */
  lemma SevenfoldResidue(u: int, v: int, m: int)
    requires m > 0
    ensures Cong(Sevenfold(u, v, m), u * Pow(v, 7), m)
  {
    var v2 := Times(v, v, m);
    var v4 := Times(v2, v2, m);
    var v6 := Times(v4, v2, m);
    var w := v * v;
    TimesCong(v, v, v, v, m);
    TimesCong(v2, w, v2, w, m);
    TimesCong(v4, w * w, v2, w, m);
    TimesCong(v6, w * w * w, u, u, m);
    TimesCong(Times(v6, u, m), w * w * w * u, v, v, m);
    SeventhPower(u, v, w);
  }

  lemma SeventhPower(u: int, v: int, w: int)
    requires w == v * v
    ensures w * w * w * u * v == u * Pow(v, 7)
  {
    Square(v);
    PowAdd(v, 2, 2);
    PowAdd(v, 4, 2);
    assert Pow(v, 7) == v * Pow(v, 6);
    var s := w * w * w;
    assert s * u * v == u * (v * s);
  }

  lemma Square(v: int)
    ensures Pow(v, 2) == v * v && Pow(v, 3) == v * v * v
  {
    assert Pow(v, 1) == v * Pow(v, 0);
    assert Pow(v, 3) == v * (v * v);
  }

  /** The field operations after it finish the candidate. */
  lemma CandidateResidue(u: int, v: int, e: nat, m: int)
    requires m > 0
    ensures var t := PowMod(Sevenfold(u, v, m), e, m);
            Times(Times(Times(Times(t, u, m), v, m), v, m), v, m) == Candidate(u, v, e, m)
  {
    var w := u * Pow(v, 7);
    var t := PowMod(Sevenfold(u, v, m), e, m);
    SevenfoldResidue(u, v, m);
    PowCong(Sevenfold(u, v, m), w, e, m);
    var q := Pow(w, e);
    ModIdem(Pow(Sevenfold(u, v, m), e), m);
    var a := Times(t, u, m);
    var b := Times(a, v, m);
    var c := Times(b, v, m);
    TimesCong(t, q, u, u, m);
    TimesCong(a, q * u, v, v, m);
    TimesCong(b, q * u * v, v, v, m);
    CongMul(c, q * u * v * v, v, v, m);
    Square(v);
    Cubed(q, u, v);
  }

  lemma Cubed(q: int, u: int, v: int)
    ensures q * u * v * v * v == u * (v * v * v) * q
  {
    var s := v * v * v;
    assert q * u * v * v * v == q * u * s;
    assert q * u * s == u * s * q;
  }

  lemma DecodeShape(k: Curve, p: seq<byte>, y: int, root: Option<int>)
    requires k.m > 0 && k.sign > 0 && y == EncodedY(k, p) && root == Root(k, Num(y, k.m), Den(y, k.d, k.m))
    ensures DecodeNeg(k, p).Some? <==> root.Some?
    ensures root.Some? ==> DecodeNeg(k, p) == Some(WithSign(k, y, root.value, EncodedSign(k, p)))
  {}
}
