/** Encoded points: encodings stand for affine points, and which strings the decoder takes for which point. */
module PointEncoding {
  import opened Machine
  import opened ModArith
  import opened Radix
  import opened EdwardsCurve
  import opened Decode
  import opened Affine

  // ------------------------------------------------------ x is known up to sign

  /** 1 + d y^2 is not zero on the curve. */
  lemma DenNonzero(k: Curve, y: int)
    requires Complete(k)
    ensures (1 + k.d * (y * y)) % k.m != 0
  {
    var m, v := k.m, 1 + k.d * (y * y);
    if v % m == 0 {
      ZeroResidue(m);
      CongSub(v, 0, 1, 1, m);
      YNonzero(k.d, y, m);
      var r := SquareFrom(k.i, y, k.d, m);
      NeverSquare(k, r);
    }
  }

  lemma YNonzero(d: int, y: int, m: int)
    requires m > 1 && Cong(d * (y * y), -1, m)
    ensures y % m != 0
  {
    DivUnique(-1, -1, m - 1, m);
    if y % m == 0 {
      ZeroResidue(m);
      CongMul(y, 0, y, 0, m);
      CongMul(d, d, y * y, 0, m);
    }
  }

  /** The affine equation solved for x^2. */
  lemma SolvedForX(x: int, y: int, d: int, m: int)
    requires m > 0 && AffineEq(x, y, d, m)
    ensures Cong(x * x * (1 + d * (y * y)), y * y - 1, m)
  {
    ExpandProduct(x, y, d);
    var e := d * ((x * y) * (x * y));
    CongSub(y * y - x * x, 1 + e, -(x * x) + 1, -(x * x) + 1, m);
    CongSub(y * y - 1, y * y - 1, 0, 0, m);
  }

  /** Two residues over the same y with the same parity are equal. */
  lemma SameParity(k: Curve, x: int, x': int, y: int)
    requires Complete(k) && 0 <= x < k.m && 0 <= x' < k.m
    requires Cong(x * x * (1 + k.d * (y * y)), y * y - 1, k.m) && Cong(x' * x' * (1 + k.d * (y * y)), y * y - 1, k.m)
    ensures x == x' || x == (0 - x') % k.m
    ensures x % 2 == x' % 2 ==> x == x'
  {
    DenNonzero(k, y);
    OddModulus(k);
    ParityOfRoots(x, x', 1 + k.d * (y * y), y * y - 1, k.m);
  }

  lemma ParityOfRoots(x: int, x': int, v: int, u: int, m: int)
    requires FieldLaws(m) && m % 2 == 1 && v % m != 0 && 0 <= x < m && 0 <= x' < m
    requires Cong(x * x * v, u, m) && Cong(x' * x' * v, u, m)
    ensures x == x' || x == (0 - x') % m
    ensures x % 2 == x' % 2 ==> x == x'
  {
    SameSquares(x, x', v, u, m);
    EqualOrOpposite(x, x', m);
  }

  lemma SameSquares(x: int, x': int, v: int, u: int, m: int)
    requires FieldLaws(m) && v % m != 0 && Cong(x * x * v, u, m) && Cong(x' * x' * v, u, m)
    ensures Cong(x, x', m) || Cong(x, -x', m)
  {
    Cancel(x * x, x' * x', v, m);
    SquareRoots(x, x', m);
  }

  lemma EqualOrOpposite(x: int, x': int, m: int)
    requires 0 <= x < m && 0 <= x' < m && m % 2 == 1 && (Cong(x, x', m) || Cong(x, -x', m))
    ensures x == x' || x == (0 - x') % m
    ensures x % 2 == x' % 2 ==> x == x'
  {
    DivUnique(x, 0, x, m);
    DivUnique(x', 0, x', m);
    NegateParity(x', m);
    if x == (0 - x') % m && x == 0 {
      ZeroOpposite(x', m);
    }
  }

  lemma ZeroOpposite(x: int, m: int)
    requires 0 <= x < m && (0 - x) % m == 0
    ensures x == 0
  {
    if x > 0 {
      DivUnique(0 - x, -1, m - x, m);
    }
  }

  // ---------------------------------------------------------------- encodings

  lemma SplitEncoding(y: int, b: int, w: int)
    requires 0 <= y < w && 0 <= b <= 1
    ensures (y + w * b) % w == y && (y + w * b) / w == b
  {
    DivUnique(y + w * b, b, y, w);
  }

  /** Finite points have the same encoding exactly when they are the same affine point. */
  lemma EncodingExact(k: Curve, p: Pt, q: Pt)
    requires Complete(k) && Finite(k, p) && Finite(k, q)
    ensures Encoding(k, p) == Encoding(k, q) <==> AffineOf(k, p) == AffineOf(k, q)
  {
    AffineSound(k, p);
    AffineSound(k, q);
    var (x, y) := AffineOf(k, p);
    var (x', y') := AffineOf(k, q);
    SplitEncoding(y, x % 2, k.sign);
    SplitEncoding(y', x' % 2, k.sign);
    if Encoding(k, p) == Encoding(k, q) {
      SolvedForX(x, y, k.d, k.m);
      SolvedForX(x', y', k.d, k.m);
      SameParity(k, x, x', y);
    }
  }

  /** The affine point with the opposite x. */
  function Opposite(k: Curve, x: int, y: int): Pt
    requires k.m > 0
  {
    var nx := (0 - x) % k.m;
    Pt(nx, y, 1, nx * y % k.m)
  }

  /** Decoding the encoding of a finite point gives its negation. */
  lemma DecodeEncoding(k: Curve, p: Pt, s: seq<byte>)
    requires Complete(k) && Finite(k, p) && Eval(s, 256) == Encoding(k, p)
    ensures DecodeNeg(k, s) == Some(Opposite(k, AffineOf(k, p).0, AffineOf(k, p).1))
  {
    AffineSound(k, p);
    var (x, y) := AffineOf(k, p);
    SplitEncoding(y, x % 2, k.sign);
    DivUnique(y, 0, y, k.m);
    DivUnique(x % 2, 0, x % 2, 2);
    assert EncodedY(k, s) == y && EncodedSign(k, s) == x % 2;
    SolvedForX(x, y, k.d, k.m);
    RootOver(k, x, y);
    var c := Root(k, Num(y, k.m), Den(y, k.d, k.m)).value;
    SameParity(k, c, x, y);
    ChosenSign(k, c, x, y);
  }

  /** The decoder finds a root over y, and it solves the same equation. */
  lemma RootOver(k: Curve, x: int, y: int)
    requires Complete(k) && Cong(x * x * (1 + k.d * (y * y)), y * y - 1, k.m)
    ensures var r := Root(k, Num(y, k.m), Den(y, k.d, k.m));
            r.Some? && 0 <= r.value < k.m && Cong(r.value * r.value * (1 + k.d * (y * y)), y * y - 1, k.m)
  {
    var m, u, v := k.m, Num(y, k.m), Den(y, k.d, k.m);
    ModIdem(y * y - 1, m);
    ModIdem(1 + k.d * (y * y), m);
    CongMul(x * x, x * x, v, 1 + k.d * (y * y), m);
    RootComplete(k, x, u, v);
    RootSound(k, u, v);
    var c := Root(k, u, v).value;
    CongMul(c * c, c * c, v, 1 + k.d * (y * y), m);
  }

  lemma ChosenSign(k: Curve, c: int, x: int, y: int)
    requires Proper(k) && 0 <= c < k.m && 0 <= x < k.m && (c == x || c == (0 - x) % k.m)
    ensures WithSign(k, y, c, x % 2) == Opposite(k, x, y)
  {
    NegateParity(x, k.m);
    if c != x && c % 2 == x % 2 {
      ZeroOpposite(x, k.m);
    }
  }

  // ------------------------------------------------- strings the decoder takes

  /** The encoded y is that of the two points whose x is zero. */
  predicate OnAxis(k: Curve, s: seq<byte>)
    requires k.m > 0 && k.sign > 0
  {
    EncodedY(k, s) == 1 || EncodedY(k, s) == k.m - 1
  }

  /** The two conditions of RFC 8032 section 5.1.3 that the decoder does not impose. */
  predicate Canonical(k: Curve, s: seq<byte>)
    requires k.m > 0 && k.sign > 0
  {
    Eval(s, 256) % k.sign < k.m && !(OnAxis(k, s) && EncodedSign(k, s) == 1)
  }

  /** A string decodes to x = 0 exactly when it encodes y = 1 or y = -1. */
  lemma AxisExact(k: Curve, s: seq<byte>)
    requires Complete(k) && DecodeNeg(k, s).Some?
    ensures DecodeNeg(k, s).value.x == 0 <==> OnAxis(k, s)
  {
    var m, x, y := k.m, DecodeNeg(k, s).value.x, EncodedY(k, s);
    var v := 1 + k.d * (y * y);
    DecodeSound(k, s);
    DenNonzero(k, y);
    ZeroResidue(m);
    DivUnique(y, 0, y, m);
    DivUnique(x, 0, x, m);
    if x == 0 {
      assert x * x * v == 0;
      CongAdd(0, y * y - 1, 1, 1, m);
      PlusMinusOne(y, m);
      DivUnique(1, 0, 1, m);
      DivUnique(-1, -1, m - 1, m);
    } else {
      NonzeroProduct(x, x, m);
      NonzeroProduct(x * x, v, m);
      if OnAxis(k, s) {
        AxisSquare(y, m);
      }
    }
  }

  lemma AxisSquare(y: int, m: int)
    requires m > 1 && (y == 1 || y == m - 1)
    ensures (y * y - 1) % m == 0
  {
    if y == 1 {
      ZeroResidue(m);
    } else {
      assert y * y - 1 == (m - 2) * m;
      DivUnique(y * y - 1, m - 2, 0, m);
    }
  }

  /** Every string that encodes y = 1 decodes to the neutral point, whatever its sign bit. */
  lemma DecodesNeutral(k: Curve, s: seq<byte>)
    requires Proper(k) && EncodedY(k, s) == 1
    ensures DecodeNeg(k, s) == Some(Pt(0, 1, 1, 0))
  {
    var v := Den(1, k.d, k.m);
    ZeroResidue(k.m);
    assert Num(1, k.m) == 0;
    CandidateOfZero(v, k.e, k.m);
    assert IsRoot(0, 0, v, k.m);
  }

  lemma CandidateOfZero(v: int, e: nat, m: int)
    requires m > 0
    ensures Candidate(0, v, e, m) == 0
  {
    ZeroResidue(m);
    assert 0 * Pow(v, 3) == 0;
  }

  /** The neutral point has encodings that are not canonical: with the sign bit set, and with y + m for y. */
  lemma NoncanonicalNeutral(k: Curve, s: seq<byte>)
    requires Proper(k) && k.m + 1 < k.sign && (Eval(s, 256) == k.sign + 1 || Eval(s, 256) == k.m + 1)
    ensures EncodedY(k, s) == 1 && DecodeNeg(k, s) == Some(Pt(0, 1, 1, 0)) && !Canonical(k, s)
  {
    var v := Eval(s, 256);
    if v == k.sign + 1 {
      DivUnique(v, 1, 1, k.sign);
      DivUnique(1, 0, 1, k.m);
    } else {
      DivUnique(v, 0, v, k.sign);
      DivUnique(v, 1, 1, k.m);
    }
    DecodesNeutral(k, s);
  }

  lemma AffineOfOne(k: Curve, p: Pt)
    requires k.m > 2 && p.z == 1 && 0 <= p.x < k.m && 0 <= p.y < k.m
    ensures AffineOf(k, p) == (p.x, p.y)
  {
    PowOne(k.m - 2);
    DivUnique(1, 0, 1, k.m);
    DivUnique(p.x, 0, p.x, k.m);
    DivUnique(p.y, 0, p.y, k.m);
  }

  lemma {:induction false} PowOne(n: nat)
    ensures Pow(1, n) == 1
  {
    if n > 0 {
      PowOne(n - 1);
    }
  }

  /** A string that decodes is the encoding of its point exactly when it is canonical. */
  lemma DecodeExact(k: Curve, s: seq<byte>)
    requires Complete(k) && DecodeNeg(k, s).Some? && 0 <= Eval(s, 256) < 2 * k.sign
    ensures var n := DecodeNeg(k, s).value;
            Encoding(k, Opposite(k, n.x, n.y)) == Eval(s, 256) <==> Canonical(k, s)
  {
    var n, v, w := DecodeNeg(k, s).value, Eval(s, 256), k.sign;
    DecodeSound(k, s);
    var a := Opposite(k, n.x, n.y);
    AffineOfOne(k, a);
    OppositeParity(n.x, EncodedSign(k, s), k.m);
    TwoHalves(v, w);
    SplitEncoding(a.y, a.x % 2, w);
    AxisExact(k, s);
    if v % w < k.m {
      DivUnique(v % w, 0, v % w, k.m);
    }
  }

  /** The opposite of a residue that lacks the parity `b` has it, unless both are 0. */
  lemma OppositeParity(n: int, b: int, m: int)
    requires 0 <= n < m && m % 2 == 1 && 0 <= b <= 1 && (n != 0 ==> n % 2 != b)
    ensures (0 - n) % m == 0 <==> n == 0
    ensures (0 - n) % m != 0 ==> (0 - n) % m % 2 == b
  {
    NegateParity(n, m);
    ZeroResidue(m);
    if n != 0 && (0 - n) % m == 0 {
      ZeroOpposite(n, m);
    }
  }

  lemma TwoHalves(v: int, w: int)
    requires 0 <= v < 2 * w
    ensures v == v % w + w * (v / w) && (v / w == 0 || v / w == 1) && (v / w) % 2 == v / w
  {
    if v < w {
      DivUnique(v, 0, v, w);
    } else {
      DivUnique(v, 1, v - w, w);
    }
  }

  /** A string is the encoding of a finite point exactly when it is canonical and decodes to the point's negation. */
  lemma EncodingOfPoint(k: Curve, p: Pt, s: seq<byte>)
    requires Complete(k) && Finite(k, p) && 0 <= Eval(s, 256) < 2 * k.sign
    ensures Eval(s, 256) == Encoding(k, p)
       <==> Canonical(k, s) && DecodeNeg(k, s) == Some(Opposite(k, AffineOf(k, p).0, AffineOf(k, p).1))
  {
    var (x, y) := AffineOf(k, p);
    var n := Opposite(k, x, y);
    AffineSound(k, p);
    OppositeTwice(x, k.m);
    AffineOfOne(k, Opposite(k, n.x, n.y));
    if Eval(s, 256) == Encoding(k, p) {
      DecodeEncoding(k, p, s);
      DecodeExact(k, s);
    } else if DecodeNeg(k, s) == Some(n) {
      DecodeExact(k, s);
    }
  }

  lemma OppositeTwice(x: int, m: int)
    requires 0 <= x < m
    ensures (0 - (0 - x) % m) % m == x
  {
    if x == 0 {
      DivUnique(0, 0, 0, m);
    } else {
      DivUnique(0 - x, -1, m - x, m);
      DivUnique(0 - (m - x), -1, x, m);
    }
  }
}
