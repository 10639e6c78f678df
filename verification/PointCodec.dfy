/** Point decoding and encoding in place (crypto/ed25519.c). */
module PointCodec {
  import opened Machine
  import opened ModArith
  import opened Radix
  import opened Field25519
  import opened Codec25519
  import opened Powers25519
  import opened Points
  import opened Decode
  import Edwards
  import CurveLadder

  const D_LIMBS: seq<i64> := [
    0x78a3, 0x1359, 0x4dca, 0x75eb, 0xd8ab, 0x4141, 0x0a4d, 0x0070, 0xe898, 0x7779, 0x4079, 0x8cc7, 0xfe73, 0x2b6f,
    0x6cee, 0x5203]
  const I_LIMBS: seq<i64> := [
    0xa0b0, 0x4a0e, 0x1b27, 0xc4ee, 0xe478, 0xad2f, 0x1806, 0x2f43, 0xd7a7, 0x3dfb, 0x0099, 0x2b4d, 0xdf0b, 0x4fc1,
    0x2480, 0x2b83]
  const X_LIMBS: seq<i64> := [
    0xd51a, 0x8f25, 0x2d60, 0xc956, 0xa7b2, 0x9525, 0xc760, 0x692c, 0xdc5c, 0xfdd6, 0xe231, 0xc0a4, 0x53fe, 0xcd6e,
    0x36d3, 0x2169]
  const Y_LIMBS: seq<i64> := [
    0x6658, 0x6666, 0x6666, 0x6666, 0x6666, 0x6666, 0x6666, 0x6666, 0x6666, 0x6666, 0x6666, 0x6666, 0x6666, 0x6666,
    0x6666, 0x6666]

  lemma DValue()
    ensures |D_LIMBS| == 16 && F(D_LIMBS) == Edwards.D && Within(D_LIMBS, 65536)
  {
    LimbsValue(D_LIMBS);
  }

  lemma IValue()
    ensures |I_LIMBS| == 16 && F(I_LIMBS) == Edwards.SQRT_MINUS_ONE && Within(I_LIMBS, 65536)
  {
    LimbsValue(I_LIMBS);
  }

  lemma XValue()
    ensures |X_LIMBS| == 16 && F(X_LIMBS) == Edwards.BASE_X && Within(X_LIMBS, 65536)
  {
    LimbsValue(X_LIMBS);
  }

  lemma YValue()
    ensures |Y_LIMBS| == 16 && F(Y_LIMBS) == Edwards.BASE_Y && Within(Y_LIMBS, 65536)
  {
    LimbsValue(Y_LIMBS);
  }

  /** A constant `gf` as an array. */
  method Limbs(s: seq<i64>) returns (r: array<i64>)
    requires |s| == 16
    ensures fresh(r) && r.Length == 16 && r[..] == s
  {
    r := new i64[16](i requires 0 <= i < 16 => s[i]);
  }

  // ------------------------------------------------------------------ decoding

  /** y^2 - 1 and 1 + d y^2. */
  method NumDen(y: array<i64>, one: array<i64>) returns (num: array<i64>, den: array<i64>)
    requires y.Length == one.Length == 16 && Within(y[..], 65536) && Within(one[..], 1) && F(one[..]) == 1
    ensures fresh(num) && fresh(den) && num != den && num.Length == den.Length == 16
    ensures Within(num[..], 65574) && Within(den[..], 65574)
    ensures F(num[..]) == Num(F(y[..]), P) && F(den[..]) == Den(F(y[..]), Edwards.D, P)
  {
    num, den := new i64[16], new i64[16];
    var k := Limbs(D_LIMBS);
    DValue();
    S(num, y);
    M(den, num, k);
    Z(num, num, one, 65573, 1);
    A(den, one, den, 1, 65573);
    NumResidue(F(y[..]), P);
    DenResidue(F(y[..]), Edwards.D, P);
  }

  /** From `den2` to the first value of `r[0]` in `unpackneg`. */
  method CandidateRoot(x: array<i64>, num: array<i64>, den: array<i64>)
    requires x.Length == num.Length == den.Length == 16 && x != num && x != den
    requires Within(num[..], 65574) && Within(den[..], 65574)
    modifies x
    ensures Within(x[..], 65573) && F(x[..]) == Candidate(F(num[..]), F(den[..]), Edwards.ROOT_EXPONENT, P)
  {
    var t := new i64[16];
    Seventh(t, num, den);
    ghost var u, v := F(num[..]), F(den[..]);
    Pow2523(t, t);
    CandidateResidue(u, v, Edwards.ROOT_EXPONENT, P);
    M(t, t, num);
    M(t, t, den);
    M(t, t, den);
    M(x, t, den);
  }

  method Seventh(t: array<i64>, num: array<i64>, den: array<i64>)
    requires t.Length == num.Length == den.Length == 16 && t != num && t != den
    requires Within(num[..], 65574) && Within(den[..], 65574)
    modifies t
    ensures Within(t[..], 65573) && F(t[..]) == Sevenfold(F(num[..]), F(den[..]), P)
  {
    var den2, den4, den6 := new i64[16], new i64[16], new i64[16];
    S(den2, den);
    S(den4, den2);
    M(den6, den4, den2);
    M(t, den6, num);
    M(t, t, den);
  }

  /** Whether x^2 den = num. */
  method CheckRoot(chk: array<i64>, x: array<i64>, num: array<i64>, den: array<i64>) returns (ok: bool)
    requires chk.Length == x.Length == num.Length == den.Length == 16 && chk != x && chk != num && chk != den
    requires Within(x[..], 65573) && Within(num[..], 65574) && Within(den[..], 65574)
    modifies chk
    ensures ok <==> IsRoot(F(x[..]), F(num[..]), F(den[..]), P)
  {
    S(chk, x);
    M(chk, chk, den);
    ghost var c, u, v := F(x[..]), F(num[..]), F(den[..]);
    ModMul(c * c, v, P);
    ModIdem(v, P);
    ModIdem(Val(den[..]), P);
    ModIdem(Val(num[..]), P);
    var r := Neq25519(chk, num);
    ok := r == 0;
  }

  lemma SignBit(s: seq<byte>)
    requires |s| == 32
    ensures (Eval(s, 256) / TWO_TO_255) % 2 == s[31] / 128
  {
    var low := s[..31];
    var w := Pow(256, 31);
    assert s == low + [s[31]];
    EvalSnoc(low, s[31], 256);
    EvalBound(low, 256);
    Pow248();
    MulMono(0, s[31] % 128, w);
    MulMono(s[31] % 128 + 1, 128, w);
    TopByte(Eval(low, 256), s[31], w);
    DivUnique(Eval(s, 256), s[31] / 128, Eval(low, 256) + (s[31] % 128) * w, TWO_TO_255);
  }

  lemma TopByte(e: int, d: int, w: int)
    ensures e + d * w == (d / 128) * (128 * w) + (e + (d % 128) * w)
    ensures (d % 128 + 1) * w == (d % 128) * w + w
  {
    var q, r := d / 128, d % 128;
    assert d * w == (128 * q + r) * w;
    assert (128 * q) * w == q * (128 * w);
  }

  lemma Pow248()
    ensures 128 * Pow(256, 31) == TWO_TO_255
  {
    assert Pow(256, 4) == 0x1_0000_0000;
    PowAdd(256, 4, 4);
    PowAdd(256, 8, 8);
    PowAdd(256, 16, 8);
    PowAdd(256, 24, 4);
    PowAdd(256, 28, 3);
    assert Pow(256, 3) == 0x100_0000;
  }

  /** `unpackneg`: decode a public key to the negated point, or refuse it. */
  method UnpackNeg(r: Point, p: seq<byte>) returns (rc: int)
    requires r.Valid() && |p| == 32
    modifies r.x, r.y, r.z, r.t
    ensures rc == if DecodeNeg(Edwards.CURVE_25519, p).Some? then 0 else -1
    ensures rc == 0 ==> r.Value() == DecodeNeg(Edwards.CURVE_25519, p).value && r.Small()
  {
    var ok := FindRoot(r, p);
    Edwards.Constants();
    DecodeShape(Edwards.CURVE_25519, p, F(r.y[..]), RootOf(F(r.y[..])));
    if !ok {
      return -1;
    }
    Choose(r, p);
    return 0;
  }

  function RootOf(y: int): Option<int> {
    Root(Edwards.CURVE_25519, Num(y, P), Den(y, Edwards.D, P))
  }

  /** `unpackneg` up to its last root check. */
  method FindRoot(r: Point, p: seq<byte>) returns (ok: bool)
    requires r.Valid() && |p| == 32
    modifies r.x, r.y, r.z
    ensures F(r.y[..]) == EncodedY(Edwards.CURVE_25519, p) && F(r.z[..]) == 1
    ensures Within(r.x[..], 65573) && Within(r.y[..], 65573) && Within(r.z[..], 65573)
    ensures ok <==> RootOf(F(r.y[..])).Some?
    ensures ok ==> F(r.x[..]) == RootOf(F(r.y[..])).value
  {
    var gf1 := Constant(1);
    Set(r.z, gf1);
    Unpack25519(r.y, p);
    var num, den := NumDen(r.y, r.z);
    CandidateRoot(r.x, num, den);
    ok := FixRoot(r.x, num, den);
  }

  /** The two root checks of `unpackneg`. */
  method FixRoot(x: array<i64>, num: array<i64>, den: array<i64>) returns (ok: bool)
    requires x.Length == num.Length == den.Length == 16 && x != num && x != den
    requires Within(x[..], 65573) && Within(num[..], 65574) && Within(den[..], 65574)
    requires F(x[..]) == Candidate(F(num[..]), F(den[..]), Edwards.ROOT_EXPONENT, P)
    modifies x
    ensures Within(x[..], 65573)
    ensures ok <==> Root(Edwards.CURVE_25519, F(num[..]), F(den[..])).Some?
    ensures ok ==> F(x[..]) == Root(Edwards.CURVE_25519, F(num[..]), F(den[..])).value
  {
    var chk := new i64[16];
    ok := CheckRoot(chk, x, num, den);
    if !ok {
      var i := Limbs(I_LIMBS);
      IValue();
      M(x, x, i);
    }
    ok := CheckRoot(chk, x, num, den);
  }

  /** The end of `unpackneg`: pick the sign and set T. */
  method Choose(r: Point, p: seq<byte>)
    requires r.Valid() && |p| == 32
    requires Within(r.x[..], 65573) && Within(r.y[..], 65573) && Within(r.z[..], 65573)
    modifies r.x, r.t
    ensures var k := Edwards.CURVE_25519;
            F(r.z[..]) == 1 ==> r.Value() == WithSign(k, F(r.y[..]), old(F(r.x[..])), EncodedSign(k, p))
    ensures r.Small()
  {
    var par := Par25519(r.x);
    SignBit(p);
    if par == p[31] / 128 {
      var gf0 := Constant(0);
      Z(r.x, gf0, r.x, 0, 65573);
    }
    M(r.t, r.x, r.y);
  }

  // ------------------------------------------------------------------ encoding

  /** `pack`. */
  method PackPoint(r: array<byte>, p: Point)
    requires r.Length == 32 && p.Valid() && p.Small()
    modifies r
    ensures Eval(r[..], 256) == Encoding(Edwards.CURVE_25519, p.Value())
  {
    var tx, ty, zi := new i64[16], new i64[16], new i64[16];
    Inv25519(zi, p.z);
    M(tx, p.x, zi);
    M(ty, p.y, zi);
    Pack25519(r, ty);
    var par := Par25519(tx);
    SetSign(r, par);
  }

  lemma TopBit(b: byte, par: int)
    requires b < 128 && 0 <= par <= 1
    ensures Xor(8, b, par * 128) == b + 128 * par
  {
    EightBits();
    if par == 1 {
      XorHigh(7, b);
    } else {
      XorZero(8, b);
    }
  }

  method FlipTop(b: byte, par: int) returns (r: byte)
    requires b < 128 && 0 <= par <= 1
    ensures r == b + 128 * par
  {
    TopBit(b, par);
    r := Xor(8, b, par * 128);
  }

  /** The last line of `pack`. */
  method SetSign(r: array<byte>, par: int)
    requires r.Length == 32 && 0 <= par <= 1 && Eval(r[..], 256) < TWO_TO_255
    modifies r
    ensures Eval(r[..], 256) == old(Eval(r[..], 256)) + TWO_TO_255 * par
  {
    ghost var s := r[..];
    TopBitClear(s);
    var top := FlipTop(r[31], par);
    r[31] := top;
    assert r[..] == s[31 := s[31] + 128 * par];
    EvalUpdate(s, 31, s[31] + 128 * par, 256);
    Pow248();
  }

  lemma TopBitClear(s: seq<byte>)
    requires |s| == 32 && Eval(s, 256) < TWO_TO_255
    ensures s[31] < 128
  {
    var low := s[..31];
    assert s == low + [s[31]];
    EvalSnoc(low, s[31], 256);
    EvalBound(low, 256);
    Pow248();
    if s[31] >= 128 {
      MulMono(128, s[31], Pow(256, 31));
    }
  }

  /** `scalarbase`. */
  method ScalarBase(p: Point, s: seq<byte>)
    requires p.Valid() && |s| == 32
    modifies p.x, p.y, p.z, p.t
    ensures p.Value() == CurveLadder.ScalarMult(Edwards.CURVE_25519, Edwards.BASE, s) && p.Small()
  {
    var q := new Point();
    var gf1 := Constant(1);
    var xs := Limbs(X_LIMBS);
    var ys := Limbs(Y_LIMBS);
    XValue();
    YValue();
    Edwards.Constants();
    Set(q.x, xs);
    Set(q.y, ys);
    Set(q.z, gf1);
    M(q.t, xs, ys);
    ScalarMultiply(p, q, s);
  }
}
