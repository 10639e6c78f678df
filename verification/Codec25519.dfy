/** Conditional exchange, canonical packing and comparison of field elements (crypto/ed25519.c). */
module Codec25519 {
  import opened Machine
  import opened ModArith
  import opened Radix
  import opened Field25519

  /** `sel25519`: swap `p` and `q` exactly when `b` is 1. */
  method Sel(p: array<i64>, q: array<i64>, b: int)
    requires p.Length == q.Length == 16 && p != q && (b == 0 || b == 1)
    modifies p, q
    ensures b == 1 ==> p[..] == old(q[..]) && q[..] == old(p[..])
    ensures b == 0 ==> p[..] == old(p[..]) && q[..] == old(q[..])
  {
    ghost var s, r := p[..], q[..];
    for i := 0 to 16
      invariant forall k :: i <= k < 16 ==> p[k] == s[k] && q[k] == r[k]
      invariant forall k :: 0 <= k < i ==> if b == 1 then p[k] == r[k] && q[k] == s[k] else p[k] == s[k] && q[k] == r[k]
    {
      ExchangeSwaps(b, p[i], q[i]);
      var x, y := Exchange(b, p[i], q[i]).0, Exchange(b, p[i], q[i]).1;
      p[i], q[i] := x, y;
    }
  }

  // ------------------------------------------------------------------ packing

  /** The limbs of P. */
  function PLimb(i: nat): int {
    if i == 0 then 0xffed else if i < 15 then 0xffff else 0x7fff
  }

  function PLimbs(n: nat): (r: seq<int>)
    ensures |r| == n
  {
    seq(n, i requires 0 <= i < n => PLimb(i))
  }

  lemma PLimbsValue()
    ensures Val(PLimbs(16)) == P
  {
    var ones := seq(14, i requires 0 <= i < 14 => 0xffff);
    assert PLimbs(16) == [0xffed] + ones + [0x7fff];
    EvalConcat([0xffed] + ones, [0x7fff], 65536);
    EvalConcat([0xffed], ones, 65536);
    EvalRange(ones, 0xffff, 0xffff, 65536);
    assert Val([0xffed]) == 0xffed && Val([0x7fff]) == 0x7fff;
    assert Pow(65536, 4) == 0x1_0000_0000_0000_0000;
    PowAdd(65536, 4, 4);
    PowAdd(65536, 8, 4);
    PowAdd(65536, 12, 2);
    PowAdd(65536, 12, 3);
    assert Pow(65536, 1) == 65536;
  }

  /** `m` is `t - P` with the borrow left in the top limb. */
  ghost predicate Difference(t: seq<int>, m: seq<int>, i: nat) {
    && i < |t| == |m|
    && (forall k :: 0 <= k < i ==> 0 <= m[k] < 65536)
    && -65536 <= m[i] < 65536
    && Val(m[..i + 1]) == Val(t[..i + 1]) - Val(PLimbs(i + 1))
  }

  /** Masking limb `i` and borrowing from limb `i + 1`. */
  lemma BorrowStep(t: seq<int>, m: seq<int>, m': seq<int>, i: nat)
    requires i + 1 < |t| == |m| == |m'| && Difference(t, m, i)
    requires 0 <= t[i + 1] < 65536
    requires m'[..i] == m[..i] && m'[i] == m[i] % 65536
    requires m'[i + 1] == t[i + 1] - PLimb(i + 1) - (m[i] / 65536) % 2
    ensures Difference(t, m', i + 1)
  {
    var w := Pow(65536, i);
    EvalNext(m, i, 65536);
    EvalNext(m', i, 65536);
    EvalNext(m', i + 1, 65536);
    EvalNext(t, i + 1, 65536);
    assert PLimbs(i + 2) == PLimbs(i + 1) + [PLimb(i + 1)];
    EvalSnoc(PLimbs(i + 1), PLimb(i + 1), 65536);
    BorrowValue(m[i], t[i + 1], PLimb(i + 1), w);
  }

  lemma BorrowValue(x: int, t: int, p: int, w: int)
    requires -65536 <= x < 65536
    ensures (x % 65536) * w + (t - p - (x / 65536) % 2) * (65536 * w) == x * w + t * (65536 * w) - p * (65536 * w)
  {
    var b := (x / 65536) % 2;
    assert x % 65536 == x + 65536 * b;
    assert (x + 65536 * b) * w == x * w + b * (65536 * w);
    assert (t - p - b) * (65536 * w) == t * (65536 * w) - p * (65536 * w) - b * (65536 * w);
  }

  /** The top limb of the difference is negative exactly when `t < P`. */
  lemma DifferenceSign(t: seq<int>, m: seq<int>)
    requires |t| == 16 && Difference(t, m, 15)
    ensures Val(m) == Val(t) - P
    ensures m[15] < 0 <==> Val(t) < P
  {
    PLimbsValue();
    assert m[..16] == m && t[..16] == t;
    EvalNext(m, 15, 65536);
    EvalBound(m[..15], 65536);
    var w := Pow(65536, 15);
    if m[15] < 0 {
      MulMono(m[15], -1, w);
    } else {
      MulMono(0, m[15], w);
    }
  }

  /** One round of the subtraction loop of `pack25519`. */
  method SubtractOnce(t: array<i64>, m: array<i64>)
    requires t.Length == m.Length == 16 && t != m && Digits(t[..], 65536)
    modifies t, m
    ensures Digits(t[..], 65536)
    ensures Val(t[..]) == old(Val(t[..])) - if old(Val(t[..])) < P then 0 else P
  {
    ghost var s := t[..];
    m[0] := t[0] - 0xffed;
    FirstDifference(s, m[..]);
    for i := 1 to 15
      invariant t[..] == s
      invariant Difference(s, m[..], i - 1)
    {
      ghost var before := m[..];
      m[i] := t[i] - 0xffff - (m[i - 1] / 65536) % 2;
      m[i - 1] := m[i - 1] % 65536;
      BorrowStep(s, before, m[..], i - 1);
    }
    ghost var before := m[..];
    m[15] := t[15] - 0x7fff - (m[14] / 65536) % 2;
    var b := (m[15] / 65536) % 2;
    m[14] := m[14] % 65536;
    BorrowStep(s, before, m[..], 14);
    DifferenceSign(s, m[..]);
    ghost var d := m[..];
    Sel(t, m, 1 - b);
    assert t[..] == if b == 0 then d else s;
  }

  lemma FirstDifference(t: seq<int>, m: seq<int>)
    requires |t| == |m| == 16 && 0 <= t[0] < 65536 && m[0] == t[0] - 0xffed
    ensures Difference(t, m, 0)
  {
    assert m[..1] == [m[0]] && t[..1] == [t[0]] && PLimbs(1) == [0xffed];
    EvalOne(m[0], 65536);
    EvalOne(t[0], 65536);
    EvalOne(0xffed, 65536);
  }

  /** Two bytes per limb hold the same integer. */
  lemma {:induction false} BytesOfLimbs(o: seq<int>, t: seq<int>, i: nat)
    requires i <= |t| && 2 * i <= |o|
    requires forall k :: 0 <= k < i ==> o[2 * k] + 256 * o[2 * k + 1] == t[k]
    ensures Eval(o[..2 * i], 256) == Val(t[..i])
    ensures Pow(256, 2 * i) == Pow(65536, i)
  {
    if i > 0 {
      var j := i - 1;
      BytesOfLimbs(o, t, j);
      assert o[..2 * i] == (o[..2 * j] + [o[2 * j]]) + [o[2 * j + 1]];
      EvalSnoc(o[..2 * j], o[2 * j], 256);
      EvalSnoc(o[..2 * j] + [o[2 * j]], o[2 * j + 1], 256);
      EvalNext(t, j, 65536);
      assert Pow(256, 2 * j + 1) == 256 * Pow(256, 2 * j);
      assert Pow(256, 2 * i) == 256 * Pow(256, 2 * j + 1);
      TwoBytes(o[2 * j], o[2 * j + 1], Pow(65536, j));
    }
  }

  lemma TwoBytes(lo: int, hi: int, w: int)
    ensures lo * w + hi * (256 * w) == (lo + 256 * hi) * w
  {}

  lemma LimbsBelow(v: int)
    requires 0 <= v < Pow(65536, 16)
    ensures v < 2 * P + 38
  {
    PowLimbs();
  }

  /** Subtracting P at most twice gives the residue. */
  lemma TwoSubtractions(v: int, p: int)
    requires 0 <= v < 2 * p + 38 && p > 38
    ensures var w := v - if v < p then 0 else p; (w - if w < p then 0 else p) == v % p
  {
    var w := v - if v < p then 0 else p;
    var u := w - if w < p then 0 else p;
    var q := (if v < p then 0 else 1) + if w < p then 0 else 1;
    assert v == q * p + u;
    DivUnique(v, q, u, p);
  }

  /** The three `car25519` calls of `pack25519`. */
  method Normalise(t: array<i64>)
    requires t.Length == 16 && Within(t[..], 0x4000_0000_0000_0000)
    modifies t
    ensures Digits(t[..], 65536) && F(t[..]) == old(F(t[..])) && 0 <= Val(t[..]) < 2 * P + 38
  {
    ghost var s := t[..];
    ThreePasses(s);
    CarriedValue(s);
    CarriedValue(Carried(s));
    CarriedValue(Carried(Carried(s)));
    Car(t);
    Car(t);
    Car(t);
    EvalBound(t[..], 65536);
    LimbsBelow(Val(t[..]));
  }

  /** `pack25519`: the 32 little-endian bytes of the representative in [0, P). */
  method Pack25519(o: array<byte>, n: array<i64>)
    requires o.Length == 32 && n.Length == 16 && Within(n[..], 0x4000_0000_0000_0000)
    modifies o
    ensures Eval(o[..], 256) == F(n[..])
  {
    var t, m := new i64[16], new i64[16];
    for i := 0 to 16
      invariant forall k :: 0 <= k < i ==> t[k] == n[k]
    {
      t[i] := n[i];
    }
    ghost var s := n[..];
    assert t[..] == s;
    Normalise(t);
    ghost var v := Val(t[..]);
    TwoSubtractions(v, P);
    SubtractOnce(t, m);
    SubtractOnce(t, m);
    assert Val(t[..]) == F(s);
    WriteBytes(o, t);
  }

  /** The last loop of `pack25519`. */
  method WriteBytes(o: array<byte>, t: array<i64>)
    requires o.Length == 32 && t.Length == 16 && Digits(t[..], 65536)
    modifies o
    ensures Eval(o[..], 256) == Val(t[..])
  {
    for i := 0 to 16
      invariant forall k :: 0 <= k < i ==> o[2 * k] as int + 256 * (o[2 * k + 1] as int) == t[k]
    {
      o[2 * i] := t[i] % 256;
      o[2 * i + 1] := t[i] / 256;
    }
    BytesOfLimbs(o[..], t[..], 16);
    assert o[..][..32] == o[..] && t[..][..16] == t[..];
  }

  // --------------------------------------------------------------- comparison

  /** `vn` for 32 bytes: 0 if equal, -1 otherwise. */
  method Verify32(x: seq<byte>, y: seq<byte>) returns (r: int)
    requires |x| == |y| == 32
    ensures r == if x == y then 0 else -1
  {
    var d := 0;
    EightBits();
    for i := 0 to 32
      invariant 0 <= d < 256 && (d == 0 <==> x[..i] == y[..i])
    {
      XorNonnegative(8, x[i], y[i]);
      OrZero(8, d, Xor(8, x[i], y[i]));
      d := Or(8, d, Xor(8, x[i], y[i]));
      assert x[..i + 1] == x[..i] + [x[i]] && y[..i + 1] == y[..i] + [y[i]];
    }
    assert x[..32] == x && y[..32] == y;
    r := ((d - 1) / 256) % 2 - 1;
  }

  lemma EightBits()
    ensures Pow(2, 8) == 256 && Pow(2, 7) == 128
  {}

  /** `neq25519` decides equality modulo P. */
  method Neq25519(a: array<i64>, b: array<i64>) returns (r: int)
    requires a.Length == b.Length == 16
    requires Within(a[..], 0x4000_0000_0000_0000) && Within(b[..], 0x4000_0000_0000_0000)
    ensures r == if F(a[..]) == F(b[..]) then 0 else -1
  {
    var c, d := new byte[32], new byte[32];
    Pack25519(c, a);
    Pack25519(d, b);
    if F(a[..]) == F(b[..]) {
      EvalInjective(c[..], d[..], 256);
    }
    r := Verify32(c[..], d[..]);
  }

  /** `par25519`: the low bit of the canonical representative. */
  method Par25519(a: array<i64>) returns (r: int)
    requires a.Length == 16 && Within(a[..], 0x4000_0000_0000_0000)
    ensures r == F(a[..]) % 2
  {
    var d := new byte[32];
    Pack25519(d, a);
    LowByte(d[..]);
    r := d[0] % 2;
  }

  lemma {:induction false} LowByte(s: seq<int>)
    requires |s| > 0
    ensures Eval(s, 256) % 2 == s[0] % 2
    decreases |s|
  {
    var n := |s| - 1;
    if n == 0 {
      assert s == [s[0]];
      EvalOne(s[0], 256);
    } else {
      LowByte(s[..n]);
      EvenTop(Eval(s[..n], 256), s[n], Pow(256, n - 1));
    }
  }

  lemma EvenTop(e: int, d: int, w: int)
    ensures (e + d * (256 * w)) % 2 == e % 2
  {
    var k := d * w;
    assert d * (256 * w) == 256 * k;
  }

  /** `unpack25519`: the low 255 bits, as sixteen canonical limbs. */
  method Unpack25519(o: array<i64>, n: seq<byte>)
    requires o.Length == 16 && |n| == 32
    modifies o
    ensures Digits(o[..], 65536) && Val(o[..]) == Eval(n, 256) % TWO_TO_255
  {
    for i := 0 to 16
      invariant forall k :: 0 <= k < i ==> o[k] == n[2 * k] as int + 256 * (n[2 * k + 1] as int)
    {
      o[i] := n[2 * i] as int + (n[2 * i + 1] as int) * 256;
    }
    ghost var s := o[..];
    BytesOfLimbs(n, s, 16);
    assert n[..32] == n && s[..16] == s;
    o[15] := o[15] % 0x8000;
    assert o[..] == s[15 := s[15] % 0x8000];
    MaskTop(s);
  }

  lemma MaskTop(s: seq<int>)
    requires |s| == 16 && Digits(s, 65536)
    ensures Val(s[15 := s[15] % 0x8000]) == Val(s) % TWO_TO_255
  {
    var t := s[15 := s[15] % 0x8000];
    EvalUpdate(s, 15, s[15] % 0x8000, 65536);
    EvalNext(t, 15, 65536);
    assert t[..16] == t;
    EvalBound(t[..15], 65536);
    Pow240();
    DivUnique(Val(s), s[15] / 0x8000, Val(t), TWO_TO_255);
  }

  lemma Pow240()
    ensures 0x8000 * Pow(65536, 15) == TWO_TO_255
  {
    assert Pow(65536, 4) == 0x1_0000_0000_0000_0000;
    PowAdd(65536, 4, 4);
    PowAdd(65536, 8, 4);
    PowAdd(65536, 12, 3);
  }

  /** Unpacking what `pack25519` produced gives the same field element, already below P. */
  lemma UnpackInvertsPack(n: seq<int>, o: seq<int>, u: seq<int>)
    requires Eval(o, 256) == F(n)
    requires Val(u) == Eval(o, 256) % TWO_TO_255
    ensures Val(u) == F(n) && F(u) == F(n)
  {
    var v := F(n);
    DivUnique(v, 0, v, TWO_TO_255);
    DivUnique(v, 0, v, P);
  }

  /** Packing what `unpack25519` produced restores exactly the 32-byte strings that encode a value below P. */
  lemma PackRestoresCanonical(n: seq<int>, u: seq<int>, o: seq<int>)
    requires |n| == |o| == 32 && Digits(n, 256) && Digits(o, 256)
    requires Val(u) == Eval(n, 256) % TWO_TO_255
    requires Eval(o, 256) == F(u)
    ensures o == n <==> Eval(n, 256) < P
  {
    EvalBound(n, 256);
    if Eval(n, 256) < P {
      var v := Eval(n, 256);
      DivUnique(v, 0, v, TWO_TO_255);
      DivUnique(v, 0, v, P);
      EvalInjective(o, n, 256);
    }
  }

  // ------------------------------------------------------------ limb constants

  function Quad(a: int, b: int, c: int, d: int): int {
    a + 0x1_0000 * b + 0x1_0000_0000 * c + 0x1_0000_0000_0000 * d
  }

  lemma QuadValue(s: seq<int>)
    requires |s| == 4
    ensures Val(s) == Quad(s[0], s[1], s[2], s[3])
  {
    assert s == s[..4] && s[..0] == [];
    EvalNext(s, 0, 65536);
    EvalNext(s, 1, 65536);
    EvalNext(s, 2, 65536);
    EvalNext(s, 3, 65536);
    assert Pow(65536, 0) == 1 && Pow(65536, 1) == 0x1_0000 && Pow(65536, 2) == 0x1_0000_0000;
    assert Pow(65536, 3) == 0x1_0000_0000_0000;
  }

  /** Sixteen limbs, written out. */
  lemma LimbsValue(s: seq<int>)
    requires |s| == 16
    ensures Val(s) == Quad(s[0], s[1], s[2], s[3]) + 0x1_00000000_00000000 * Quad(s[4], s[5], s[6], s[7])
                    + 0x1_00000000_00000000_00000000_00000000 * Quad(s[8], s[9], s[10], s[11])
                    + 0x1_00000000_00000000_00000000_00000000_00000000_00000000 * Quad(s[12], s[13], s[14], s[15])
  {
    var a, b, c, d := s[..4], s[4..8], s[8..12], s[12..];
    assert s == a + (b + (c + d));
    EvalConcat(a, b + (c + d), 65536);
    EvalConcat(b, c + d, 65536);
    EvalConcat(c, d, 65536);
    QuadValue(a);
    QuadValue(b);
    QuadValue(c);
    QuadValue(d);
    assert Pow(65536, 4) == 0x1_00000000_00000000;
  }
}
