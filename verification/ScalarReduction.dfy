/** Reduction of a 64-byte number modulo the group order (crypto/ed25519.c, `modL` and `reduce`). */
module ScalarReduction {
  import opened Machine
  import opened ModArith
  import opened Radix

  /** The order of the base point. */
  const L: int := 0x10000000_00000000_00000000_00000000_14def9de_a2f79cd6_5812631a_5cf5d3ed

  /** L - 2^252. */
  const L_TAIL: int := 0x14def9de_a2f79cd6_5812631a_5cf5d3ed

  const L_BYTES: seq<int> := [
    0xed, 0xd3, 0xf5, 0x5c, 0x1a, 0x63, 0x12, 0x58, 0xd6, 0x9c, 0xf7, 0xa2, 0xde, 0xf9, 0xde, 0x14,
    0, 0, 0, 0, 0, 0, 0, 0, 0, 0, 0, 0, 0, 0, 0, 0x10]

  lemma LTailBytes()
    ensures Eval(L_BYTES[..16], 256) == L_TAIL
  {
    var s := L_BYTES[..16];
    var a, b, c, d := [0xed, 0xd3, 0xf5, 0x5c], [0x1a, 0x63, 0x12, 0x58], [0xd6, 0x9c, 0xf7, 0xa2],
        [0xde, 0xf9, 0xde, 0x14];
    assert s == a + (b + (c + d));
    EvalConcat(a, b + (c + d), 256);
    EvalConcat(b, c + d, 256);
    EvalConcat(c, d, 256);
    FourBytes(a);
    FourBytes(b);
    FourBytes(c);
    FourBytes(d);
    assert Pow(256, 4) == 0x1_0000_0000;
  }

  /** Zero digits on top do not change the value. */
  lemma {:induction false} ZeroTop(s: seq<int>, m: nat, n: nat)
    requires m <= n <= |s| && forall k :: m <= k < n ==> s[k] == 0
    ensures Eval(s[..n], 256) == Eval(s[..m], 256)
  {
    if m < n {
      ZeroTop(s, m, n - 1);
      EvalNext(s, n - 1, 256);
    }
  }

  lemma LValue()
    ensures |L_BYTES| == 32 && Order(L_BYTES)
    ensures Eval(L_BYTES[..20], 256) == L_TAIL
    ensures Eval(L_BYTES, 256) == L
    ensures 16 * L == Pow(256, 32) + 16 * L_TAIL
    ensures L == 16 * Pow(256, 31) + L_TAIL && L_TAIL == 27742317777372353535851937790883648493
  {
    LTailBytes();
    LShape();
    PaddedTail(L_BYTES);
    BytePower();
  }

  lemma LShape()
    ensures |L_BYTES| == 32 && Order(L_BYTES) && L_BYTES[31] == 16 && forall k :: 16 <= k < 31 ==> L_BYTES[k] == 0
  {}

  lemma PaddedTail(l: seq<int>)
    requires |l| == 32 && forall k :: 16 <= k < 31 ==> l[k] == 0
    ensures Eval(l[..20], 256) == Eval(l[..16], 256)
    ensures Eval(l, 256) == Eval(l[..16], 256) + l[31] * Pow(256, 31)
  {
    ZeroTop(l, 16, 20);
    ZeroTop(l, 16, 31);
    EvalNext(l, 31, 256);
    assert l[..32] == l;
  }

  lemma BytePower()
    ensures Pow(256, 31) == 0x100_0000_00000000_00000000_00000000_00000000_00000000_00000000_00000000
    ensures Pow(256, 32) == 256 * Pow(256, 31)
  {
    assert Pow(256, 4) == 0x1_0000_0000;
    PowAdd(256, 4, 4);
    PowAdd(256, 8, 8);
    PowAdd(256, 16, 8);
    PowAdd(256, 24, 4);
    PowAdd(256, 28, 3);
    assert Pow(256, 3) == 0x100_0000;
  }

  // --------------------------------------------------- eliminating one high digit

  /** All that a row needs to know about the bytes of L. */
  ghost predicate Order(l: seq<int>) {
    |l| == 32 && Digits(l, 256) && l[16] == l[17] == l[18] == l[19] == 0
  }

  /** How large the running carry of a row can be after `k` digits. */
  function CarryLimit(k: nat): int {
    if k <= 16 then 4100 else if k == 17 then 17 else 1
  }

  /** One digit of a row: `v` is the digit before its carry is split off. */
  lemma RowDigit(l: seq<int>, k: nat, top: int, d: int, carry: int)
    requires Order(l) && k < 20 && -256 <= top <= 256 && -255 <= d <= 255 && -CarryLimit(k) <= carry <= CarryLimit(k)
    ensures var v := d + carry - 16 * top * l[k];
            && -2_000_000 <= v <= 2_000_000
            && -CarryLimit(k + 1) <= (v + 128) / 256 <= CarryLimit(k + 1)
            && -128 <= v - ((v + 128) / 256) * 256 <= 127
  {
    DigitProduct(top, l[k]);
  }

  lemma DigitProduct(top: int, l: int)
    requires -256 <= top <= 256 && 0 <= l <= 255
    ensures -1044480 <= 16 * top * l <= 1044480
  {
    MulMono(-256, top, l);
    MulMono(top, 256, l);
  }

  /** The value of the digits after one inner step. */
  lemma RowValue(l: seq<int>, x: seq<int>, j: nat, base: nat, k: nat, m: int, carry: int, carry': int, start: int)
    requires j < |x| && j == base + k && k < |l|
    requires Eval(x, 256) + carry * Pow(256, j) == start - m * Pow(256, base) * Eval(l[..k], 256)
    ensures Eval(x[j := x[j] + carry - m * l[k] - carry' * 256], 256) + carry' * Pow(256, j + 1)
         == start - m * Pow(256, base) * Eval(l[..k + 1], 256)
  {
    var v := x[j] + carry - m * l[k] - carry' * 256;
    EvalUpdate(x, j, v, 256);
    PowAdd(256, base, k);
    assert Pow(256, j + 1) == 256 * Pow(256, j);
    EvalNext(l, k, 256);
    RowAlgebra(Eval(x, 256), Eval(x[j := v], 256), start, Pow(256, base), Pow(256, k), Eval(l[..k], 256), l[k], m,
               carry, carry');
  }

  lemma RowAlgebra(ex: int, ey: int, start: int, u: int, w: int, e: int, l: int, m: int, carry: int, carry': int)
    requires ex + carry * (u * w) == start - m * u * e
    requires ey == ex + (carry - m * l - carry' * 256) * (u * w)
    ensures ey + carry' * (256 * (u * w)) == start - m * u * (e + l * w)
  {
    var uw := u * w;
    assert (carry - m * l - carry' * 256) * uw == carry * uw - (m * l) * uw - (carry' * 256) * uw;
    assert (carry' * 256) * uw == carry' * (256 * uw);
    assert m * u * (e + l * w) == m * u * e + m * u * (l * w);
    assert m * u * (l * w) == (m * l) * uw;
  }

  /** The inner loop of a row: twenty digits, each balanced into [-128, 127]. */
  method RowLoop(x: array<i64>, i: nat, l: seq<int>) returns (carry: i64)
    requires x.Length == 64 && 32 <= i < 64 && -256 <= x[i] <= 256 && Order(l)
    requires forall k :: i - 32 <= k < i - 12 ==> -255 <= x[k] <= 255
    modifies x
    ensures -1 <= carry <= 1
    ensures forall k :: i - 32 <= k < i - 12 ==> -128 <= x[k] <= 127
    ensures forall k :: 0 <= k < 64 && !(i - 32 <= k < i - 12) ==> x[k] == old(x[k])
    ensures Eval(x[..], 256) + carry * Pow(256, i - 12)
         == old(Eval(x[..], 256)) - 16 * x[i] * Pow(256, i - 32) * Eval(l[..20], 256)
  {
    carry := 0;
    ghost var start, top, s := Eval(x[..], 256), x[i], x[..];
    assert l[..0] == [];
    for j := i - 32 to i - 12
      invariant -CarryLimit(j - (i - 32)) <= carry <= CarryLimit(j - (i - 32))
      invariant forall k :: i - 32 <= k < j ==> -128 <= x[k] <= 127
      invariant forall k :: 0 <= k < 64 && !(i - 32 <= k < j) ==> x[k] == s[k]
      invariant Eval(x[..], 256) + carry * Pow(256, j)
                == start - 16 * top * Pow(256, i - 32) * Eval(l[..j - (i - 32)], 256)
    {
      ghost var before, c := x[..], carry;
      var k := j - (i - 32);
      RowDigit(l, k, top, x[j], carry);
      carry := RowStep(x, j, x[i], carry, l[k]);
      RowValue(l, before, j, i - 32, k, 16 * top, c, carry, start);
    }
  }

  /** The body of the inner loop. */
  method RowStep(x: array<i64>, j: nat, top: i64, carry: i64, l: int) returns (carry': i64)
    requires x.Length == 64 && j < 64 && 0 <= l <= 255 && -256 <= top <= 256
    requires -2_000_000 <= x[j] + carry - 16 * top * l <= 2_000_000
    modifies x
    ensures carry' == (old(x[j]) + carry - 16 * top * l + 128) / 256
    ensures x[..] == old(x[..])[j := old(x[j]) + carry - 16 * top * l - carry' * 256]
  {
    DigitProduct(top, l);
    x[j] := x[j] + carry - 16 * top * l;
    carry' := (x[j] + 128) / 256;
    x[j] := x[j] - carry' * 256;
  }

  /** One iteration of the first loop of `modL`: digit `i` is cleared by subtracting a multiple of L. */
  method Row(x: array<i64>, i: nat)
    requires x.Length == 64 && 32 <= i < 64 && -256 <= x[i] <= 256
    requires forall k :: i - 32 <= k <= i - 12 ==> -255 <= x[k] <= 255
    modifies x
    ensures x[i] == 0
    ensures forall k :: i - 32 <= k <= i - 13 ==> -128 <= x[k] <= 127
    ensures old(x[i - 12]) as int - 1 <= x[i - 12] <= old(x[i - 12]) as int + 1
    ensures forall k :: 0 <= k < 64 && !(i - 32 <= k <= i - 12) && k != i ==> x[k] == old(x[k])
    ensures Cong(Eval(x[..], 256), old(Eval(x[..], 256)), L)
  {
    ghost var start, top := Eval(x[..], 256), x[i];
    LValue();
    var carry := RowLoop(x, i, L_BYTES);
    ghost var before := x[..];
    x[i - 12] := x[i - 12] + carry;
    x[i] := 0;
    assert x[..] == before[i - 12 := before[i - 12] + carry][i := 0];
    RowEnd(before, i, top, carry, start);
  }

  lemma RowEnd(x: seq<int>, i: nat, top: int, carry: int, start: int)
    requires |x| == 64 && 32 <= i < 64 && x[i] == top
    requires Eval(x, 256) + carry * Pow(256, i - 12) == start - 16 * top * Pow(256, i - 32) * Eval(L_BYTES[..20], 256)
    ensures Eval(x[i - 12 := x[i - 12] + carry][i := 0], 256) == start - 16 * top * Pow(256, i - 32) * L
    ensures Cong(Eval(x[i - 12 := x[i - 12] + carry][i := 0], 256), start, L)
  {
    var y := x[i - 12 := x[i - 12] + carry];
    EvalUpdate(x, i - 12, x[i - 12] + carry, 256);
    EvalUpdate(y, i, 0, 256);
    LValue();
    PowAdd(256, i - 32, 32);
    EndAlgebra(Eval(x, 256), Eval(y, 256), Eval(y[i := 0], 256), carry, Pow(256, i - 12), start, top,
               Pow(256, i - 32), Pow(256, 32), L_TAIL, L);
  }

  lemma EndAlgebra(ex: int, ey: int, ez: int, carry: int, v: int, start: int, top: int, u: int, w: int, tail: int,
                   l: int)
    requires 16 * l == w + 16 * tail && l > 0
    requires ey == ex + carry * v && ez == ey + (0 - top) * (u * w)
    requires ex + carry * v == start - 16 * top * u * tail
    ensures ez == start - 16 * top * u * l && Cong(ez, start, l)
  {
    EndProducts(top, u, w, tail, l);
    ModShift(start, -16 * top * u, l);
  }

  lemma EndProducts(top: int, u: int, w: int, tail: int, l: int)
    requires 16 * l == w + 16 * tail
    ensures (0 - top) * (u * w) == 16 * top * u * tail - 16 * top * u * l
    ensures (-16 * top * u) * l == -(16 * top * u * l)
  {
    var tu := top * u;
    assert (0 - top) * (u * w) == -(tu * w);
    assert tu * (16 * l) == tu * (w + 16 * tail);
    assert tu * (w + 16 * tail) == tu * w + tu * (16 * tail);
    assert tu * (16 * l) == 16 * top * u * l && tu * (16 * tail) == 16 * top * u * tail;
  }

  // ------------------------------------------------------------- the first loop

  /** The digits once rows `i` and above are done. */
  ghost predicate Rows(x: seq<int>, i: int) {
    && |x| == 64 && 32 <= i <= 64
    && (forall k :: i <= k < 64 ==> x[k] == 0)
    && (forall k :: 0 <= k < i - 32 ==> 0 <= x[k] <= 255)
    && (i == 64 ==> forall k :: 0 <= k < 64 ==> 0 <= x[k] <= 255)
    && (i < 64 ==> forall k :: i - 32 <= k <= i - 13 ==> -128 <= x[k] <= 127)
    && (forall k :: i - 12 <= k < i ==> -256 <= x[k] <= 256)
    && (i < 64 ==> forall k :: i - 12 <= k < i && k <= 50 ==> -129 <= x[k] <= 128)
  }

  /** The first loop of `modL`: a number below 2^256 in size, congruent modulo L. */
  method ClearHigh(x: array<i64>)
    requires x.Length == 64 && Digits(x[..], 256)
    modifies x
    ensures Rows(x[..], 32)
    ensures Cong(Eval(x[..], 256), old(Eval(x[..], 256)), L)
  {
    ghost var start := Eval(x[..], 256);
    for i := 64 downto 32
      invariant Rows(x[..], i)
      invariant Cong(Eval(x[..], 256), start, L)
    {
      Row(x, i);
    }
  }

  // ---------------------------------------------------------- the second loop

  lemma QuotientDigit(d: int, q: int, carry: int, l: int)
    requires -129 <= d <= 129 && -9 <= q <= 8 && -10 <= carry <= 10 && 0 <= l <= 255
    ensures -3000 <= d + carry - q * l <= 3000
    ensures -10 <= (d + carry - q * l) / 256 <= 10
    ensures -2550 <= q * l <= 2550
  {
    MulMono(-9, q, l);
    MulMono(q, 8, l);
  }

  /** The second loop of `modL`: subtract floor(x[31] / 16) times L and make the digits proper. */
  method Quotient(x: array<i64>, l: seq<int>) returns (carry: i64)
    requires x.Length == 64 && Order(l) && forall k :: 0 <= k < 32 ==> -129 <= x[k] <= 129
    modifies x
    ensures forall k :: 0 <= k < 32 ==> 0 <= x[k] < 256
    ensures forall k :: 32 <= k < 64 ==> x[k] == old(x[k])
    ensures -10 <= carry <= 10
    ensures Eval(x[..], 256) + carry * Pow(256, 32) == old(Eval(x[..], 256)) - (old(x[31]) / 16) * Eval(l, 256)
  {
    carry := 0;
    ghost var start, s, q := Eval(x[..], 256), x[..], x[31] / 16;
    assert l[..0] == [];
    for j := 0 to 32
      invariant -10 <= carry <= 10
      invariant forall k :: 0 <= k < j ==> 0 <= x[k] < 256
      invariant forall k :: j <= k < 64 ==> x[k] == s[k]
      invariant Eval(x[..], 256) + carry * Pow(256, j) == start - q * Pow(256, 0) * Eval(l[..j], 256)
    {
      ghost var before, c := x[..], carry;
      QuotientDigit(x[j], x[31] / 16, carry, l[j]);
      x[j] := x[j] + (carry - (x[31] / 16) * l[j]);
      carry := x[j] / 256;
      x[j] := x[j] % 256;
      assert x[..] == before[j := before[j] + c - q * l[j] - carry * 256];
      RowValue(l, before, j, 0, j, q, c, carry, start);
    }
    assert l[..32] == l;
  }

  /** The third loop: take back `carry` times L, digit by digit. */
  method Restore(x: array<i64>, carry: i64, l: seq<int>)
    requires x.Length == 64 && Order(l) && -10 <= carry <= 10
    requires forall k :: 0 <= k < 32 ==> 0 <= x[k] < 256
    requires forall k :: 32 <= k < 64 ==> x[k] == 0
    modifies x
    ensures forall k :: 0 <= k < 32 ==> -3000 <= x[k] <= 3000
    ensures forall k :: 32 <= k < 64 ==> x[k] == 0
    ensures Eval(x[..], 256) == old(Eval(x[..], 256)) - carry * Eval(l, 256)
  {
    ghost var s, m := x[..], 0 - carry as int;
    for j := 0 to 32
      invariant forall k :: 0 <= k < j ==> x[k] == s[k] + m * l[k] && -3000 <= x[k] <= 3000
      invariant forall k :: j <= k < 64 ==> x[k] == s[k]
    {
      RestoreDigit(carry, l[j]);
      x[j] := x[j] - carry * l[j];
    }
    RestoreValue(s, x[..], m, l);
  }

  lemma RestoreDigit(carry: int, l: int)
    requires -10 <= carry <= 10 && 0 <= l <= 255
    ensures -2550 <= carry * l <= 2550 && (0 - carry) * l == -(carry * l)
  {
    MulMono(-10, carry, l);
    MulMono(carry, 10, l);
  }

  lemma RestoreValue(s: seq<int>, y: seq<int>, m: int, l: seq<int>)
    requires |s| == |y| == 64 && |l| == 32
    requires forall k :: 0 <= k < 32 ==> y[k] == s[k] + m * l[k]
    requires forall k :: 32 <= k < 64 ==> y[k] == s[k]
    ensures Eval(y, 256) == Eval(s, 256) + m * Eval(l, 256)
  {
    var hi := s[32..];
    assert s == s[..32] + hi && y == y[..32] + hi;
    EvalConcat(s[..32], hi, 256);
    EvalConcat(y[..32], hi, 256);
    EvalLinear(s[..32], l, m, y[..32], 256);
  }

  /** The last loop: propagate carries and emit bytes. */
  method Emit(r: array<byte>, x: array<i64>)
    requires r.Length == 64 && x.Length == 64
    requires forall k :: 0 <= k < 32 ==> -3000 <= x[k] <= 3000
    requires forall k :: 32 <= k < 64 ==> x[k] == 0
    modifies r, x
    ensures forall k :: 32 <= k < 64 ==> r[k] == old(r[k])
    ensures Pow(256, 32) > 0 && Eval(r[..32], 256) == old(Eval(x[..], 256)) % Pow(256, 32)
  {
    ghost var s := x[..];
    ghost var h: seq<int> := x[..];
    for i := 0 to 32
      invariant |h| == 64 && Eval(h, 256) == Eval(s, 256)
      invariant forall k :: 0 <= k < i ==> h[k] == r[k]
      invariant forall k :: i <= k < 64 ==> h[k] == x[k]
      invariant -4000 <= x[i] <= 4000
      invariant forall k :: i < k < 64 ==> x[k] == s[k]
      invariant forall k :: 32 <= k < 64 ==> r[k] == old(r[k])
    {
      EmitValue(h, i);
      h := h[i := h[i] % 256][i + 1 := h[i + 1] + h[i] / 256];
      x[i + 1] := x[i + 1] + x[i] / 256;
      r[i] := x[i] % 256;
    }
    EmitDone(h, r[..32]);
  }

  lemma EmitValue(h: seq<int>, i: nat)
    requires i + 1 < |h|
    ensures Eval(h[i := h[i] % 256][i + 1 := h[i + 1] + h[i] / 256], 256) == Eval(h, 256)
  {
    EvalUpdate(h, i, h[i] % 256, 256);
    EvalUpdate(h[i := h[i] % 256], i + 1, h[i + 1] + h[i] / 256, 256);
    CarryAlgebra(h[i], Pow(256, i));
  }

  lemma CarryAlgebra(d: int, w: int)
    ensures (d % 256 - d) * w + (d / 256) * (256 * w) == 0
  {
    assert d % 256 - d == -256 * (d / 256);
  }

  lemma EmitDone(h: seq<int>, r: seq<int>)
    requires |h| == 64 && |r| == 32 && Digits(r, 256)
    requires forall k :: 0 <= k < 32 ==> h[k] == r[k]
    requires forall k :: 33 <= k < 64 ==> h[k] == 0
    ensures Pow(256, 32) > 0
    ensures Eval(r, 256) == Eval(h, 256) % Pow(256, 32)
  {
    ZeroTop(h, 33, 64);
    EvalNext(h, 32, 256);
    assert h[..64] == h && h[..32] == r;
    EvalBound(r, 256);
    PowPositive(256, 32);
    DivUnique(Eval(h, 256), h[32], Eval(r, 256), Pow(256, 32));
  }

  // -------------------------------------------------------------- putting it together

  /** Subtracting floor(x[31] / 16) times L leaves a number strictly between -L and L. */
  lemma QuotientRange(x: seq<int>)
    requires Rows(x, 32)
    ensures -Pow(256, 31) < Eval(x, 256) - (x[31] / 16) * L < 16 * Pow(256, 31)
  {
    ZeroTop(x, 32, 64);
    EvalNext(x, 31, 256);
    assert x[..64] == x;
    EvalRange(x[..31], -129, 129, 256);
    LValue();
    BytePower();
    QuotientBounds(Eval(x[..31], 256), x[31], Pow(256, 31), L_TAIL, L);
  }

  lemma QuotientBounds(low: int, top: int, w: int, tail: int, l: int)
    requires -129 * (w - 1) <= (256 - 1) * low <= 129 * (w - 1) && -129 <= top <= 129
    requires w > 0 && 0 <= 1000 * tail < w && l == 16 * w + tail
    ensures -w < low + top * w - (top / 16) * l < 16 * w
  {
    QuotientAlgebra(low, top / 16, top % 16, w, tail);
  }

  lemma QuotientAlgebra(low: int, q: int, r: int, w: int, tail: int)
    requires -129 * (w - 1) <= 255 * low <= 129 * (w - 1) && -9 <= q <= 8 && 0 <= r <= 15
    requires w > 0 && 0 <= 1000 * tail < w
    ensures -w < low + (16 * q + r) * w - q * (16 * w + tail) < 16 * w
  {
    assert (16 * q + r) * w == 16 * (q * w) + r * w;
    assert q * (16 * w + tail) == 16 * (q * w) + q * tail;
    MulMono(-9, q, tail);
    MulMono(q, 8, tail);
    MulMono(0, r, w);
    MulMono(r, 15, w);
  }

  /** The last carry is 0 or -1, and putting L back exactly then gives the residue. */
  lemma FinalResidue(v: int, q: int, digits: int, carry: int, w: int, l: int)
    requires 0 <= digits < w && digits + carry * w == v - q * l
    requires 0 < l < w && -l < v - q * l < l
    ensures carry == 0 || carry == -1
    ensures (digits - carry * l) % w == v % l
  {
    var t := v - q * l;
    CarryIsSmall(t, digits, carry, w);
    if carry == 0 {
      DivUnique(v, q, t, l);
      DivUnique(t, 0, t, w);
    } else {
      assert v == (q - 1) * l + (t + l);
      DivUnique(v, q - 1, t + l, l);
      DivUnique(digits + l, 1, t + l, w);
    }
  }

  lemma CarryIsSmall(t: int, digits: int, carry: int, w: int)
    requires 0 <= digits < w && digits + carry * w == t && -w < t < w
    ensures carry == if t >= 0 then 0 else -1
  {
    if carry >= 1 {
      MulMono(1, carry, w);
    } else if carry <= -2 {
      MulMono(carry, -2, w);
    }
  }

  /** `modL`: the 32 low bytes of `r` become the residue of `x` modulo L. */
  method ModL(r: array<byte>, x: array<i64>)
    requires r.Length == 64 && x.Length == 64 && Digits(x[..], 256)
    modifies r, x
    ensures forall k :: 32 <= k < 64 ==> r[k] == old(r[k])
    ensures Eval(r[..32], 256) == old(Eval(x[..], 256)) % L
  {
    ClearHigh(x);
    ghost var v := Eval(x[..], 256);
    QuotientRange(x[..]);
    LValue();
    BytePower();
    ghost var q := x[31] / 16;
    var carry := Quotient(x, L_BYTES);
    ghost var digits := Eval(x[..], 256);
    ProperDigits(x[..]);
    FinalResidue(v, q, digits, carry, Pow(256, 32), L);
    Restore(x, carry, L_BYTES);
    Emit(r, x);
  }

  lemma ProperDigits(x: seq<int>)
    requires |x| == 64 && forall k :: 0 <= k < 32 ==> 0 <= x[k] < 256
    requires forall k :: 32 <= k < 64 ==> x[k] == 0
    ensures 0 <= Eval(x, 256) < Pow(256, 32)
  {
    ZeroTop(x, 32, 64);
    assert x[..64] == x;
    EvalBound(x[..32], 256);
  }

  /** `reduce`: the first 32 bytes become the residue modulo L, the rest zero. */
  method Reduce(r: array<byte>)
    requires r.Length == 64
    modifies r
    ensures Eval(r[..32], 256) == old(Eval(r[..], 256)) % L
    ensures forall k :: 32 <= k < 64 ==> r[k] == 0
  {
    var x := new i64[64];
    for i := 0 to 64
      invariant r[..] == old(r[..]) && forall k :: 0 <= k < i ==> x[k] == r[k]
    {
      x[i] := r[i];
    }
    ghost var s := r[..];
    assert x[..] == s;
    for i := 0 to 64
      invariant x[..] == s && forall k :: 0 <= k < i ==> r[k] == 0
    {
      r[i] := 0;
    }
    ModL(r, x);
  }
}
