/**
  Arithmetic modulo 2^255 - 19 on sixteen signed 16-bit-radix limbs
  (crypto/ed25519.c).  Limbs are carried lazily and may be negative.
 */
module Field25519 {
  import opened Machine
  import opened ModArith
  import opened Radix

  const P: int := 0x7fffffff_ffffffff_ffffffff_ffffffff_ffffffff_ffffffff_ffffffff_ffffffed

  const TWO_TO_255: int := 0x80000000_00000000_00000000_00000000_00000000_00000000_00000000_00000000

  /** The integer held by a limb sequence. */
  function Val(s: seq<int>): int {
    Eval(s, 65536)
  }

  /** The field element held by a limb sequence. */
  function F(s: seq<int>): int {
    Val(s) % P
  }

  ghost predicate Within(s: seq<int>, bound: int) {
    |s| == 16 && forall k :: 0 <= k < 16 ==> -bound <= s[k] <= bound
  }

  /** What a field multiplication leaves behind. */
  ghost predicate Reduced(s: seq<int>) {
    |s| == 16 && -38 <= s[0] <= 65573 && forall k :: 1 <= k < 16 ==> 0 <= s[k] < 65536
  }

  // ---------------------------------------------------------------- carrying

  /** The carry out of limb `i` when limbs are normalised from the bottom up. */
  function CarryOut(s: seq<int>, i: nat): int
    requires i < |s|
  {
    (s[i] + (if i == 0 then 0 else CarryOut(s, i - 1))) / 65536
  }

  function CarryIn(s: seq<int>, i: nat): int
    requires i <= |s|
  {
    if i == 0 then 0 else CarryOut(s, i - 1)
  }

  /** All limbs reduced into [0, 2^16), the last carry dropped. */
  function Low(s: seq<int>): (r: seq<int>)
    ensures |r| == |s|
  {
    seq(|s|, i requires 0 <= i < |s| => (s[i] + CarryIn(s, i)) % 65536)
  }

  /** One pass of `car25519`: the last carry re-enters limb 0 times 38. */
  function Carried(s: seq<int>): (r: seq<int>)
    requires |s| == 16
    ensures |r| == 16
  {
    Low(s)[0 := Low(s)[0] + 38 * CarryOut(s, 15)]
  }

  lemma {:induction false} CarryBound(s: seq<int>, i: nat, c: int)
    requires i < |s| && c >= 0 && forall k :: 0 <= k <= i ==> -65535 * c <= s[k] <= 65535 * c
    ensures -c <= CarryOut(s, i) <= c
  {
    if i > 0 {
      CarryBound(s, i - 1, c);
    }
  }

  /** Limb `k` of `r` is what carrying leaves of limb `k` of `s`. */
  ghost predicate CarriedAt(s: seq<int>, r: seq<int>, k: nat)
    requires k < |s| && k < |r|
  {
    r[k] == (s[k] + CarryIn(s, k)) % 65536
  }

  /** Carrying moves value between limbs; only the last carry `c` re-enters with another weight. */
  lemma {:induction false} CarriedPrefix(s: seq<int>, r: seq<int>, c: int, i: nat)
    requires 1 <= i <= |s| == |r| && r[0] == s[0] % 65536 + 38 * c
    requires forall k :: 1 <= k < |r| ==> CarriedAt(s, r, k)
    ensures Val(r[..i]) + CarryIn(s, i) * Pow(65536, i) == Val(s[..i]) + 38 * c
  {
    if i == 1 {
      assert r[..1] == [r[0]] && s[..1] == [s[0]];
      EvalOne(r[0], 65536);
      EvalOne(s[0], 65536);
      assert Pow(65536, 1) == 65536;
    } else {
      CarriedPrefix(s, r, c, i - 1);
      assert CarriedAt(s, r, i - 1);
      assert r[..i] == r[..i - 1] + [r[i - 1]] && s[..i] == s[..i - 1] + [s[i - 1]];
      EvalSnoc(r[..i - 1], r[i - 1], 65536);
      EvalSnoc(s[..i - 1], s[i - 1], 65536);
      PrefixStep(Val(r[..i - 1]), Val(s[..i - 1]), s[i - 1], CarryIn(s, i - 1), Pow(65536, i - 1), 38 * c);
    }
  }

  lemma PrefixStep(vr: int, vs: int, d: int, cin: int, w: int, k: int)
    requires vr + cin * w == vs + k
    ensures (vr + ((d + cin) % 65536) * w) + ((d + cin) / 65536) * (65536 * w) == (vs + d * w) + k
  {
    LimbSplit(d, cin, w);
  }

  lemma LimbSplit(d: int, c: int, w: int)
    ensures d * w + c * w == ((d + c) % 65536) * w + ((d + c) / 65536) * (65536 * w)
  {
    var q, r := (d + c) / 65536, (d + c) % 65536;
    assert d + c == 65536 * q + r;
    assert (d + c) * w == (65536 * q + r) * w;
    assert (65536 * q) * w == q * (65536 * w);
  }

  /** A carry pass changes the value by a multiple of 2P. */
  lemma CarriedValue(s: seq<int>)
    requires |s| == 16
    ensures Val(Carried(s)) == Val(s) - 2 * P * CarryOut(s, 15)
    ensures F(Carried(s)) == F(s)
  {
    CarriedLimbs(s);
    CarriedWhole(s, Carried(s), CarryOut(s, 15));
  }

  lemma CarriedLimbs(s: seq<int>)
    requires |s| == 16
    ensures Carried(s)[0] == s[0] % 65536 + 38 * CarryOut(s, 15)
    ensures forall k :: 1 <= k < 16 ==> CarriedAt(s, Carried(s), k)
  {}

  lemma CarriedWhole(s: seq<int>, r: seq<int>, c: int)
    requires |s| == |r| == 16 && r[0] == s[0] % 65536 + 38 * c && c == CarryOut(s, 15)
    requires forall k :: 1 <= k < |r| ==> CarriedAt(s, r, k)
    ensures Val(r) == Val(s) - 2 * P * c && F(r) == F(s)
  {
    CarriedPrefix(s, r, c, 16);
    assert r[..16] == r && s[..16] == s;
    PowLimbs();
    FoldCarry(Val(s), Val(r), c, Pow(65536, 16), P);
  }

  lemma PowLimbs()
    ensures Pow(65536, 16) == 2 * P + 38
  {
    assert Pow(65536, 4) == 0x1_0000_0000_0000_0000;
    PowAdd(65536, 4, 4);
    PowAdd(65536, 8, 8);
  }

  lemma FoldCarry(before: int, after: int, c: int, w: int, p: int)
    requires p > 0 && w == 2 * p + 38 && after + c * w == before + 38 * c
    ensures after == before - 2 * p * c && after % p == before % p
  {
    assert c * (2 * p + 38) == 2 * p * c + 38 * c;
    assert after == before + (-2 * c) * p;
    ModShift(before, -2 * c, p);
  }

  /** Above a limb whose carry is -1, 0 or 1, canonical limbs carry no more than that. */
  lemma {:induction false} CarrySettles(s: seq<int>, j: nat, i: nat)
    requires j <= i < |s| && -1 <= CarryOut(s, j) <= 1
    requires forall k :: j < k <= i ==> 0 <= s[k] < 65536
    ensures -1 <= CarryOut(s, i) <= 1
    ensures CarryOut(s, i) == 1 ==> forall k :: j < k <= i ==> Low(s)[k] == 0
    ensures CarryOut(s, i) == -1 ==> forall k :: j < k <= i ==> Low(s)[k] == 65535
  {
    if j < i {
      CarrySettles(s, j, i - 1);
    }
  }

  /** The two passes that end a multiplication leave a reduced result. */
  lemma TwoPasses(s: seq<int>)
    requires Within(s, 0x4000_0000_0000) && -0x100_0000_0000 <= s[15] <= 0x100_0000_0000
    ensures Within(Carried(s), 0x4000_0000_0000)
    ensures Reduced(Carried(Carried(s)))
  {
    CarryBound(s, 14, 0x8000_0000);
    assert -0x200_0000 <= CarryOut(s, 15) <= 0x200_0000;
    var t := Carried(s);
    assert -0x2_0000 * 65535 <= t[0] <= 0x2_0000 * 65535;
    assert CarryOut(t, 0) == t[0] / 65536;
    assert -1 <= CarryOut(t, 1) <= 1;
    CarrySettles(t, 1, 15);
  }

  /** Three passes make the limbs canonical, however far from canonical they started. */
  lemma ThreePasses(s: seq<int>)
    requires Within(s, 0x4000_0000_0000_0000)
    ensures Within(Carried(s), 0x4000_0000_0000_0000)
    ensures Within(Carried(Carried(s)), 0x4000_0000_0000_0000)
    ensures Digits(Carried(Carried(Carried(s))), 65536)
  {
    CarryBound(s, 15, 0x8000_0000_0000);
    var t := Carried(s);
    assert CarryOut(t, 0) == t[0] / 65536;
    assert -0x20_0000_0000 <= CarryOut(t, 0) <= 0x20_0000_0000;
    assert -0x20_0001 <= CarryOut(t, 1) <= 0x20_0001;
    assert -33 <= CarryOut(t, 2) <= 33;
    assert -1 <= CarryOut(t, 3) <= 1;
    CarrySettles(t, 3, 15);
    var u := Carried(t);
    assert -1 <= CarryOut(u, 0) <= 1;
    LastPass(u, CarryOut(t, 15));
  }

  lemma LastPass(u: seq<int>, c: int)
    requires |u| == 16 && -1 <= c <= 1 && 38 * c <= u[0] <= 65535 + 38 * c
    requires forall k :: 1 <= k < 16 ==> 0 <= u[k] < 65536
    requires c == 1 ==> u[4] == 0
    requires c == -1 ==> u[4] == 65535
    ensures Digits(Carried(u), 65536)
  {
    CarrySettles(u, 0, 3);
    assert CarryOut(u, 0) == u[0] / 65536;
    CarrySign(u, c, 3);
    assert CarryOut(u, 4) == (u[4] + CarryOut(u, 3)) / 65536;
    assert CarryOut(u, 4) == 0;
    CarryStops(u, 4, 15);
  }

  /** Carries started by a limb 0 that is too big (too small) are never negative (positive). */
  lemma {:induction false} CarrySign(u: seq<int>, c: int, i: nat)
    requires i < |u| && -1 <= c <= 1 && 38 * c <= u[0] <= 65535 + 38 * c
    requires forall k :: 1 <= k <= i ==> 0 <= u[k] < 65536
    ensures if c == 1 then 0 <= CarryOut(u, i) <= 1
            else if c == 0 then CarryOut(u, i) == 0
            else -1 <= CarryOut(u, i) <= 0
  {
    if i > 0 {
      CarrySign(u, c, i - 1);
    }
  }

  lemma {:induction false} CarryStops(u: seq<int>, j: nat, i: nat)
    requires j <= i < |u| && CarryOut(u, j) == 0
    requires forall k :: j < k <= i ==> 0 <= u[k] < 65536
    ensures CarryOut(u, i) == 0
  {
    if j < i {
      CarryStops(u, j, i - 1);
    }
  }

  lemma Renormalise(x: int)
    ensures (x + 65536) / 65536 - 1 == x / 65536
    ensures x + 65536 - ((x + 65536) / 65536) * 65536 == x % 65536
  {}

  /** The body of the loop in `car25519`. */
  method CarStep(o: array<i64>, i: nat)
    requires o.Length == 16 && i < 16
    requires -0x4001_0000_0000_0000 <= o[i] <= 0x4001_0000_0000_0000
    requires var next := if i < 15 then i + 1 else 0; -0x4001_0000_0000_0000 <= o[next] <= 0x4001_0000_0000_0000
    modifies o
    ensures o[i] == old(o[i]) % 65536
    ensures i < 15 ==> o[i + 1] == old(o[i + 1]) + old(o[i]) / 65536
    ensures i == 15 ==> o[0] == old(o[0]) + 38 * (old(o[i]) / 65536)
    ensures forall k :: 0 <= k < 16 && k != i && k != (if i < 15 then i + 1 else 0) ==> o[k] == old(o[k])
  {
    Renormalise(o[i]);
    o[i] := o[i] + 65536;
    var c: i64 := o[i] / 65536;
    var next := if i < 15 then i + 1 else 0;
    var d: i64 := c - 1 + (if i == 15 then 37 * (c - 1) else 0);
    o[next] := o[next] + d;
    var e: i64 := c * 65536;
    o[i] := o[i] - e;
  }

  lemma LowExists(s: seq<int>) returns (r: seq<int>)
    ensures |r| == |s| && forall k :: 0 <= k < |s| ==> CarriedAt(s, r, k)
  {
    r := Low(s);
  }

  lemma LowUnique(s: seq<int>, r: seq<int>)
    requires |r| == |s| && forall k :: 0 <= k < |s| ==> CarriedAt(s, r, k)
    ensures r == Low(s)
  {
    forall k | 0 <= k < |s|
      ensures r[k] == Low(s)[k]
    {
      assert CarriedAt(s, r, k);
    }
  }

  /** `car25519`. */
  method Car(o: array<i64>)
    requires o.Length == 16 && Within(o[..], 0x4000_0000_0000_0000)
    modifies o
    ensures o[..] == Carried(old(o[..]))
  {
    ghost var s := o[..];
    ghost var r := LowExists(s);
    ghost var carry := 0;
    for i := 0 to 16
      invariant carry == CarryIn(s, i) && -0x8000_0000_0000 <= carry <= 0x8000_0000_0000
      invariant forall k :: 0 < k < i ==> o[k] == r[k]
      invariant 0 < i ==> o[0] == r[0] + if i == 16 then 38 * carry else 0
      invariant i < 16 ==> o[i] == s[i] + carry
      invariant forall k :: i < k < 16 ==> o[k] == s[k]
    {
      CarryBound(s, i, 0x8000_0000_0000);
      assert CarriedAt(s, r, i) && CarriedAt(s, r, 0);
      carry := o[i] / 65536;
      CarStep(o, i);
    }
    assert o[..] == r[0 := r[0] + 38 * carry];
    LowUnique(s, r);
  }

  // ---------------------------------------------------------- multiplication

  lemma ProductBound(x: int, y: int, b: int)
    requires -b <= x <= b && -b <= y <= b
    ensures -(b * b) <= x * y <= b * b
  {
    var ax, ay := if x < 0 then -x else x, if y < 0 then -y else y;
    assert x * y == ax * ay || x * y == -(ax * ay);
    MulMono(ax, b, ay);
    MulMono(ay, b, b);
    MulMono(0, ax, ay);
  }

  /** Adding `x * y` at place `i + j` of the schoolbook product. */
  lemma ProductStep(t: seq<int>, i: nat, j: nat, x: int, y: int, bs: seq<int>)
    requires i + j < |t| && j < |bs| && bs[j] == y
    ensures Val(t[i + j := t[i + j] + x * y])
         == Val(t) + x * Pow(65536, i) * (Val(bs[..j + 1]) - Val(bs[..j]))
  {
    EvalUpdate(t, i + j, t[i + j] + x * y, 65536);
    PowAdd(65536, i, j);
    assert bs[..j + 1] == bs[..j] + [y];
    EvalSnoc(bs[..j], y, 65536);
    Regroup(x, y, Pow(65536, i), Pow(65536, j));
  }

  lemma Regroup(x: int, y: int, u: int, v: int)
    ensures (x * y) * (u * v) == x * u * (y * v)
  {}

  function FoldLimb(u: seq<int>, i: nat): int
    requires i < 16 && |u| == 31
  {
    if i < 15 then u[i] + 38 * u[i + 16] else u[i]
  }

  /** Folding the upper half of a 31-limb product back with weight 38. */
  lemma FoldHigh(u: seq<int>, w: seq<int>)
    requires |u| == 31 && |w| == 16 && forall i :: 0 <= i < 16 ==> w[i] == FoldLimb(u, i)
    ensures F(w) == F(u)
  {
    var lo, hi := u[..16], u[16..];
    assert u == lo + hi;
    EvalConcat(lo, hi, 65536);
    EvalSnoc(hi, 0, 65536);
    EvalLinear(lo, hi + [0], 38, w, 65536);
    PowLimbs();
    FoldValue(Val(lo), Val(hi), P);
  }

  lemma FoldValue(lo: int, hi: int, p: int)
    requires p > 0
    ensures (lo + 38 * hi) % p == (lo + (2 * p + 38) * hi) % p
  {
    assert lo + (2 * p + 38) * hi == (lo + 38 * hi) + (2 * hi) * p;
    ModShift(lo + 38 * hi, 2 * hi, p);
  }

  /** The first loop nest of `M`: the 31-limb product. */
  method Product(a: array<i64>, b: array<i64>) returns (t: array<i64>)
    requires a.Length == b.Length == 16 && Within(a[..], 0x4_0000) && Within(b[..], 0x4_0000)
    ensures fresh(t) && t.Length == 31
    ensures Val(t[..]) == Val(a[..]) * Val(b[..])
    ensures forall k :: 0 <= k < 31 ==> -0x100_0000_0000 <= t[k] <= 0x100_0000_0000
  {
    t := new i64[31](_ => 0);
    ghost var s, r := a[..], b[..];
    EvalZeros(t[..], 65536);
    for i := 0 to 16
      invariant fresh(t) && a[..] == s && b[..] == r
      invariant Val(t[..]) == Val(s[..i]) * Val(r)
      invariant forall k :: 0 <= k < 31 ==> -0x10_0000_0000 * i <= t[k] <= 0x10_0000_0000 * i
    {
      ProductRow(t, a, b, i);
      RowDone(s, i, Val(r));
    }
    assert s[..16] == s;
  }

  /** The inner loop: add `a[i]` times `b`, shifted by `i` limbs. */
  method ProductRow(t: array<i64>, a: array<i64>, b: array<i64>, i: nat)
    requires a.Length == b.Length == 16 && t.Length == 31 && t != a && t != b && i < 16
    requires Within(a[..], 0x4_0000) && Within(b[..], 0x4_0000)
    requires forall k :: 0 <= k < 31 ==> -0x10_0000_0000 * i <= t[k] <= 0x10_0000_0000 * i
    modifies t
    ensures Val(t[..]) == old(Val(t[..])) + a[i] * Pow(65536, i) * Val(b[..])
    ensures forall k :: 0 <= k < 31 ==> -0x10_0000_0000 * (i + 1) <= t[k] <= 0x10_0000_0000 * (i + 1)
  {
    ghost var v, x, r := Val(t[..]), a[i], b[..];
    for j := 0 to 16
      invariant a[i] == x && b[..] == r
      invariant Val(t[..]) == v + x * Pow(65536, i) * Val(r[..j])
      invariant forall k :: 0 <= k < 31 ==> -0x10_0000_0000 * (i + 1) <= t[k] <= 0x10_0000_0000 * (i + 1)
      invariant forall k :: i + j <= k < 31 ==> -0x10_0000_0000 * i <= t[k] <= 0x10_0000_0000 * i
    {
      ProductBound(a[i], b[j], 0x4_0000);
      ProductStep(t[..], i, j, a[i], b[j], r);
      ghost var before := t[..];
      var y: i64 := a[i] * b[j];
      t[i + j] := t[i + j] + y;
      assert t[..] == before[i + j := before[i + j] + a[i] * b[j]];
      Distribute(x * Pow(65536, i), Val(r[..j]), Val(r[..j + 1]));
    }
    assert r[..16] == r;
  }

  lemma Distribute(c: int, x: int, y: int)
    ensures c * x + c * (y - x) == c * y
  {}

  lemma RowDone(s: seq<int>, i: nat, r: int)
    requires i < |s|
    ensures Val(s[..i]) * r + s[i] * Pow(65536, i) * r == Val(s[..i + 1]) * r
  {
    assert s[..i + 1] == s[..i] + [s[i]];
    EvalSnoc(s[..i], s[i], 65536);
    assert (Val(s[..i]) + s[i] * Pow(65536, i)) * r == Val(s[..i]) * r + s[i] * Pow(65536, i) * r;
  }

  /** The middle of `M`: fold the product back and copy it out. */
  method FoldInto(o: array<i64>, t: array<i64>)
    requires o.Length == 16 && t.Length == 31 && o != t
    requires forall k :: 0 <= k < 31 ==> -0x100_0000_0000 <= t[k] <= 0x100_0000_0000
    modifies o, t
    ensures F(o[..]) == F(old(t[..]))
    ensures Within(o[..], 0x4000_0000_0000) && -0x100_0000_0000 <= o[15] <= 0x100_0000_0000
  {
    ghost var u := t[..];
    for i := 0 to 15
      invariant forall k :: i <= k < 31 ==> t[k] == u[k]
      invariant forall k :: 0 <= k < i ==> t[k] == FoldLimb(u, k)
    {
      t[i] := t[i] + 38 * t[i + 16];
    }
    for i := 0 to 16
      invariant forall k :: 0 <= k < 16 ==> t[k] == FoldLimb(u, k)
      invariant forall k :: 0 <= k < i ==> o[k] == FoldLimb(u, k)
    {
      o[i] := t[i];
    }
    FoldHigh(u, o[..]);
  }

  /** `M`: field multiplication; `o` may be the same array as `a` or `b`. */
  method M(o: array<i64>, a: array<i64>, b: array<i64>)
    requires o.Length == a.Length == b.Length == 16
    requires Within(a[..], 0x4_0000) && Within(b[..], 0x4_0000)
    modifies o
    ensures F(o[..]) == F(old(a[..])) * F(old(b[..])) % P
    ensures Reduced(o[..]) && Within(o[..], 65573)
  {
    var t := Product(a, b);
    ModMul(Val(a[..]), Val(b[..]), P);
    FoldInto(o, t);
    ghost var w := o[..];
    TwoPasses(w);
    CarriedValue(w);
    CarriedValue(Carried(w));
    Car(o);
    Car(o);
  }
}
