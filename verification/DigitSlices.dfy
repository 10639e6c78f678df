/** Parts of little-endian numbers, and when an addition changes them. */
module DigitSlices {
  import opened Machine
  import opened ModArith
  import opened Radix
  import opened LittleEndian

  /** The low bytes of a string, as a number. */
  lemma PrefixValue(s: seq<byte>, t: nat)
    requires t <= |s|
    ensures Value(s[..t]) == Value(s) % Range(t)
  {
    assert s == s[..t] + s[t..];
    EvalConcat(s[..t], s[t..], 256);
    ValueBound(s[..t]);
    LowAndHigh(Value(s), Value(s[..t]), Value(s[t..]), Range(t));
  }

  lemma LowAndHigh(v: nat, lo: nat, hi: nat, w: nat)
    requires lo < w && v == lo + w * hi
    ensures v % w == lo && v / w == hi
  {
    DivUnique(v, hi, lo, w);
  }

  /** The bytes `o` to `t` of a string, as a number. */
  lemma SliceValue(s: seq<byte>, o: nat, t: nat)
    requires o <= t <= |s|
    ensures Value(s[o..t]) == Value(s) % Range(t) / Range(o)
  {
    PrefixValue(s, t);
    assert s[..t] == s[..o] + s[o..t];
    EvalConcat(s[..o], s[o..t], 256);
    ValueBound(s[..o]);
    LowAndHigh(Value(s[..t]), Value(s[..o]), Value(s[o..t]), Range(o));
  }

  lemma RangeSplit(o: nat, t: nat)
    requires o <= t
    ensures Range(t) == Range(o) * Range(t - o)
  {
    PowAdd(256, o, t - o);
  }

  /** Digits `a` to `w` of a sum. */
  lemma DigitsKept(v: nat, s: nat, a: nat, b: nat, w: nat)
    requires a > 0 && b > 0 && w == a * b
    ensures w > 0
    ensures (v + s) % w / a == v % w / a <==> v % a + s % w < a || v % a + s % w >= w
  {
    MulMono(1, b, a);
    var x, y := v % w, s % w;
    var q, r := x / a, x % a;
    LowRemainder(v, a, b, w);
    ModAdd(v, s, w);
    assert x == q * a + r;
    QuotientRange(x, q, r, a, b);
    if r + y < a {
      SumBelow(q, r + y, a, b, w, x + y);
    } else if r + y >= w {
      SumBelow(q, r + y - w, a, b, w, x + y - w);
      ModShift(x + y - w, 1, w);
    } else {
      OtherDigits(q, r, y, a, b, w, x);
    }
  }

  lemma LowRemainder(v: nat, a: nat, b: nat, w: nat)
    requires a > 0 && w == a * b > 0
    ensures v % w % a == v % a
  {
    var q, r := v / w, v % w;
    assert v == q * w + r;
    assert q * (a * b) == q * b * a;
    ModShift(r, q * b, a);
  }

  lemma QuotientRange(x: nat, q: int, r: nat, a: nat, b: nat)
    requires a > 0 && r < a && x == q * a + r < a * b
    ensures 0 <= q < b
  {
    if q < 0 {
      MulMono(q, -1, a);
    } else if q >= b {
      MulMono(b, q, a);
    }
  }

  lemma SumBelow(q: nat, r: nat, a: nat, b: nat, w: nat, z: int)
    requires q < b && r < a && w == a * b && z == q * a + r
    ensures 0 <= z < w && z % w == z && z / a == q
  {
    MulMono(0, q, a);
    MulMono(q + 1, b, a);
    assert (q + 1) * a == q * a + a;
    DivUnique(z, 0, z, w);
    DivUnique(z, q, r, a);
  }

  lemma OtherDigits(q: nat, r: nat, y: nat, a: nat, b: nat, w: nat, x: nat)
    requires a > 0 && q < b && r < a && y < w == a * b && x == q * a + r < w && a <= r + y < w
    ensures (x + y) % w / a != q
  {
    var z := r + y;
    var c := z / a;
    assert z == c * a + z % a;
    QuotientRange(z, c, z % a, a, b);
    AddQuotients(q, c, b, a);
    if q + c < b {
      SumBelow(q + c, z % a, a, b, w, x + y);
    } else {
      SumBelow(q + c - b, z % a, a, b, w, x + y - w);
      ModShift(x + y - w, 1, w);
    }
  }

  lemma AddQuotients(q: int, c: int, b: int, a: int)
    ensures (q + c) * a == q * a + c * a && (q + c - b) * a == q * a + c * a - a * b
  {}
}
