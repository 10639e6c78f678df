/** Little-endian positional numerals whose digits may be any integers. */
module Radix {
  import opened ModArith

  function Pow(b: int, n: nat): int {
    if n == 0 then 1 else b * Pow(b, n - 1)
  }

  function PowMod(x: int, e: nat, m: int): int
    requires m > 0
  {
    Pow(x, e) % m
  }

  /** The value of digit sequence `s` in base `b`, least significant digit first. */
  function Eval(s: seq<int>, b: int): int
    decreases |s|
  {
    if |s| == 0 then 0 else Eval(s[..|s| - 1], b) + s[|s| - 1] * Pow(b, |s| - 1)
  }

  ghost predicate Digits(s: seq<int>, b: int) {
    forall i :: 0 <= i < |s| ==> 0 <= s[i] < b
  }

  lemma {:induction false} PowPositive(b: int, n: nat)
    requires b > 0
    ensures Pow(b, n) > 0
  {
    if n > 0 {
      PowPositive(b, n - 1);
    }
  }

  lemma {:induction false} PowAdd(b: int, m: nat, n: nat)
    ensures Pow(b, m + n) == Pow(b, m) * Pow(b, n)
  {
    if m > 0 {
      PowAdd(b, m - 1, n);
      MulAssoc(b, Pow(b, m - 1), Pow(b, n));
    }
  }

  lemma MulAssoc(a: int, b: int, c: int)
    ensures a * (b * c) == (a * b) * c
  {}

  lemma {:induction false} EvalUpdate(s: seq<int>, i: nat, v: int, b: int)
    requires i < |s|
    ensures Eval(s[i := v], b) == Eval(s, b) + (v - s[i]) * Pow(b, i)
    decreases |s|
  {
    var n := |s| - 1;
    var t := s[i := v];
    if i == n {
      assert t[..n] == s[..n];
      assert v * Pow(b, i) == s[i] * Pow(b, i) + (v - s[i]) * Pow(b, i);
    } else {
      assert t[..n] == s[..n][i := v];
      EvalUpdate(s[..n], i, v, b);
    }
  }

  /** One more digit at the top. */
  lemma EvalSnoc(s: seq<int>, v: int, b: int)
    ensures Eval(s + [v], b) == Eval(s, b) + v * Pow(b, |s|)
  {
    assert (s + [v])[..|s|] == s;
  }

  lemma EvalOne(x: int, b: int)
    ensures Eval([x], b) == x
  {
    assert [x] == [] + [x];
    EvalSnoc([], x, b);
  }

  /** One more digit of a longer numeral. */
  lemma EvalNext(s: seq<int>, k: nat, b: int)
    requires k < |s|
    ensures Eval(s[..k + 1], b) == Eval(s[..k], b) + s[k] * Pow(b, k)
  {
    assert s[..k + 1] == s[..k] + [s[k]];
    EvalSnoc(s[..k], s[k], b);
  }

  lemma FourBytes(s: seq<int>)
    requires |s| == 4
    ensures Eval(s, 256) == s[0] + 0x100 * s[1] + 0x1_0000 * s[2] + 0x100_0000 * s[3]
  {
    EvalNext(s, 0, 256);
    EvalNext(s, 1, 256);
    EvalNext(s, 2, 256);
    EvalNext(s, 3, 256);
    assert s[..4] == s && s[..0] == [];
    assert Pow(256, 0) == 1 && Pow(256, 1) == 0x100 && Pow(256, 2) == 0x1_0000 && Pow(256, 3) == 0x100_0000;
  }

  lemma {:induction false} EvalConcat(s: seq<int>, t: seq<int>, b: int)
    ensures Eval(s + t, b) == Eval(s, b) + Pow(b, |s|) * Eval(t, b)
    decreases |t|
  {
    if |t| == 0 {
      assert s + t == s;
    } else {
      var n := |t| - 1;
      var e := Eval(t[..n], b);
      EvalConcat(s, t[..n], b);
      assert s + t == (s + t[..n]) + [t[n]];
      EvalSnoc(s + t[..n], t[n], b);
      PowAdd(b, |s|, n);
      ConcatAlgebra(t[n], Pow(b, |s|), Pow(b, n), e);
    }
  }

  lemma ConcatAlgebra(d: int, u: int, v: int, e: int)
    ensures d * (u * v) == u * (d * v)
    ensures u * e + u * (d * v) == u * (e + d * v)
  {}

  /** `n` digits in `[lo, hi]` hold a value between `lo` and `hi` repunits. */
  lemma {:induction false} EvalRange(s: seq<int>, lo: int, hi: int, b: int)
    requires b > 1 && forall i :: 0 <= i < |s| ==> lo <= s[i] <= hi
    ensures lo * (Pow(b, |s|) - 1) <= (b - 1) * Eval(s, b) <= hi * (Pow(b, |s|) - 1)
    decreases |s|
  {
    if |s| > 0 {
      var n := |s| - 1;
      EvalRange(s[..n], lo, hi, b);
      PowPositive(b, n);
      RangeStep(Eval(s[..n], b), s[n], lo, hi, Pow(b, n), b);
    }
  }

  lemma RangeStep(e: int, d: int, lo: int, hi: int, w: int, b: int)
    requires b > 1 && w > 0 && lo <= d <= hi
    requires lo * (w - 1) <= (b - 1) * e <= hi * (w - 1)
    ensures lo * (b * w - 1) <= (b - 1) * (e + d * w) <= hi * (b * w - 1)
  {
    var c := (b - 1) * w;
    RangeAlgebra(e, d, lo, w, b);
    RangeAlgebra(e, d, hi, w, b);
    MulMono(lo, d, c);
    MulMono(d, hi, c);
  }

  lemma RangeAlgebra(e: int, d: int, x: int, w: int, b: int)
    ensures (b - 1) * (e + d * w) == (b - 1) * e + d * ((b - 1) * w)
    ensures x * (b * w - 1) == x * (w - 1) + x * ((b - 1) * w)
  {}

  lemma {:induction false} EvalBound(s: seq<int>, b: int)
    requires b > 1 && Digits(s, b)
    ensures 0 <= Eval(s, b) < Pow(b, |s|)
    decreases |s|
  {
    if |s| > 0 {
      var n := |s| - 1;
      EvalBound(s[..n], b);
      MulMono(s[n] + 1, b, Pow(b, n));
      MulMono(0, s[n], Pow(b, n));
      assert (s[n] + 1) * Pow(b, n) == s[n] * Pow(b, n) + Pow(b, n);
    }
  }

  /** Proper digits are determined by their value. */
  lemma {:induction false} EvalInjective(s: seq<int>, t: seq<int>, b: int)
    requires b > 1 && |s| == |t| && Digits(s, b) && Digits(t, b) && Eval(s, b) == Eval(t, b)
    ensures s == t
    decreases |s|
  {
    if |s| > 0 {
      var n := |s| - 1;
      var w := Pow(b, n);
      EvalBound(s[..n], b);
      EvalBound(t[..n], b);
      TopDigit(Eval(s[..n], b), s[n], Eval(t[..n], b), t[n], w);
      EvalInjective(s[..n], t[..n], b);
      assert s == s[..n] + [s[n]] && t == t[..n] + [t[n]];
    }
  }

  lemma TopDigit(e: int, d: int, e': int, d': int, w: int)
    requires 0 <= e < w && 0 <= e' < w && e + d * w == e' + d' * w
    ensures e == e' && d == d'
  {
    assert (d - d') * w == e' - e;
    SmallMultiple(d - d', w);
  }

  /** Digitwise linear combination `s + k*t`. */
  lemma {:induction false} EvalLinear(s: seq<int>, t: seq<int>, k: int, u: seq<int>, b: int)
    requires |s| == |t| == |u| && forall i :: 0 <= i < |u| ==> u[i] == s[i] + k * t[i]
    ensures Eval(u, b) == Eval(s, b) + k * Eval(t, b)
    decreases |s|
  {
    if |s| > 0 {
      var n := |s| - 1;
      var w := Pow(b, n);
      EvalLinear(s[..n], t[..n], k, u[..n], b);
      LinearAlgebra(s[n], t[n], k, w, Eval(t[..n], b));
    }
  }

  lemma LinearAlgebra(x: int, y: int, k: int, w: int, e: int)
    ensures (x + k * y) * w == x * w + k * (y * w)
    ensures k * (e + y * w) == k * e + k * (y * w)
  {}

  lemma {:induction false} EvalZeros(s: seq<int>, b: int)
    requires forall i :: 0 <= i < |s| ==> s[i] == 0
    ensures Eval(s, b) == 0
    decreases |s|
  {
    if |s| > 0 {
      EvalZeros(s[..|s| - 1], b);
    }
  }

  /** `n` as `k` little-endian digits. */
  function Encode(n: int, k: nat, b: int): (s: seq<int>)
    requires b > 1
    ensures |s| == k && Digits(s, b)
    decreases k, n
  {
    if k == 0 then [] else [n % b] + Encode(n / b, k - 1, b)
  }

  lemma {:induction false} EvalEncode(n: int, k: nat, b: int)
    requires b > 1 && 0 <= n < Pow(b, k)
    ensures Eval(Encode(n, k, b), b) == n
    decreases k
  {
    if k > 0 {
      HighPart(n, b, Pow(b, k - 1));
      EvalEncode(n / b, k - 1, b);
      EvalCons(n % b, Encode(n / b, k - 1, b), b);
    }
  }

  /** One more digit at the bottom. */
  lemma EvalCons(d: int, s: seq<int>, b: int)
    ensures Eval([d] + s, b) == d + b * Eval(s, b)
  {
    EvalConcat([d], s, b);
    assert [d] == [] + [d];
    EvalSnoc([], d, b);
    assert Pow(b, 1) == b * Pow(b, 0);
  }

  lemma HighPart(n: int, b: int, w: int)
    requires b > 1 && 0 <= n < b * w
    ensures 0 <= n / b < w && n == n % b + b * (n / b)
  {
    var q := n / b;
    assert n == b * q + n % b;
    if q < 0 {
      MulMono(q, -1, b);
    } else if q >= w {
      MulMono(w, q, b);
    }
  }

  // ------------------------------------------------------------------ powers

  lemma PowModSquare(x: int, e: nat, m: int)
    requires m > 0
    ensures PowMod(x, e, m) * PowMod(x, e, m) % m == PowMod(x, 2 * e, m)
  {
    PowAdd(x, e, e);
    ModMul(Pow(x, e), Pow(x, e), m);
  }

  lemma PowModStep(x: int, e: nat, m: int)
    requires m > 0
    ensures PowMod(x, e, m) * (x % m) % m == PowMod(x, e + 1, m)
  {
    ModMul(Pow(x, e), x, m);
  }

  lemma {:induction false} PowProduct(a: int, b: int, n: nat)
    ensures Pow(a * b, n) == Pow(a, n) * Pow(b, n)
  {
    if n > 0 {
      PowProduct(a, b, n - 1);
      Interchange(a, b, Pow(a, n - 1), Pow(b, n - 1));
    }
  }

  lemma Interchange(a: int, b: int, c: int, d: int)
    ensures (a * b) * (c * d) == (a * c) * (b * d)
  {
    MulAssoc(a, b, c * d);
    MulAssoc(b, c, d);
    MulAssoc(c, b, d);
    MulAssoc(a, c, b * d);
  }

  lemma {:induction false} PowCong(a: int, b: int, n: nat, m: int)
    requires m > 0 && Cong(a, b, m)
    ensures Cong(Pow(a, n), Pow(b, n), m)
  {
    if n > 0 {
      PowCong(a, b, n - 1, m);
      CongMul(a, b, Pow(a, n - 1), Pow(b, n - 1), m);
    }
  }
}
