/** Fixed-width machine integers as ranges of mathematical integers. */
module Machine {
  import opened ModArith
  import opened Radix

  /** `int64_t`: a value stored in an `i64` is proved not to overflow. */
  type i64 = x: int | -0x8000_0000_0000_0000 <= x <= 0x7FFF_FFFF_FFFF_FFFF

  const TWO_TO_64: nat := 0x1_0000_0000_0000_0000

  /** `uint64_t`. */
  type u64 = x: int | 0 <= x < 0x1_0000_0000_0000_0000

  /** `uint8_t`. */
  type byte = x: int | 0 <= x < 256

  /** Two's-complement `x ^ y` of words with `n` bits below the sign. */
  function Xor(n: nat, x: int, y: int): int {
    if n == 0 then (if x == y then 0 else -1) else 2 * Xor(n - 1, x / 2, y / 2) + (x + y) % 2
  }

  /** Two's-complement `x & y` of words with `n` bits below the sign. */
  function And(n: nat, x: int, y: int): int {
    if n == 0 then (if x == 0 then 0 else y) else 2 * And(n - 1, x / 2, y / 2) + (x % 2) * (y % 2)
  }

  /** Two's-complement `x | y` of words with `n` bits below the sign. */
  function Or(n: nat, x: int, y: int): int {
    if n == 0 then (if x == 0 then y else -1) else 2 * Or(n - 1, x / 2, y / 2) + (if x % 2 == 0 then y % 2 else 1)
  }

  /** `x >> n`. */
  function Shr(x: int, n: nat): int {
    if n == 0 then x else Shr(x, n - 1) / 2
  }

  lemma {:induction false} OrZero(n: nat, x: int, y: int)
    requires 0 <= x < Pow(2, n) && 0 <= y < Pow(2, n)
    ensures 0 <= Or(n, x, y) < Pow(2, n)
    ensures Or(n, x, y) == 0 <==> x == 0 && y == 0
  {
    if n > 0 {
      OrZero(n - 1, x / 2, y / 2);
    }
  }

  /** Numbers without a common bit are joined by adding them. */
  lemma {:induction false} OrDisjoint(n: nat, k: nat, x: int, y: int)
    requires k <= n && 0 <= x < Pow(2, n) && Pow(2, k) > 0 && x % Pow(2, k) == 0 && 0 <= y < Pow(2, k)
    ensures Or(n, x, y) == x + y
    decreases n
  {
    if n > 0 {
      if k > 0 {
        HalveMultiple(x, Pow(2, k - 1));
        OrDisjoint(n - 1, k - 1, x / 2, y / 2);
      } else {
        assert Pow(2, 0) == 1;
        OrDisjoint(n - 1, 0, x / 2, 0);
      }
    }
  }

  lemma HalveMultiple(x: int, w: int)
    requires x >= 0 && 2 * w > 0 && x % (2 * w) == 0
    ensures w > 0 && x % 2 == 0 && x / 2 % w == 0
  {
    var q := x / (2 * w);
    assert x == 2 * (q * w);
    DivUnique(x / 2, q, 0, w);
  }

  lemma {:induction false} XorNonnegative(n: nat, x: int, y: int)
    requires 0 <= x < Pow(2, n) && 0 <= y < Pow(2, n)
    ensures 0 <= Xor(n, x, y) < Pow(2, n)
    ensures Xor(n, x, y) == 0 <==> x == y
  {
    if n > 0 {
      var h := Xor(n - 1, x / 2, y / 2);
      XorNonnegative(n - 1, x / 2, y / 2);
      SameHalves(x, y, h);
    }
  }

  lemma SameHalves(x: int, y: int, h: int)
    requires h >= 0 && (h == 0 <==> x / 2 == y / 2)
    ensures 2 * h + (x + y) % 2 == 0 <==> x == y
  {}

  lemma HighStep(x: int, w: int, v: int)
    requires v == 2 * w
    ensures v / 2 == w && 2 * (x / 2 + w) + (x + v) % 2 == x + v
  {}

  /** Setting the bit above `x`. */
  lemma {:induction false} XorHigh(n: nat, x: int)
    requires 0 <= x < Pow(2, n)
    ensures Xor(n + 1, x, Pow(2, n)) == x + Pow(2, n)
  {
    if n > 0 {
      var w, v := Pow(2, n - 1), Pow(2, n);
      HighStep(x, w, v);
      XorHigh(n - 1, x / 2);
      assert Xor(n + 1, x, v) == 2 * Xor(n, x / 2, w) + (x + v) % 2;
    } else {
      assert Xor(1, 0, 1) == 2 * Xor(0, 0, 0) + 1;
    }
  }

  lemma {:induction false} XorRange(n: nat, x: int, y: int)
    ensures -Pow(2, n) <= Xor(n, x, y) < Pow(2, n)
  {
    if n > 0 {
      XorRange(n - 1, x / 2, y / 2);
    }
  }

  lemma {:induction false} AndMask(n: nat, x: int)
    requires -Pow(2, n) <= x < Pow(2, n)
    ensures And(n, -1, x) == x && And(n, 0, x) == 0
  {
    if n > 0 {
      AndMask(n - 1, x / 2);
    }
  }

  lemma {:induction false} XorComm(n: nat, x: int, y: int)
    ensures Xor(n, x, y) == Xor(n, y, x)
  {
    if n > 0 {
      XorComm(n - 1, x / 2, y / 2);
    }
  }

  lemma {:induction false} XorZero(n: nat, x: int)
    requires -Pow(2, n) <= x < Pow(2, n)
    ensures Xor(n, x, 0) == x
  {
    if n > 0 {
      XorZero(n - 1, x / 2);
    }
  }

  lemma {:induction false} XorCancel(n: nat, x: int, y: int)
    requires -Pow(2, n) <= y < Pow(2, n)
    requires -Pow(2, n) <= x < Pow(2, n)
    ensures Xor(n, x, Xor(n, x, y)) == y
  {
    if n > 0 {
      XorCancel(n - 1, x / 2, y / 2);
      var z, h := Xor(n, x, y), Xor(n - 1, x / 2, y / 2);
      LowBit(x, y, z, h);
    }
  }

  lemma LowBit(x: int, y: int, z: int, h: int)
    requires z == 2 * h + (x + y) % 2
    ensures z / 2 == h && (x + z) % 2 == y % 2
  {}

  /** The exchange `t = c & (p ^ q); p ^= t; q ^= t` under the mask `c = ~(b - 1)`. */
  function Exchange(b: int, p: i64, q: i64): (int, int) {
    var c := -(b - 1) - 1;
    var t := And(63, c, Xor(63, p, q));
    (Xor(63, p, t), Xor(63, q, t))
  }

  /** The masked exchange swaps exactly when the bit is set. */
  lemma ExchangeSwaps(b: int, p: i64, q: i64)
    requires b == 0 || b == 1
    ensures Exchange(b, p, q) == if b == 1 then (q, p) else (p, q)
  {
    Word();
    XorRange(63, p, q);
    AndMask(63, Xor(63, p, q));
    XorCancel(63, p, q);
    XorCancel(63, q, p);
    XorComm(63, p, q);
    XorZero(63, p);
    XorZero(63, q);
  }

  lemma Word()
    ensures Pow(2, 63) == 0x8000_0000_0000_0000
  {
    assert Pow(2, 7) == 0x80;
    PowAdd(2, 7, 7);
    PowAdd(2, 14, 7);
    PowAdd(2, 21, 21);
    PowAdd(2, 42, 21);
  }
}
