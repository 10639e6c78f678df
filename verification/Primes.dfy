/** Prime moduli: no zero divisors, and Fermat's theorem. */
module Primes {
  import opened ModArith
  import opened Radix
  import opened Decode

  predicate Divides(d: int, n: int)
    requires d != 0
  {
    n % d == 0
  }

  ghost predicate Prime(p: int) {
    p > 1 && forall d :: 1 < d < p ==> !Divides(d, p)
  }

  // ---------------------------------------------------------- Euclid's lemma

  /** A multiple of `a` by less than `p` that `p` divides: remainders lead down to `a` itself. */
  lemma {:induction false} EuclidBelow(n: nat, a: int, p: int)
    requires Prime(p) && 0 < n < p && (n * a) % p == 0
    ensures a % p == 0
    decreases n
  {
    if n > 1 {
      assert !Divides(n, p);
      var q, r := p / n, p % n;
      RemainderMultiple(n, q, r, a, p);
      EuclidBelow(r, a, p);
    }
  }

  lemma RemainderMultiple(n: int, q: int, r: int, a: int, p: int)
    requires p > 0 && p == n * q + r && (n * a) % p == 0
    ensures (r * a) % p == 0
  {
    DivUnique(0, 0, 0, p);
    CongMul(q, q, n * a, 0, p);
    DivUnique(p * a, a, 0, p);
    CongSub(p * a, 0, q * (n * a), 0, p);
    assert (n * q + r) * a == q * (n * a) + r * a;
  }

  lemma Euclid(a: int, b: int, p: int)
    requires Prime(p) && (a * b) % p == 0
    ensures a % p == 0 || b % p == 0
  {
    var n := a % p;
    if n != 0 {
      ModIdem(a, p);
      CongMul(a, n, b, b, p);
      EuclidBelow(n, b, p);
    }
  }

  // -------------------------------------------------------- binomial theorem

  function Choose(n: nat, k: nat): nat {
    if k == 0 then 1 else if n == 0 then 0 else Choose(n - 1, k - 1) + Choose(n - 1, k)
  }

  lemma {:induction false} ChooseEnd(n: nat)
    ensures Choose(n, n) == 1 && Choose(n, n + 1) == 0
  {
    if n > 0 {
      ChooseEnd(n - 1);
      ChooseBeyond(n - 1, n + 1);
    }
  }

  lemma {:induction false} ChooseBeyond(n: nat, k: nat)
    requires k > n
    ensures Choose(n, k) == 0
  {
    if n > 0 {
      ChooseBeyond(n - 1, k - 1);
      ChooseBeyond(n - 1, k);
    }
  }

  lemma {:induction false} ChooseAbsorbs(n: nat, k: nat)
    requires n > 0 && k > 0
    ensures k * Choose(n, k) == n * Choose(n - 1, k - 1)
  {
    if n > 1 {
      ChooseAbsorbs(n - 1, k);
      if k > 1 {
        ChooseAbsorbs(n - 1, k - 1);
        AbsorbStep(n, k, Choose(n - 1, k - 1), Choose(n - 1, k), Choose(n - 2, k - 2), Choose(n - 2, k - 1));
      }
    } else if k > 1 {
      assert Choose(0, k - 1) == 0;
    }
  }

  lemma AbsorbStep(n: int, k: int, a: int, b: int, c: int, d: int)
    requires k * b == (n - 1) * d && (k - 1) * a == (n - 1) * c && a == c + d
    ensures k * (a + b) == n * a
  {
    assert k * (a + b) == (k - 1) * a + a + k * b;
    assert (n - 1) * (c + d) == (n - 1) * c + (n - 1) * d;
  }

  /** The first `m` terms of the expansion of (a + 1)^n. */
  function Expansion(a: int, n: nat, m: nat): int {
    if m == 0 then 0 else Expansion(a, n, m - 1) + Choose(n, m - 1) * Pow(a, m - 1)
  }

  lemma {:induction false} ExpansionStep(a: int, n: nat, m: nat)
    ensures Expansion(a, n + 1, m + 1) == a * Expansion(a, n, m) + Expansion(a, n, m + 1)
  {
    if m > 0 {
      ExpansionStep(a, n, m - 1);
      TermStep(a, Choose(n, m - 1), Choose(n, m), Pow(a, m - 1), Expansion(a, n, m - 1));
    }
  }

  lemma TermStep(a: int, c: int, d: int, w: int, e: int)
    ensures (c + d) * (a * w) == a * (c * w) + d * (a * w) && a * (e + c * w) == a * e + a * (c * w)
  {}

  lemma {:induction false} BinomialTheorem(a: int, n: nat)
    ensures Expansion(a, n, n + 1) == Pow(a + 1, n)
  {
    if n == 0 {
      assert Expansion(a, 0, 1) == Expansion(a, 0, 0) + Choose(0, 0) * Pow(a, 0);
    } else {
      BinomialTheorem(a, n - 1);
      ExpansionStep(a, n - 1, n);
      ExpansionEnds(a, n - 1);
      PowerStep(a, n);
    }
  }

  lemma ExpansionEnds(a: int, n: nat)
    ensures Expansion(a, n, n + 2) == Expansion(a, n, n + 1)
  {
    ChooseEnd(n);
    assert Choose(n, n + 1) * Pow(a, n + 1) == 0;
  }

  lemma PowerStep(a: int, n: nat)
    requires n > 0
    ensures Pow(a + 1, n) == a * Pow(a + 1, n - 1) + Pow(a + 1, n - 1)
  {}

  // -------------------------------------------------------- Fermat's theorem

  lemma ChooseVanishes(p: int, k: nat)
    requires Prime(p) && 0 < k < p
    ensures Choose(p, k) % p == 0
  {
    ChooseAbsorbs(p, k);
    DivUnique(p * Choose(p - 1, k - 1), Choose(p - 1, k - 1), 0, p);
    EuclidBelow(k, Choose(p, k), p);
  }

  lemma {:induction false} MiddleVanishes(a: int, p: int, m: nat)
    requires Prime(p) && 0 < m <= p
    ensures Cong(Expansion(a, p, m), 1, p)
    decreases m
  {
    if m == 1 {
      assert Expansion(a, p, 1) == Expansion(a, p, 0) + Choose(p, 0) * Pow(a, 0);
    } else {
      MiddleVanishes(a, p, m - 1);
      ChooseVanishes(p, m - 1);
      DivUnique(0, 0, 0, p);
      CongMul(Choose(p, m - 1), 0, Pow(a, m - 1), Pow(a, m - 1), p);
      CongAdd(Expansion(a, p, m - 1), 1, Choose(p, m - 1) * Pow(a, m - 1), 0, p);
    }
  }

  /** (a + 1)^p = a^p + 1. */
  lemma PowerOfNext(a: int, p: int)
    requires Prime(p)
    ensures Cong(Pow(a + 1, p), Pow(a, p) + 1, p)
  {
    BinomialTheorem(a, p);
    ChooseEnd(p);
    MiddleVanishes(a, p, p);
    CongAdd(Expansion(a, p, p), 1, Pow(a, p), Pow(a, p), p);
  }

  lemma {:induction false} PowerIsBase(a: nat, p: int)
    requires Prime(p)
    ensures Cong(Pow(a, p), a, p)
    decreases a
  {
    if a == 0 {
      assert Pow(0, p) == 0 * Pow(0, p - 1);
    } else {
      PowerIsBase(a - 1, p);
      PowerOfNext(a - 1, p);
      CongAdd(Pow(a - 1, p), a - 1, 1, 1, p);
    }
  }

  lemma Fermat(a: int, p: int)
    requires Prime(p) && a % p != 0
    ensures PowMod(a, p - 1, p) == 1
  {
    ModIdem(a, p);
    PowCong(a, a % p, p, p);
    PowerIsBase(a % p, p);
    assert Pow(a, p) == a * Pow(a, p - 1);
    var w := Pow(a, p - 1);
    CongSub(a * w, a, a, a, p);
    assert a * w - a == a * (w - 1);
    DivUnique(0, 0, 0, p);
    Euclid(a, w - 1, p);
    CongAdd(w - 1, 0, 1, 1, p);
    DivUnique(1, 0, 1, p);
  }

  /** The laws that the curve theorems rest on hold for every prime modulus. */
  lemma PrimeField(p: int)
    requires Prime(p)
    ensures FieldLaws(p)
  {
    forall a ensures FermatAt(a, p) {
      if a % p != 0 {
        Fermat(a, p);
      }
    }
    forall a, b ensures DomainAt(a, b, p) {
      if (a * b) % p == 0 {
        Euclid(a, b, p);
      }
    }
  }
}
