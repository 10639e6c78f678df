/** Quotients, remainders and residues of integers modulo any positive modulus. */
module ModArith {

  lemma DivUnique(x: int, q: int, r: int, m: int)
    requires 0 <= r < m && x == q * m + r
    ensures x / m == q && x % m == r
  {
    var e := x / m - q;
    assert e * m == r - x % m;
    SmallMultiple(e, m);
  }

  /** The only multiple of `m` strictly between `-m` and `m` is zero. */
  lemma SmallMultiple(e: int, m: int)
    requires -m < e * m < m
    ensures e == 0
  {
    if e >= 1 {
      MulMono(1, e, m);
    } else if e <= -1 {
      MulMono(e, -1, m);
    }
  }

  lemma MulMono(a: int, b: int, c: int)
    requires a <= b && c >= 0
    ensures a * c <= b * c
  {}

  /** Adding a multiple of the modulus does not change the residue. */
  lemma ModShift(a: int, k: int, m: int)
    requires m > 0
    ensures (a + k * m) % m == a % m
  {
    assert a + k * m == (a / m + k) * m + a % m;
    DivUnique(a + k * m, a / m + k, a % m, m);
  }

  lemma ModAdd(a: int, b: int, m: int)
    requires m > 0
    ensures (a % m + b % m) % m == (a + b) % m
  {
    assert a + b == (a % m + b % m) + (a / m + b / m) * m;
    ModShift(a % m + b % m, a / m + b / m, m);
  }

  lemma ModSub(a: int, b: int, m: int)
    requires m > 0
    ensures (a % m - b % m) % m == (a - b) % m
  {
    assert a - b == (a % m - b % m) + (a / m - b / m) * m;
    ModShift(a % m - b % m, a / m - b / m, m);
  }

  lemma ModMul(a: int, b: int, m: int)
    requires m > 0
    ensures ((a % m) * (b % m)) % m == (a * b) % m
  {
    var qa, ra, qb, rb := a / m, a % m, b / m, b % m;
    var k := qa * qb * m + qa * rb + qb * ra;
    assert a == qa * m + ra && b == qb * m + rb;
    ProductOfSums(qa, ra, qb, rb, m);
    ModShift(ra * rb, k, m);
  }

  lemma ProductOfSums(q: int, r: int, q': int, r': int, m: int)
    ensures (q * m + r) * (q' * m + r') == r * r' + (q * q' * m + q * r' + q' * r) * m
  {
    var a, b := q * m, q' * m;
    assert (a + r) * (b + r') == a * b + a * r' + r * b + r * r';
    assert a * b == (q * q' * m) * m && a * r' == (q * r') * m && r * b == (q' * r) * m;
    assert (q * q' * m + q * r' + q' * r) * m == (q * q' * m) * m + (q * r') * m + (q' * r) * m;
  }

  /** Congruence modulo `m`. */
  predicate Cong(a: int, b: int, m: int)
    requires m > 0
  {
    a % m == b % m
  }

  lemma CongAdd(a: int, a': int, b: int, b': int, m: int)
    requires m > 0 && Cong(a, a', m) && Cong(b, b', m)
    ensures Cong(a + b, a' + b', m)
  {
    ModAdd(a, b, m);
    ModAdd(a', b', m);
  }

  lemma CongSub(a: int, a': int, b: int, b': int, m: int)
    requires m > 0 && Cong(a, a', m) && Cong(b, b', m)
    ensures Cong(a - b, a' - b', m)
  {
    ModSub(a, b, m);
    ModSub(a', b', m);
  }

  lemma CongMul(a: int, a': int, b: int, b': int, m: int)
    requires m > 0 && Cong(a, a', m) && Cong(b, b', m)
    ensures Cong(a * b, a' * b', m)
  {
    ModMul(a, b, m);
    ModMul(a', b', m);
  }

  lemma ModIdem(a: int, m: int)
    requires m > 0
    ensures (a % m) % m == a % m
  {
    DivUnique(a % m, 0, a % m, m);
  }

  /** Reducing a summand first makes no difference. */
  lemma AddWrapped(a: int, b: int, m: int)
    requires m > 0
    ensures (a % m + b) % m == (a + b) % m
  {
    ModIdem(a, m);
    ModAdd(a % m, b, m);
    ModAdd(a, b, m);
  }
}
