/** The 256-step scalar multiplication ladder of crypto/ed25519.c, over any addition. */
module Ladder {
  import opened Machine
  import opened Radix

  /** Bit `i` of a little-endian byte string. */
  function Bit(s: seq<byte>, i: nat): (b: int)
    requires i < 8 * |s|
    ensures b == 0 || b == 1
  {
    Shr(s[i / 8], i % 8) % 2
  }

  /** One iteration: swap on the bit, add, double, swap back. */
  function Step<T>(add: (T, T) -> T, r: (T, T), b: int): (T, T) {
    if b == 1 then (add(r.0, r.1), add(r.1, r.1)) else (add(r.0, r.0), add(r.1, r.0))
  }

  /** Both ladder points once bits `i` and above have been consumed. */
  function Climb<T>(add: (T, T) -> T, id: T, q: T, s: seq<byte>, i: nat): (T, T)
    requires |s| == 32 && i <= 256
    decreases 256 - i, s
  {
    if i == 256 then (id, q) else Step(add, Climb(add, id, q, s, i + 1), Bit(s, i))
  }

  // ------------------------------------------------- the value of the bits

  /** The number formed by bits `i` and above. */
  function TopBits(s: seq<byte>, i: nat): (n: nat)
    requires i <= 8 * |s|
    decreases 8 * |s| - i, s
  {
    if i == 8 * |s| then 0 else 2 * TopBits(s, i + 1) + Bit(s, i)
  }

  lemma {:induction false} TopBitsBytes(s: seq<byte>, j: nat)
    requires j <= |s|
    ensures TopBits(s, 8 * j) == Eval(s[j..], 256)
    decreases |s| - j
  {
    if j < |s| {
      TopBitsBytes(s, j + 1);
      ByteStep(s, j);
      assert s[j..] == [s[j]] + s[j + 1..];
      EvalCons(s[j], s[j + 1..], 256);
    }
  }

  /** Bits `r` and above of byte `j`, below what lies above the byte. */
  lemma {:induction false} ByteBits(s: seq<byte>, j: nat, r: nat)
    requires j < |s| && r <= 8
    ensures TopBits(s, 8 * j + r) == TopBits(s, 8 * j + 8) * Pow(2, 8 - r) + Shr(s[j], r)
    decreases 8 - r
  {
    if r == 8 {
      ShrByte(s[j]);
    } else {
      ByteBits(s, j, r + 1);
      assert (8 * j + r) / 8 == j && (8 * j + r) % 8 == r;
      BitStep(TopBits(s, 8 * j + 8), Pow(2, 7 - r), Shr(s[j], r));
    }
  }

  lemma BitStep(t: int, w: int, x: int)
    ensures 2 * (t * w + x / 2) + x % 2 == t * (2 * w) + x
  {}

  lemma ShrByte(x: byte)
    ensures Shr(x, 8) == 0
  {
    assert Shr(x, 2) == Shr(x, 1) / 2 && Shr(x, 1) == Shr(x, 0) / 2;
    assert Shr(x, 4) == Shr(x, 3) / 2 && Shr(x, 3) == Shr(x, 2) / 2;
    assert Shr(x, 6) == Shr(x, 5) / 2 && Shr(x, 5) == Shr(x, 4) / 2;
    assert Shr(x, 8) == Shr(x, 7) / 2 && Shr(x, 7) == Shr(x, 6) / 2;
  }

  lemma ByteStep(s: seq<byte>, j: nat)
    requires j < |s|
    ensures TopBits(s, 8 * j) == 256 * TopBits(s, 8 * j + 8) + s[j]
  {
    ByteBits(s, j, 0);
    assert Pow(2, 8) == 256;
  }

  lemma TopBitsValue(s: seq<byte>)
    ensures TopBits(s, 0) == Eval(s, 256)
  {
    TopBitsBytes(s, 0);
    assert s[0..] == s;
  }

  // ---------------------------------------------- the ladder and a group law

  /**
    A meaning for ladder points: good points stand for elements of a group written `op` and `zero`,
    and `add` on the points stands for `op` on what they stand for.
   */
  datatype Law<!T, !G> = Law(
    add: (T, T) -> T, id: T, good: T -> bool,
    interp: T -> G,
    op: (G, G) -> G, zero: G, el: G -> bool)

  ghost predicate CommutesAt<T, G>(w: Law<T, G>, a: G, b: G) {
    w.el(a) && w.el(b) ==> w.el(w.op(a, b)) && w.op(a, b) == w.op(b, a)
  }

  ghost predicate AssociatesAt<T, G>(w: Law<T, G>, a: G, b: G, c: G) {
    w.el(a) && w.el(b) && w.el(c) ==> w.op(w.op(a, b), c) == w.op(a, w.op(b, c))
  }

  ghost predicate NeutralAt<T, G>(w: Law<T, G>, a: G) {
    w.el(a) ==> w.op(w.zero, a) == a
  }

  /** `op` is a closed, associative and commutative operation with neutral element `zero`. */
  ghost predicate CommutativeMonoid<T, G(!new)>(w: Law<T, G>) {
    && w.el(w.zero)
    && (forall a, b :: CommutesAt(w, a, b))
    && (forall a, b, c :: AssociatesAt(w, a, b, c))
    && (forall a :: NeutralAt(w, a))
  }

  ghost predicate AddsAt<T, G>(w: Law<T, G>, u: T, v: T) {
    w.good(u) && w.good(v) ==>
      w.good(w.add(u, v)) && w.el(w.interp(u)) && w.interp(w.add(u, v)) == w.op(w.interp(u), w.interp(v))
  }

  /** Good points are closed under `add`, which means `op`. */
  ghost predicate Interprets<T(!new), G>(w: Law<T, G>) {
    w.good(w.id) && w.interp(w.id) == w.zero && forall u, v :: AddsAt(w, u, v)
  }

  /** The n-fold `op` of `g`. */
  ghost function Multiple<T, G>(w: Law<T, G>, n: nat, g: G): G {
    if n == 0 then w.zero else w.op(g, Multiple(w, n - 1, g))
  }

  lemma {:induction false} MultipleElement<T, G(!new)>(w: Law<T, G>, n: nat, g: G)
    requires CommutativeMonoid(w) && w.el(g)
    ensures w.el(Multiple(w, n, g))
  {
    if n > 0 {
      MultipleElement(w, n - 1, g);
      assert CommutesAt(w, g, Multiple(w, n - 1, g));
    }
  }

  lemma {:induction false} MultipleAdd<T, G(!new)>(w: Law<T, G>, m: nat, n: nat, g: G)
    requires CommutativeMonoid(w) && w.el(g)
    ensures w.op(Multiple(w, m, g), Multiple(w, n, g)) == Multiple(w, m + n, g)
  {
    var b := Multiple(w, n, g);
    MultipleElement(w, n, g);
    if m == 0 {
      assert NeutralAt(w, b);
    } else {
      MultipleElement(w, m - 1, g);
      MultipleAdd(w, m - 1, n, g);
      assert AssociatesAt(w, g, Multiple(w, m - 1, g), b);
    }
  }

  /** Neither ladder point ever stops being good. */
  lemma {:induction false} ClimbGood<T(!new), G(!new)>(w: Law<T, G>, q: T, s: seq<byte>, i: nat)
    requires |s| == 32 && i <= 256 && Interprets(w) && w.good(q)
    ensures w.good(Climb(w.add, w.id, q, s, i).0) && w.good(Climb(w.add, w.id, q, s, i).1)
    decreases 256 - i
  {
    if i < 256 {
      ClimbGood(w, q, s, i + 1);
      var r := Climb(w.add, w.id, q, s, i + 1);
      assert AddsAt(w, r.0, r.0) && AddsAt(w, r.0, r.1) && AddsAt(w, r.1, r.0) && AddsAt(w, r.1, r.1);
    }
  }

  /** One iteration takes k and k + 1 times the base to 2k + b and 2k + b + 1 times. */
  lemma StepMultiple<T(!new), G(!new)>(w: Law<T, G>, r: (T, T), b: int, k: nat, g: G)
    requires w.good(r.0) && w.good(r.1) && w.el(g) && CommutativeMonoid(w) && Interprets(w) && (b == 0 || b == 1)
    requires w.interp(r.0) == Multiple(w, k, g) && w.interp(r.1) == Multiple(w, k + 1, g)
    ensures w.interp(Step(w.add, r, b).0) == Multiple(w, 2 * k + b, g)
    ensures w.interp(Step(w.add, r, b).1) == Multiple(w, 2 * k + b + 1, g)
  {
    if b == 1 {
      assert AddsAt(w, r.0, r.1) && AddsAt(w, r.1, r.1);
      MultipleAdd(w, k, k + 1, g);
      MultipleAdd(w, k + 1, k + 1, g);
    } else {
      assert AddsAt(w, r.0, r.0) && AddsAt(w, r.1, r.0);
      MultipleAdd(w, k, k, g);
      MultipleAdd(w, k + 1, k, g);
    }
  }

  lemma OneTimes<T, G(!new)>(w: Law<T, G>, g: G)
    requires CommutativeMonoid(w) && w.el(g)
    ensures Multiple(w, 1, g) == g
  {
    assert Multiple(w, 1, g) == w.op(g, Multiple(w, 0, g));
    assert CommutesAt(w, g, w.zero) && NeutralAt(w, g);
  }

  /** At every boundary the points are k and k + 1 times the base, k being the bits consumed. */
  lemma {:induction false} ClimbMultiple<T(!new), G(!new)>(w: Law<T, G>, q: T, s: seq<byte>, i: nat)
    requires |s| == 32 && i <= 256 && w.good(q) && CommutativeMonoid(w) && Interprets(w)
    ensures w.interp(Climb(w.add, w.id, q, s, i).0) == Multiple(w, TopBits(s, i), w.interp(q))
    ensures w.interp(Climb(w.add, w.id, q, s, i).1) == Multiple(w, TopBits(s, i) + 1, w.interp(q))
    decreases 256 - i
  {
    assert AddsAt(w, q, q);
    if i == 256 {
      OneTimes(w, w.interp(q));
    } else {
      ClimbMultiple(w, q, s, i + 1);
      ClimbGood(w, q, s, i + 1);
      var r, b, k := Climb(w.add, w.id, q, s, i + 1), Bit(s, i), TopBits(s, i + 1);
      assert TopBits(s, i) == 2 * k + b;
      assert Climb(w.add, w.id, q, s, i) == Step(w.add, r, b);
      StepMultiple(w, r, b, k, w.interp(q));
    }
  }

  /** In every iteration the points differ by the base. */
  lemma ClimbDifference<T(!new), G(!new)>(w: Law<T, G>, q: T, s: seq<byte>, i: nat)
    requires |s| == 32 && i <= 256 && w.good(q) && CommutativeMonoid(w) && Interprets(w)
    ensures w.interp(Climb(w.add, w.id, q, s, i).1) == w.op(w.interp(q), w.interp(Climb(w.add, w.id, q, s, i).0))
  {
    ClimbMultiple(w, q, s, i);
  }

  /** The ladder computes scalar multiplication under every commutative law for `add`. */
  lemma ClimbCorrect<T(!new), G(!new)>(w: Law<T, G>, q: T, s: seq<byte>)
    requires |s| == 32 && w.good(q) && CommutativeMonoid(w) && Interprets(w)
    ensures Eval(s, 256) >= 0
    ensures w.interp(Climb(w.add, w.id, q, s, 0).0) == Multiple(w, Eval(s, 256), w.interp(q))
  {
    ClimbMultiple(w, q, s, 0);
    TopBitsValue(s);
  }

  // ------------------------------------------------------- multiples in a group

  lemma {:induction false} MultipleOfZero<T, G(!new)>(w: Law<T, G>, n: nat)
    requires CommutativeMonoid(w)
    ensures Multiple(w, n, w.zero) == w.zero
  {
    if n > 0 {
      MultipleOfZero(w, n - 1);
      assert NeutralAt(w, w.zero);
    }
  }

  /** (a + b) + (c + d) = (a + c) + (b + d). */
  lemma Exchange<T, G(!new)>(w: Law<T, G>, a: G, b: G, c: G, d: G)
    requires CommutativeMonoid(w) && w.el(a) && w.el(b) && w.el(c) && w.el(d)
    ensures w.op(w.op(a, b), w.op(c, d)) == w.op(w.op(a, c), w.op(b, d))
  {
    assert CommutesAt(w, c, d) && CommutesAt(w, b, d) && CommutesAt(w, b, c);
    assert AssociatesAt(w, a, b, w.op(c, d)) && AssociatesAt(w, a, c, w.op(b, d));
    assert AssociatesAt(w, b, c, d) && AssociatesAt(w, c, b, d);
  }

  /** Multiples distribute over the operation. */
  lemma {:induction false} MultipleDistributes<T, G(!new)>(w: Law<T, G>, n: nat, a: G, b: G)
    requires CommutativeMonoid(w) && w.el(a) && w.el(b)
    ensures Multiple(w, n, w.op(a, b)) == w.op(Multiple(w, n, a), Multiple(w, n, b))
  {
    if n == 0 {
      assert NeutralAt(w, w.zero);
    } else {
      MultipleDistributes(w, n - 1, a, b);
      MultipleElement(w, n - 1, a);
      MultipleElement(w, n - 1, b);
      Exchange(w, a, b, Multiple(w, n - 1, a), Multiple(w, n - 1, b));
    }
  }

  /** Multiples of an element of order dividing `l` depend on the count modulo `l` only. */
  lemma {:induction false} MultiplePeriodic<T, G(!new)>(w: Law<T, G>, n: nat, c: nat, l: nat, g: G)
    requires CommutativeMonoid(w) && w.el(g) && Multiple(w, l, g) == w.zero
    ensures Multiple(w, n + c * l, g) == Multiple(w, n, g)
  {
    if c > 0 {
      MultiplePeriodic(w, n, c - 1, l, g);
      assert n + c * l == l + (n + (c - 1) * l);
      MultipleAdd(w, l, n + (c - 1) * l, g);
      MultipleElement(w, n, g);
      assert NeutralAt(w, Multiple(w, n, g));
    }
  }

  /** x = p + q exactly when x + (-p) = q. */
  lemma MoveAcross<T, G(!new)>(w: Law<T, G>, x: G, p: G, p': G, q: G)
    requires CommutativeMonoid(w) && w.el(x) && w.el(p) && w.el(p') && w.el(q) && w.op(p, p') == w.zero
    ensures x == w.op(p, q) <==> w.op(x, p') == q
  {
    assert CommutesAt(w, p, q) && CommutesAt(w, p', x) && CommutesAt(w, q, p) && CommutesAt(w, p, p');
    assert CommutesAt(w, x, p');
    assert AssociatesAt(w, q, p, p') && AssociatesAt(w, x, p', p);
    assert NeutralAt(w, q) && NeutralAt(w, x) && CommutesAt(w, w.zero, q) && CommutesAt(w, w.zero, x);
  }
}
