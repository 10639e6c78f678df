/** The mixing of entropy (`kc_mix`) is a bijection of 64-bit words. */
module Mixer {
  import opened ModArith
  import opened Radix
  import opened Machine

  // -------------------------------------------------------- exclusive-or and shifts

  lemma {:induction false} XorAssoc(n: nat, x: int, y: int, z: int)
    requires 0 <= x < Pow(2, n) && 0 <= y < Pow(2, n) && 0 <= z < Pow(2, n)
    ensures Xor(n, Xor(n, x, y), z) == Xor(n, x, Xor(n, y, z))
  {
    if n > 0 {
      XorAssoc(n - 1, x / 2, y / 2, z / 2);
      LowBit(x, y, Xor(n, x, y), Xor(n - 1, x / 2, y / 2));
      LowBit(y, z, Xor(n, y, z), Xor(n - 1, y / 2, z / 2));
      ParityAssoc(x, y, z, Xor(n, x, y), Xor(n, y, z));
    }
  }

  lemma ParityAssoc(x: int, y: int, z: int, u: int, v: int)
    requires (x + u) % 2 == y % 2 && (y + v) % 2 == z % 2
    ensures (u + z) % 2 == (x + v) % 2
  {}

  /** Words without high bits may be combined on one bit less. */
  lemma {:induction false} XorNarrow(n: nat, x: int, y: int)
    requires 0 <= x < Pow(2, n) && 0 <= y < Pow(2, n)
    ensures Xor(n + 1, x, y) == Xor(n, x, y)
  {
    if n > 0 {
      XorNarrow(n - 1, x / 2, y / 2);
    } else {
      assert Xor(1, 0, 0) == 2 * Xor(0, 0, 0);
    }
  }

  lemma XorHalf(n: nat, x: int, y: int)
    requires n > 0 && 0 <= x < Pow(2, n) && 0 <= y < Pow(2, n)
    ensures Xor(n, x, y) / 2 == Xor(n, x / 2, y / 2)
  {
    XorNarrow(n - 1, x / 2, y / 2);
  }

  lemma {:induction false} ShrRange(x: int, s: nat)
    requires x >= 0
    ensures 0 <= Shr(x, s) <= x
  {
    if s > 0 {
      ShrRange(x, s - 1);
    }
  }

  /** A shift distributes over the exclusive-or. */
  lemma {:induction false} ShrXor(n: nat, x: int, y: int, s: nat)
    requires n > 0 && 0 <= x < Pow(2, n) && 0 <= y < Pow(2, n)
    ensures Shr(Xor(n, x, y), s) == Xor(n, Shr(x, s), Shr(y, s))
  {
    if s > 0 {
      ShrXor(n, x, y, s - 1);
      ShrRange(x, s - 1);
      ShrRange(y, s - 1);
      XorHalf(n, Shr(x, s - 1), Shr(y, s - 1));
    }
  }

  lemma {:induction false} ShrShr(x: int, r: nat, s: nat)
    ensures Shr(Shr(x, r), s) == Shr(x, r + s)
  {
    if s > 0 {
      ShrShr(x, r, s - 1);
    }
  }

  /** A shift by the width or more leaves nothing. */
  lemma {:induction false} ShrOut(x: int, n: nat, s: nat)
    requires 0 <= x < Pow(2, n) && s <= n
    ensures 0 <= Shr(x, s) < Pow(2, n - s)
  {
    if s > 0 {
      ShrOut(x, n, s - 1);
    }
  }

  lemma ShrGone(x: int, n: nat, s: nat)
    requires 0 <= x < Pow(2, n) && n <= s
    ensures Shr(x, s) == 0
  {
    ShrOut(x, n, n);
    ShrShr(x, n, s - n);
    ShrRange(0, s - n);
  }

  // -------------------------------------------------------- one folding step

  /** `x ^ (x >> s)` on `n` bits. */
  function Fold(n: nat, x: int, s: nat): int {
    Xor(n, x, Shr(x, s))
  }

  /** What undoes it when three shifts leave nothing. */
  function Unfold(n: nat, y: int, s: nat): int {
    Xor(n, Xor(n, y, Shr(y, s)), Shr(y, 2 * s))
  }

  lemma FoldInverse(n: nat, x: int, s: nat)
    requires 0 < n <= 3 * s && 0 <= x < Pow(2, n)
    ensures 0 <= Fold(n, x, s) < Pow(2, n) && Unfold(n, Fold(n, x, s), s) == x
  {
    var a, b := Shr(x, s), Shr(x, 2 * s);
    Shifts(n, x, s);
    ShrXor(n, x, a, s);
    ShrXor(n, x, a, 2 * s);
    XorNonnegative(n, x, a);
    XorZero(n, b);
    Telescope(n, x, a, b);
  }

  lemma UnfoldInverse(n: nat, y: int, s: nat)
    requires 0 < n <= 3 * s && 0 <= y < Pow(2, n)
    ensures 0 <= Unfold(n, y, s) < Pow(2, n) && Fold(n, Unfold(n, y, s), s) == y
  {
    var a, b := Shr(y, s), Shr(y, 2 * s);
    Shifts(n, y, s);
    XorNonnegative(n, y, a);
    XorNonnegative(n, a, b);
    XorNonnegative(n, Xor(n, y, a), b);
    ShrXor(n, Xor(n, y, a), b, s);
    ShrXor(n, y, a, s);
    XorZero(n, Xor(n, a, b));
    XorAssoc(n, y, a, b);
    XorBack(n, y, Xor(n, a, b));
  }

  /** The shifts of a word and of its shifts. */
  lemma Shifts(n: nat, x: int, s: nat)
    requires 0 < n <= 3 * s && 0 <= x < Pow(2, n)
    ensures 0 <= Shr(x, s) < Pow(2, n) && 0 <= Shr(x, 2 * s) < Pow(2, n)
    ensures Shr(Shr(x, s), s) == Shr(x, 2 * s) && Shr(Shr(x, s), 2 * s) == 0 && Shr(Shr(x, 2 * s), s) == 0
  {
    ShrRange(x, s);
    ShrRange(x, 2 * s);
    ShrShr(x, s, s);
    ShrShr(x, s, 2 * s);
    ShrShr(x, 2 * s, s);
    ShrGone(x, n, 3 * s);
  }

  lemma XorBack(n: nat, x: int, y: int)
    requires 0 <= x < Pow(2, n) && 0 <= y < Pow(2, n)
    ensures Xor(n, Xor(n, x, y), y) == x
  {
    XorNonnegative(n, x, y);
    XorComm(n, x, y);
    XorComm(n, Xor(n, x, y), y);
    XorCancel(n, y, x);
  }

  /** (x ^ a) ^ (a ^ b) ^ b = x. */
  lemma Telescope(n: nat, x: int, a: int, b: int)
    requires 0 <= x < Pow(2, n) && 0 <= a < Pow(2, n) && 0 <= b < Pow(2, n)
    ensures Xor(n, Xor(n, Xor(n, x, a), Xor(n, a, b)), b) == x
  {
    XorNonnegative(n, x, a);
    XorNonnegative(n, a, b);
    XorAssoc(n, Xor(n, x, a), a, b);
    XorBack(n, x, a);
    XorBack(n, x, b);
  }

  // ------------------------------------------------------------------- the mixing

  /** A step, two factors with their inverses, and three shifts, on words of `n` bits. */
  datatype Mixing = Mixing(n: nat, step: int, s1: nat, k1: int, j1: int, s2: nat, k2: int, j2: int, s3: nat)

  /** The factors are inverse to each other, and three shifts empty a word. */
  predicate Proper(w: Mixing) {
    && w.n > 0 && w.n <= 3 * w.s1 && w.n <= 3 * w.s2 && w.n <= 3 * w.s3 && Pow(2, w.n) > 1
    && w.k1 * w.j1 % Pow(2, w.n) == 1 && w.k2 * w.j2 % Pow(2, w.n) == 1
  }

  predicate Word(w: Mixing, x: int) {
    0 <= x < Pow(2, w.n)
  }

  function MixBy(w: Mixing, x: int): int
    requires Pow(2, w.n) > 1
  {
    var m := Pow(2, w.n);
    var b := Fold(w.n, (x + w.step) % m, w.s1) * w.k1 % m;
    var c := Fold(w.n, b, w.s2) * w.k2 % m;
    Fold(w.n, c, w.s3)
  }

  function UnmixBy(w: Mixing, y: int): int
    requires Pow(2, w.n) > 1
  {
    var m := Pow(2, w.n);
    var b := Unfold(w.n, Unfold(w.n, y, w.s3) * w.j2 % m, w.s2);
    var a := Unfold(w.n, b * w.j1 % m, w.s1);
    (a - w.step) % m
  }

  /** Factors that are inverse modulo `m` undo each other. */
  lemma ScaleInverse(x: int, k: int, j: int, m: int)
    requires 1 < m && 0 <= x < m && (k * j % m == 1 || j * k % m == 1)
    ensures 0 <= x * k % m < m && (x * k % m) * j % m == x
  {
    assert k * j == j * k;
    ModIdem(x * k, m);
    CongMul(x * k % m, x * k, j, j, m);
    assert (x * k) * j == x * (k * j);
    DivUnique(1, 0, 1, m);
    CongMul(x, x, k * j, 1, m);
    DivUnique(x, 0, x, m);
  }

  lemma AddInverse(x: int, c: int, m: int)
    requires 0 <= x < m
    ensures 0 <= (x + c) % m < m && ((x + c) % m - c) % m == x
    ensures 0 <= (x - c) % m < m && ((x - c) % m + c) % m == x
  {
    ModIdem(x + c, m);
    CongSub((x + c) % m, x + c, c, c, m);
    ModIdem(x - c, m);
    CongAdd((x - c) % m, x - c, c, c, m);
    DivUnique(x, 0, x, m);
  }

  /** A folding and a multiplication, undone in the opposite order. */
  lemma StageInverse(n: nat, x: int, s: nat, k: int, j: int, m: int)
    requires 0 < n <= 3 * s && 1 < m == Pow(2, n) && 0 <= x < m && k * j % m == 1
    ensures 0 <= Fold(n, x, s) * k % m < m && Unfold(n, (Fold(n, x, s) * k % m) * j % m, s) == x
  {
    FoldInverse(n, x, s);
    ScaleInverse(Fold(n, x, s), k, j, m);
  }

  lemma UnstageInverse(n: nat, y: int, s: nat, k: int, j: int, m: int)
    requires 0 < n <= 3 * s && 1 < m == Pow(2, n) && 0 <= y < m && k * j % m == 1
    ensures 0 <= Unfold(n, y * j % m, s) < m && Fold(n, Unfold(n, y * j % m, s), s) * k % m == y
  {
    ScaleInverse(y, j, k, m);
    UnfoldInverse(n, y * j % m, s);
  }

  /** Mixing maps words to words and can be undone. */
  lemma UnmixMixBy(w: Mixing, x: int)
    requires Proper(w) && Word(w, x)
    ensures Word(w, MixBy(w, x)) && UnmixBy(w, MixBy(w, x)) == x
  {
    var m := Pow(2, w.n);
    var a := (x + w.step) % m;
    var b := Fold(w.n, a, w.s1) * w.k1 % m;
    AddInverse(x, w.step, m);
    StageInverse(w.n, a, w.s1, w.k1, w.j1, m);
    StageInverse(w.n, b, w.s2, w.k2, w.j2, m);
    FoldInverse(w.n, Fold(w.n, b, w.s2) * w.k2 % m, w.s3);
  }

  /** Every word is the mixing of a word. */
  lemma MixUnmixBy(w: Mixing, y: int)
    requires Proper(w) && Word(w, y)
    ensures Word(w, UnmixBy(w, y)) && MixBy(w, UnmixBy(w, y)) == y
  {
    var m := Pow(2, w.n);
    var c := Unfold(w.n, y, w.s3);
    var b := Unfold(w.n, c * w.j2 % m, w.s2);
    UnfoldInverse(w.n, y, w.s3);
    UnstageInverse(w.n, c, w.s2, w.k2, w.j2, m);
    UnstageInverse(w.n, b, w.s1, w.k1, w.j1, m);
    AddInverse(Unfold(w.n, b * w.j1 % m, w.s1), w.step, m);
  }

  const KC_MIX: Mixing := Mixing(64, 0x9E37_79B9_7F4A_7C15, 30, 0xBF58_476D_1CE4_E5B9, 0x96DE_1B17_3F11_9089,
                                 27, 0x94D0_49BB_1331_11EB, 0x3196_42B2_D24D_8EC3, 31)

  lemma WordPower()
    ensures Pow(2, 64) == TWO_TO_64
  {
    Machine.Word();
    assert Pow(2, 64) == 2 * Pow(2, 63);
  }

  lemma KcMixProper()
    ensures Proper(KC_MIX) && Pow(2, KC_MIX.n) == TWO_TO_64
  {
    WordPower();
    assert 0xBF58_476D_1CE4_E5B9 * 0x96DE_1B17_3F11_9089 % TWO_TO_64 == 1;
    assert 0x94D0_49BB_1331_11EB * 0x3196_42B2_D24D_8EC3 % TWO_TO_64 == 1;
  }

  /** `kc_mix`. */
  function Mix(x: u64): u64 {
    KcMixProper();
    UnmixMixBy(KC_MIX, x);
    MixBy(KC_MIX, x)
  }

  function Unmix(y: u64): u64 {
    KcMixProper();
    MixUnmixBy(KC_MIX, y);
    UnmixBy(KC_MIX, y)
  }

  lemma MixByStages(w: Mixing, x: int, m: int, a: int, b: int, c: int)
    requires Pow(2, w.n) == m > 1 && a == (x + w.step) % m
    requires b == Xor(w.n, a, Shr(a, w.s1)) * w.k1 % m && c == Xor(w.n, b, Shr(b, w.s2)) * w.k2 % m
    ensures MixBy(w, x) == Xor(w.n, c, Shr(c, w.s3))
  {}

  /** The stages of the SplitMix64 finaliser, with its constants; `n` is the width of a word. */
  lemma MixMeaning(x: u64, n: nat, a: int, b: int, c: int)
    requires n == 64 && a == (x + 0x9E37_79B9_7F4A_7C15) % TWO_TO_64
    requires b == Xor(n, a, Shr(a, 30)) * 0xBF58_476D_1CE4_E5B9 % TWO_TO_64
    requires c == Xor(n, b, Shr(b, 27)) * 0x94D0_49BB_1331_11EB % TWO_TO_64
    ensures Mix(x) == Xor(n, c, Shr(c, 31))
  {
    KcMixProper();
    MixByStages(KC_MIX, x, TWO_TO_64, a, b, c);
  }

  /** `kc_mix` is a bijection of 64-bit words. */
  lemma MixBijective(x: u64)
    ensures Unmix(Mix(x)) == x && Mix(Unmix(x)) == x
  {
    KcMixProper();
    UnmixMixBy(KC_MIX, x);
    MixUnmixBy(KC_MIX, x);
  }

  // ------------------------------------------------------- counting through a bijection

  predicate InverseAt(f: u64 -> u64, g: u64 -> u64, x: u64) {
    g(f(x)) == x && f(g(x)) == x
  }

  ghost predicate Inverse(f: u64 -> u64, g: u64 -> u64) {
    forall x :: InverseAt(f, g, x)
  }

  lemma MixInverse()
    ensures Inverse(Mix, Unmix)
  {
    forall x ensures InverseAt(Mix, Unmix, x) {
      MixBijective(x);
    }
  }

  /** The images of the `n` words from `lo` on. */
  function Images(g: u64 -> u64, lo: nat, n: nat): set<u64>
    requires lo + n <= TWO_TO_64
  {
    if n == 0 then {} else Images(g, lo, n - 1) + {g(lo + n - 1)}
  }

  /** They are the words that the inverse takes back into the range. */
  lemma {:induction false} ImagesExact(f: u64 -> u64, g: u64 -> u64, lo: nat, n: nat, x: u64)
    requires Inverse(f, g) && lo + n <= TWO_TO_64
    ensures x in Images(g, lo, n) <==> lo <= f(x) < lo + n
  {
    if n > 0 {
      ImagesExact(f, g, lo, n - 1, x);
      assert InverseAt(f, g, x) && InverseAt(f, g, lo + n - 1);
    }
  }

  lemma {:induction false} ImagesSize(f: u64 -> u64, g: u64 -> u64, lo: nat, n: nat)
    requires Inverse(f, g) && lo + n <= TWO_TO_64
    ensures |Images(g, lo, n)| == n
  {
    if n > 0 {
      ImagesSize(f, g, lo, n - 1);
      ImagesExact(f, g, lo, n - 1, g(lo + n - 1));
      assert InverseAt(f, g, lo + n - 1);
    }
  }

  lemma ImagesApart(f: u64 -> u64, g: u64 -> u64, lo: nat, hi: nat, n: nat)
    requires Inverse(f, g) && lo + n <= hi && hi + n <= TWO_TO_64
    ensures Images(g, hi, n) !! Images(g, lo, n)
  {
    forall x | x in Images(g, hi, n) ensures x !in Images(g, lo, n) {
      ImagesExact(f, g, hi, n, x);
      ImagesExact(f, g, lo, n, x);
    }
  }
}
