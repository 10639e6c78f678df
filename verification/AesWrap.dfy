/** AES key wrap on byte strings (`aes_key_wrap`, `aes_key_unwrap`; RFC 3394). */
module AesWrap {
  import opened AesColumns
  import opened Aes
  import opened AesKeys
  import opened KeyWrap
  import opened ModArith
  import AesCtr
  import LittleEndian

  type Half = s: Bytes | |s| == 8 witness [0, 0, 0, 0, 0, 0, 0, 0]

  /** The initial value of RFC 3394 section 2.2.3.1. */
  const IV: Half := [0xA6, 0xA6, 0xA6, 0xA6, 0xA6, 0xA6, 0xA6, 0xA6]

  function Halve(b: Block): (Half, Half) { (b[..8], b[8..]) }

  function ShiftRight8(t: nat, b: nat): nat {
    if b == 0 then t else ShiftRight8(t / 256, b - 1)
  }

  function ByteOf(x: nat): (b: bv8)
    requires x < 256
    ensures b as nat == x
  {
    if x == 0 then 0 else AesCtr.IncrementByte(ByteOf(x - 1)); ByteOf(x - 1) + 1
  }

  /** Byte `b` of the step counter, least significant first. */
  function CounterByte(t: nat, b: nat): bv8 { ByteOf(ShiftRight8(t, b) % 256) }

  /** The counter exclusive-ored into a register, most significant byte first. */
  function XorCounter(h: Half, t: nat): Half {
    seq(8, k requires 0 <= k < 8 => Xor(h[k], CounterByte(t, 7 - k)))
  }

  function AesWrapping(rk: Schedule): Wrapping<Half> {
    Wrapping((x: Half, y: Half) => Halve(Cipher(rk, x + y)),
             (x: Half, y: Half) => Halve(InvCipher(rk, x + y)),
             XorCounter)
  }

  /** `w` is the AES wrapping under the round keys `rk`, stated value by value. */
  ghost predicate Realizes(w: Wrapping<Half>, rk: Schedule) {
    forall x: Half, y: Half, t: nat :: RealizesAt(w, rk, x, y, t)
  }

  predicate RealizesAt(w: Wrapping<Half>, rk: Schedule, x: Half, y: Half, t: nat) {
    && w.enc(x, y) == Halve(Cipher(rk, x + y))
    && w.dec(x, y) == Halve(InvCipher(rk, x + y))
    && w.tweak(x, t) == XorCounter(x, t)
  }

  lemma XorCounterTwice(h: Half, t: nat)
    ensures XorCounter(XorCounter(h, t), t) == h
  {
    forall k | 0 <= k < 8 ensures Xor(Xor(h[k], CounterByte(t, 7 - k)), CounterByte(t, 7 - k)) == h[k] {
      XorTwice(h[k], CounterByte(t, 7 - k));
    }
  }

  lemma HalveJoin(x: Half, y: Half, b: Block)
    ensures Halve(x + y) == (x, y) && Halve(b).0 + Halve(b).1 == b
  {}

  lemma AesWrappingInverse(rk: Schedule)
    ensures Inverse(AesWrapping(rk))
  {
    forall x: Half, y: Half, t: nat ensures InverseAt(AesWrapping(rk), x, y, t) {
      CipherInverse(rk, x + y);
      HalveJoin(x, y, Cipher(rk, x + y));
      HalveJoin(x, y, InvCipher(rk, x + y));
      XorCounterTwice(x, t);
    }
  }

  // ------------------------------------------------------------ byte strings

  function Halves(p: Bytes): (h: seq<Half>)
    requires |p| % 8 == 0
    ensures 8 * |h| == |p|
  {
    seq(|p| / 8, i requires 0 <= i < |p| / 8 => p[8 * i..8 * i + 8])
  }

  function Flat(h: seq<Half>): (p: Bytes)
    ensures |p| == 8 * |h|
  {
    seq(8 * |h|, k requires 0 <= k < 8 * |h| => h[k / 8][k % 8])
  }

  lemma FlatHalves(p: Bytes)
    requires |p| % 8 == 0
    ensures Flat(Halves(p)) == p
  {}

  lemma HalvesFlat(h: seq<Half>)
    ensures Halves(Flat(h)) == h
  {
    forall i | 0 <= i < |h| ensures Halves(Flat(h))[i] == h[i] {
      forall k | 0 <= k < 8 ensures Halves(Flat(h))[i][k] == h[i][k] {
        assert (8 * i + k) / 8 == i && (8 * i + k) % 8 == k;
      }
    }
  }

  function ToBytes(c: Registers<Half>): (b: Bytes)
    ensures |b| == 8 * |c.r| + 8
  {
    c.a + Flat(c.r)
  }

  function FromBytes(b: Bytes): (c: Registers<Half>)
    requires |b| >= 8 && |b| % 8 == 0
    ensures 8 * |c.r| + 8 == |b|
  {
    Registers(b[..8], Halves(b[8..]))
  }

  lemma RegistersBytes(c: Registers<Half>)
    ensures FromBytes(ToBytes(c)) == c
  {
    HalvesFlat(c.r);
    assert ToBytes(c)[8..] == Flat(c.r);
  }

  lemma BytesRegisters(b: Bytes)
    requires |b| >= 8 && |b| % 8 == 0
    ensures ToBytes(FromBytes(b)) == b
  {
    FlatHalves(b[8..]);
  }

  // --------------------------------------------------------- wrap and unwrap

  function WrapBytes(kek: Block, p: Bytes): (c: Bytes)
    requires |p| % 8 == 0 && |p| > 0
    ensures |c| == |p| + 8
  {
    ToBytes(Wrap(AesWrapping(Expanded(kek)), IV, Halves(p)))
  }

  function UnwrapBytes(kek: Block, c: Bytes): (r: (bool, Bytes))
    requires |c| % 8 == 0 && |c| > 8
    ensures |r.1| + 8 == |c|
  {
    var (ok, h) := Unwrap(AesWrapping(Expanded(kek)), IV, FromBytes(c));
    (ok, Flat(h))
  }

  /**
   * Unwrapping is the exact inverse of wrapping under the same key-encryption key: it accepts `c` and
   * returns `p` if and only if `c` is the wrapping of `p`.
   */
  lemma UnwrapBytesExact(kek: Block, p: Bytes, c: Bytes)
    requires |p| % 8 == 0 && |p| > 0 && |c| % 8 == 0 && |c| > 8
    ensures UnwrapBytes(kek, c) == (true, p) <==> c == WrapBytes(kek, p)
  {
    var w := AesWrapping(Expanded(kek));
    AesWrappingInverse(Expanded(kek));
    UnwrapExact(w, IV, Halves(p), FromBytes(c));
    FlatHalves(p);
    HalvesFlat(Unwrap(w, IV, FromBytes(c)).1);
    BytesRegisters(c);
    RegistersBytes(Wrap(w, IV, Halves(p)));
  }

  /** Unwrapping what was wrapped succeeds and returns the key data. */
  lemma UnwrapWrap(kek: Block, p: Bytes)
    requires |p| % 8 == 0 && |p| > 0
    ensures UnwrapBytes(kek, WrapBytes(kek, p)) == (true, p)
  {
    UnwrapBytesExact(kek, p, WrapBytes(kek, p));
  }

  /** Whatever unwrapping accepts is the wrapping of what it returns. */
  lemma WrapUnwrap(kek: Block, c: Bytes)
    requires |c| % 8 == 0 && |c| > 8 && UnwrapBytes(kek, c).0
    ensures WrapBytes(kek, UnwrapBytes(kek, c).1) == c
  {
    UnwrapBytesExact(kek, UnwrapBytes(kek, c).1, c);
  }

  /** Unwrapping undoes the steps from any initial value `a`, and accepts exactly when that is the one expected. */
  lemma UnwrapAny(kek: Block, a: Half, p: Bytes)
    requires |p| % 8 == 0 && |p| > 0
    ensures UnwrapBytes(kek, ToBytes(Wrap(AesWrapping(Expanded(kek)), a, Halves(p)))) == (a == IV, p)
  {
    var w := AesWrapping(Expanded(kek));
    AesWrappingInverse(Expanded(kek));
    UnwrapWrapSteps(w, Registers(a, Halves(p)), 6 * |Halves(p)|);
    RegistersBytes(Wrap(w, a, Halves(p)));
    FlatHalves(p);
  }

  // -------------------------------------------------- the steps of RFC 3394 on bytes

  /** The step counter as `n` bytes, most significant first. */
  function CounterBytes(t: nat, n: nat): (c: Bytes)
    ensures |c| == n
  {
    seq(n, k requires 0 <= k < n => CounterByte(t, n - 1 - k))
  }

  lemma {:induction false} CounterValue(t: nat, n: nat)
    ensures AesCtr.Value(CounterBytes(t, n)) == t % LittleEndian.Range(n)
    decreases n
  {
    if n == 0 {
      assert LittleEndian.Range(0) == 1;
    } else {
      var c := CounterBytes(t, n);
      forall k | 0 <= k < n - 1 ensures c[k] == CounterBytes(t / 256, n - 1)[k] {
        NextByte(t, n - 2 - k);
      }
      assert c[..n - 1] == CounterBytes(t / 256, n - 1);
      CounterValue(t / 256, n - 1);
      NextByte(t, 0);
      PeelByte(t, LittleEndian.Range(n - 1));
    }
  }

  lemma NextByte(t: nat, b: nat)
    ensures CounterByte(t, b + 1) == CounterByte(t / 256, b) && CounterByte(t, 0) as nat == t % 256
  {
    assert ShiftRight8(t, b + 1) == ShiftRight8(t / 256, b);
  }

  lemma PeelByte(t: nat, w: nat)
    requires w > 0
    ensures t % (256 * w) == 256 * (t / 256 % w) + t % 256
  {
    var q, r := t / 256 / w, t / 256 % w;
    assert t / 256 == q * w + r;
    assert 256 * (q * w) == q * (256 * w);
    DivUnique(t, q, 256 * r + t % 256, 256 * w);
  }

  /** Mixing in the counter is the exclusive-or with its 64-bit big-endian form. */
  lemma XorCounterMeaning(h: Half, t: nat, k: nat)
    requires t < LittleEndian.Range(8) && k < 8
    ensures AesCtr.Value(CounterBytes(t, 8)) == t && XorCounter(h, t)[k] == Xor(h[k], CounterBytes(t, 8)[k])
  {
    CounterOf64(t, 8);
  }

  lemma CounterOf64(t: nat, n: nat)
    requires t < LittleEndian.Range(n)
    ensures AesCtr.Value(CounterBytes(t, n)) == t
  {
    CounterValue(t, n);
    DivUnique(t, 0, t, LittleEndian.Range(n));
  }

  /** `x` is `y` exclusive-or the number `t` in 64 bits. */
  ghost predicate XorOf(x: Half, y: Half, t: nat) {
    exists c: Half :: AesCtr.Value(c) == t && forall k :: 0 <= k < 8 ==> x[k] == Xor(y[k], c[k])
  }

  /**
    Step `t` of RFC 3394 section 2.2.1, on one of the `n` registers in turn: B is the encryption of A and
    the register, A becomes the first half of B exclusive-or `t`, and the register the second half.
   */
  ghost predicate RfcStep(rk: Schedule, s: Registers<Half>, s': Registers<Half>, t: nat)
    requires t >= 1 && s.r != []
  {
    var i := (t - 1) % |s.r|;
    var b := Cipher(rk, s.a + s.r[i]);
    s'.r == s.r[i := b[8..]] && XorOf(s'.a, b[..8], t)
  }

  lemma WrapStepMeaning(rk: Schedule, s: Registers<Half>, t: nat)
    requires 1 <= t < LittleEndian.Range(8) && s.r != []
    ensures RfcStep(rk, s, WrapStep(AesWrapping(rk), s, t), t)
  {
    var b := Cipher(rk, s.a + s.r[(t - 1) % |s.r|]);
    forall k | 0 <= k < 8 ensures XorCounter(b[..8], t)[k] == Xor(b[..8][k], CounterBytes(t, 8)[k]) {
      XorCounterMeaning(b[..8], t, k);
    }
    XorCounterMeaning(b[..8], t, 0);
    assert XorOf(XorCounter(b[..8], t), b[..8], t);
  }

  /** The registers after `t` steps of wrapping `p`. */
  function WrapRun(kek: Block, p: Bytes, t: nat): (s: Registers<Half>)
    requires |p| % 8 == 0 && |p| > 0
    ensures 8 * |s.r| == |p|
  {
    WrapSteps(AesWrapping(Expanded(kek)), Registers(IV, Halves(p)), t)
  }

  /**
    Wrapping is RFC 3394 section 2.2.1: A starts as eight bytes A6 and the registers as the key data, the steps
    are numbered from 1 to six times the number of registers, and the output is A and the registers.
   */
  lemma WrapMeaning(kek: Block, p: Bytes, t: nat, i: nat)
    requires |p| % 8 == 0 && |p| < LittleEndian.Range(8) && 1 <= t <= 6 * (|p| / 8) && i < |p| / 8
    ensures WrapRun(kek, p, 0).a == [0xA6, 0xA6, 0xA6, 0xA6, 0xA6, 0xA6, 0xA6, 0xA6]
    ensures WrapRun(kek, p, 0).r[i] == p[8 * i..8 * i + 8]
    ensures RfcStep(Expanded(kek), WrapRun(kek, p, t - 1), WrapRun(kek, p, t), t)
    ensures var c, s := WrapBytes(kek, p), WrapRun(kek, p, 6 * (|p| / 8));
            c[..8] == s.a && c[8 * i + 8..8 * i + 16] == s.r[i]
  {
    WrapStepMeaning(Expanded(kek), WrapRun(kek, p, t - 1), t);
    var s := WrapRun(kek, p, 6 * (|p| / 8));
    forall k | 0 <= k < 8 ensures Flat(s.r)[8 * i + k] == s.r[i][k] {
      assert (8 * i + k) / 8 == i && (8 * i + k) % 8 == k;
    }
  }
}
