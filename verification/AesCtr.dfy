/** Counter mode (`aes128_ctr`): the ripple increment as addition modulo 2^128, and the stream it drives. */
module AesCtr {
  import opened AesColumns
  import opened Aes
  import opened AesCode
  import opened ModArith
  import LittleEndian

  // ------------------------------------------------------------- the counter

  /** A byte string read as a big-endian number. */
  function Value(s: Bytes): nat {
    if s == [] then 0 else 256 * Value(s[..|s| - 1]) + s[|s| - 1] as nat
  }

  /** The increment that ripples from the last byte towards the first. */
  function Increment(s: Bytes): (r: Bytes)
    ensures |r| == |s|
  {
    if s == [] then []
    else
      var last := s[|s| - 1] + 1;
      if last != 0 then s[..|s| - 1] + [last] else Increment(s[..|s| - 1]) + [0]
  }

  lemma IncrementByte(x: bv8)
    ensures x != 255 ==> x + 1 != 0 && (x + 1) as nat == x as nat + 1
    ensures x == 255 ==> x + 1 == 0 && x as nat == 255
  {}

  lemma {:induction false} ValueBound(s: Bytes)
    ensures Value(s) < LittleEndian.Range(|s|)
  {
    if s != [] {
      ValueBound(s[..|s| - 1]);
    }
  }

  /** The increment adds one modulo 256^n. */
  lemma {:induction false} IncrementValue(s: Bytes)
    ensures Value(Increment(s)) == (Value(s) + 1) % LittleEndian.Range(|s|)
  {
    if s == [] {
      assert LittleEndian.Range(0) == 1;
    } else {
      var t, x := s[..|s| - 1], s[|s| - 1];
      IncrementByte(x);
      ValueBound(s);
      ValueBound(t);
      if x != 255 {
        ValueSnoc(t, x + 1);
        ValueSnoc(t, x);
        SmallMod(Value(s) + 1, Value(t), x as nat + 1, LittleEndian.Range(|t|));
      } else {
        ValueSnoc(Increment(t), 0);
        IncrementValue(t);
        ScaleMod(Value(t) + 1, LittleEndian.Range(|t|));
      }
    }
  }

  lemma ValueSnoc(t: Bytes, x: bv8)
    ensures Value(t + [x]) == 256 * Value(t) + x as nat
  {
    assert (t + [x])[..|t|] == t;
  }

  lemma SmallMod(v: nat, t: nat, x: nat, w: nat)
    requires v == 256 * t + x && x < 256 && t < w
    ensures v % (256 * w) == v
  {
    DivUnique(v, 0, v, 256 * w);
  }

  lemma ScaleMod(v: nat, w: nat)
    requires w > 0
    ensures 256 * (v % w) == (256 * v) % (256 * w)
  {
    DivUnique(256 * v, v / w, 256 * (v % w), 256 * w);
  }

  /** The counter block used for block `k` of the message. */
  function Advance(iv: Block, k: nat): Block {
    Iterate(Next, iv, k)
  }

  function Next(ctr: Block): Block { Increment(ctr) }

  function Iterate<T>(f: T -> T, x: T, k: nat): T {
    if k == 0 then x else f(Iterate(f, x, k - 1))
  }

  lemma {:induction false} IterateAdd<T>(f: T -> T, x: T, j: nat, k: nat)
    ensures Iterate(f, Iterate(f, x, j), k) == Iterate(f, x, j + k)
  {
    if k > 0 {
      IterateAdd(f, x, j, k - 1);
    }
  }

  /** Block `k` is enciphered under the counter `iv + k` modulo 2^128. */
  lemma AdvanceValue(iv: Block, k: nat)
    ensures Value(Advance(iv, k)) == (Value(iv) + k) % LittleEndian.Range(|iv|)
  {
    CountsModulo(iv);
    AdvanceAdds(iv, k, LittleEndian.Range(|iv|));
  }

  lemma CountsModulo(iv: Block)
    ensures Counts(iv, LittleEndian.Range(|iv|))
  {
    forall s: Block ensures AddsOne(s, LittleEndian.Range(|iv|)) {
      IncrementValue(s);
    }
    ValueBound(iv);
  }

  ghost predicate Counts(iv: Block, m: nat) {
    Value(iv) < m && forall s: Block :: AddsOne(s, m)
  }

  predicate AddsOne(s: Block, m: nat) {
    m > 0 && Value(Increment(s)) == (Value(s) + 1) % m
  }

  lemma {:induction false} AdvanceAdds(iv: Block, k: nat, m: nat)
    requires Counts(iv, m)
    ensures Value(Advance(iv, k)) == (Value(iv) + k) % m
  {
    if k == 0 {
      DivUnique(Value(iv), 0, Value(iv), m);
    } else {
      AdvanceAdds(iv, k - 1, m);
      assert AddsOne(Advance(iv, k - 1), m);
      AddOneMod(Value(iv) + k - 1, m);
    }
  }

  lemma AddOneMod(v: nat, m: nat)
    requires m > 0
    ensures (v % m + 1) % m == (v + 1) % m
  {
    ModShift(v % m + 1, v / m, m);
  }

  /** No counter block repeats within 2^128 blocks. */
  lemma CountersDistinct(iv: Block, j: nat, k: nat)
    requires j < k < j + LittleEndian.Range(|iv|)
    ensures Advance(iv, j) != Advance(iv, k)
  {
    CountsModulo(iv);
    AdvanceDistinct(iv, j, k, LittleEndian.Range(|iv|));
  }

  lemma AdvanceDistinct(iv: Block, j: nat, k: nat, m: nat)
    requires Counts(iv, m) && j < k < j + m
    ensures Advance(iv, j) != Advance(iv, k)
  {
    AdvanceAdds(iv, j, m);
    AdvanceAdds(iv, k, m);
    ResiduesDistinct(Value(iv), j, k, m, Value(Advance(iv, j)), Value(Advance(iv, k)));
  }

  lemma ResiduesDistinct(v: nat, j: nat, k: nat, m: nat, x: nat, y: nat)
    requires j < k < j + m && x == (v + j) % m && y == (v + k) % m
    ensures x != y
  {
    if x == y {
      SmallMultiple((v + k) / m - (v + j) / m, m);
    }
  }

  // -------------------------------------------------------------- the stream

  /** Byte `i` of the stream made of the images of the blocks `f(0)`, `f(1)`, ... */
  function Pick(e: Block -> Block, f: nat -> Block, i: nat): bv8 {
    e(f(i / 16))[i % 16]
  }

  function Counters(iv: Block): nat -> Block {
    (k: nat) => Advance(iv, k)
  }

  function Keystream(e: Block -> Block, f: nat -> Block): nat -> bv8 {
    (i: nat) => Pick(e, f, i)
  }

  /** A message combined with a stream, element by element. */
  function Combined<T>(op: (T, T) -> T, f: nat -> T, m: seq<T>): (c: seq<T>)
    ensures |c| == |m|
  {
    seq(|m|, i requires 0 <= i < |m| => op(m[i], f(i)))
  }

  function Ctr(e: Block -> Block, iv: Block, m: Bytes): (c: Bytes)
    ensures |c| == |m|
  {
    Combined(Xor, Keystream(e, Counters(iv)), m)
  }

  /** Encrypting twice is the identity, for every length. */
  lemma CtrTwice(e: Block -> Block, iv: Block, m: Bytes)
    ensures Ctr(e, iv, Ctr(e, iv, m)) == m
  {
    var ks := Keystream(e, Counters(iv));
    forall i | 0 <= i < |m| ensures Xor(Xor(m[i], ks(i)), ks(i)) == m[i] {
      XorTwice(m[i], ks(i));
    }
  }

  lemma CombinedSplit<T>(op: (T, T) -> T, f: nat -> T, g: nat -> T, m: seq<T>, n: seq<T>)
    requires forall i: nat :: g(i) == f(|m| + i)
    ensures Combined(op, f, m + n) == Combined(op, f, m) + Combined(op, g, n)
  {
    forall i | 0 <= i < |n| ensures Combined(op, f, m + n)[|m| + i] == Combined(op, g, n)[i] {
      assert g(i) == f(|m| + i);
    }
  }

  /** A message may be split at any multiple of 16 bytes if the counter is advanced to match. */
  lemma CtrSplit(e: Block -> Block, iv: Block, m: Bytes, n: Bytes)
    requires |m| % 16 == 0
    ensures Ctr(e, iv, m + n) == Ctr(e, iv, m) + Ctr(e, Advance(iv, |m| / 16), n)
  {
    var later := Advance(iv, |m| / 16);
    forall i: nat ensures Keystream(e, Counters(later))(i) == Keystream(e, Counters(iv))(|m| + i) {
      CountersShift(e, iv, |m| / 16, i);
    }
    CombinedSplit(Xor, Keystream(e, Counters(iv)), Keystream(e, Counters(later)), m, n);
  }

  lemma CountersShift(e: Block -> Block, iv: Block, k: nat, i: nat)
    ensures Pick(e, Counters(iv), 16 * k + i) == Pick(e, Counters(Advance(iv, k)), i)
  {
    IterateAdd(Next, iv, k, i / 16);
    PickShift(e, Counters(iv), Counters(Advance(iv, k)), k, i);
  }

  lemma PickShift(e: Block -> Block, f: nat -> Block, g: nat -> Block, k: nat, i: nat)
    requires g(i / 16) == f(k + i / 16)
    ensures Pick(e, f, 16 * k + i) == Pick(e, g, i)
  {
    BlockOf(k + i / 16, i % 16);
  }

  lemma BlockOf(q: nat, r: nat)
    requires r < 16
    ensures (16 * q + r) / 16 == q && (16 * q + r) % 16 == r
  {}

  // ---------------------------------------------------------------- the code

  /** The counter buffer incremented in place. */
  method IncrementInPlace(ctr: array<bv8>)
    modifies ctr
    ensures ctr[..] == Increment(old(ctr[..]))
  {
    ghost var before := ctr[..];
    for i := ctr.Length downto 0
      invariant forall j :: 0 <= j < i ==> ctr[j] == before[j]
      invariant forall j :: i <= j < ctr.Length ==> before[j] + 1 == 0 && ctr[j] == 0
    {
      ctr[i] := ctr[i] + 1;
      if ctr[i] != 0 {
        Ripple(before, ctr[..], i + 1);
        return;
      }
    }
    Ripple(before, ctr[..], 0);
  }

  /** A run of carries from the end down to position `i`, and the byte before it if there is one. */
  lemma {:induction false} Ripple(s: Bytes, r: Bytes, i: nat)
    requires |r| == |s| && i <= |s| && forall j :: i <= j < |s| ==> s[j] + 1 == 0 && r[j] == 0
    requires i > 0 ==> r[i - 1] != 0 && r[i - 1] == s[i - 1] + 1 && forall j :: 0 <= j < i - 1 ==> r[j] == s[j]
    ensures r == Increment(s)
  {
    if i < |s| {
      Ripple(s[..|s| - 1], r[..|s| - 1], i);
    }
  }

  function AesBlock(rk: Schedule): Block -> Block {
    b => Cipher(rk, b)
  }

  /** Byte `i` is the input byte exclusive-or byte `i` modulo 16 of the encryption of `iv + i / 16` modulo 2^128. */
  lemma CtrMeaning(rk: Schedule, iv: Block, m: Bytes, i: nat)
    requires i < |m|
    ensures Value(Advance(iv, i / 16)) == (Value(iv) + i / 16) % LittleEndian.Range(|iv|)
    ensures Ctr(AesBlock(rk), iv, m)[i] == Xor(m[i], Cipher(rk, Advance(iv, i / 16))[i % 16])
  {
    AdvanceValue(iv, i / 16);
  }

  /** `aes128_ctr`, in place too. */
  method Aes128Ctr(rk: array<bv8>, iv: array<bv8>, inp: array<bv8>, out: array<bv8>, len: nat)
    requires rk.Length == 176 && iv.Length == 16 && len <= inp.Length && len <= out.Length && out != rk
    modifies out
    ensures out[..] == Ctr(AesBlock(rk[..]), old(iv[..]), old(inp[..len])) + old(out[len..])
  {
    ghost var v := iv[..];
    var ctr := new bv8[16];
    CopyInto(iv, ctr);
    AesCounts(rk[..], v);
    EachBlock(rk, ctr, inp, out, len, AesBlock(rk[..]), Counters(v));
  }

  /** `e` is the cipher under `rk` and `c` lists successive counters. */
  ghost predicate Drives(e: Block -> Block, c: nat -> Block, rk: Schedule) {
    && (forall b: Block :: EnciphersAt(e, rk, b))
    && (forall k: nat :: NextAt(c, k))
  }

  predicate EnciphersAt(e: Block -> Block, rk: Schedule, b: Block) {
    e(b) == Cipher(rk, b)
  }

  predicate NextAt(c: nat -> Block, k: nat) {
    c(k + 1) == Increment(c(k))
  }

  lemma AesCounts(rk: Schedule, iv: Block)
    ensures Drives(AesBlock(rk), Counters(iv), rk)
  {}

  /** The key stream block for counter `k`. */
  method EncryptCounter(rk: array<bv8>, ctr: array<bv8>, ks: array<bv8>, ghost e: Block -> Block,
                        ghost c: nat -> Block, ghost k: nat)
    requires rk.Length == 176 && ctr.Length == 16 && ks.Length == 16 && Drives(e, c, rk[..]) && ctr[..] == c(k)
    modifies ks
    ensures forall j :: 0 <= j < 16 ==> ks[j] == Pick(e, c, 16 * k + j)
  {
    Encrypt(ctr, ks, rk);
    assert EnciphersAt(e, rk[..], c(k));
    forall j | 0 <= j < 16 ensures ks[j] == Pick(e, c, 16 * k + j) {
      BlockOf(k, j);
    }
  }

  method NextCounter(ctr: array<bv8>, ghost e: Block -> Block, ghost c: nat -> Block, ghost k: nat, ghost rk: Schedule)
    requires ctr.Length == 16 && Drives(e, c, rk) && ctr[..] == c(k)
    modifies ctr
    ensures ctr[..] == c(k + 1)
  {
    IncrementInPlace(ctr);
    assert NextAt(c, k);
  }

  /** The first `done` bytes are output, the rest of `out` is as it was, and so is the input still to be read. */
  ghost predicate Streamed(e: Block -> Block, c: nat -> Block, out: Bytes, out0: Bytes, inp: Bytes, inp0: Bytes,
                           done: nat) {
    && done <= |out| == |out0| && done <= |inp| == |inp0|
    && (forall i :: 0 <= i < |out| ==> out[i] == if i < done then Xor(inp0[i], Pick(e, c, i)) else out0[i])
    && (forall i :: done <= i < |inp| ==> inp[i] == inp0[i])
  }

  /** The inner loop, for a whole or a last partial block. */
  method XorRange(inp: array<bv8>, ks: array<bv8>, out: array<bv8>, done: nat, n: nat, ghost e: Block -> Block,
                  ghost c: nat -> Block, ghost o: Bytes, ghost m: Bytes)
    requires n <= 16 == ks.Length && done + n <= inp.Length && done + n <= out.Length && ks != out && ks != inp
    requires Streamed(e, c, out[..], o, inp[..], m, done) && forall j :: 0 <= j < n ==> ks[j] == Pick(e, c, done + j)
    modifies out
    ensures Streamed(e, c, out[..], o, inp[..], m, done + n)
  {
    for j := 0 to n
      invariant Streamed(e, c, out[..], o, inp[..], m, done + j)
    {
      out[done + j] := Xor(inp[done + j], ks[j]);
    }
  }

  /** The body of the loop of `aes128_ctr`. */
  method OneBlock(rk: array<bv8>, ctr: array<bv8>, ks: array<bv8>, inp: array<bv8>, out: array<bv8>, done: nat, n: nat,
                  ghost e: Block -> Block, ghost c: nat -> Block, ghost k: nat, ghost o: Bytes, ghost m: Bytes)
    requires rk.Length == 176 && ctr.Length == ks.Length == 16 && n <= 16 && done + n <= inp.Length
    requires done + n <= out.Length
    requires out != rk && ks != rk && ctr != rk && ctr != out && ctr != inp && ks != out && ks != inp && ks != ctr
    requires Drives(e, c, rk[..]) && ctr[..] == c(k) && done == 16 * k && Streamed(e, c, out[..], o, inp[..], m, done)
    modifies out, ctr, ks
    ensures ctr[..] == c(k + 1) && Streamed(e, c, out[..], o, inp[..], m, done + n)
  {
    EncryptCounter(rk, ctr, ks, e, c, k);
    XorRange(inp, ks, out, done, n, e, c, o, m);
    NextCounter(ctr, e, c, k, rk[..]);
  }

  /** The loop of `aes128_ctr`. */
  method EachBlock(rk: array<bv8>, ctr: array<bv8>, inp: array<bv8>, out: array<bv8>, len: nat,
                   ghost e: Block -> Block, ghost c: nat -> Block)
    requires rk.Length == 176 && ctr.Length == 16 && len <= inp.Length && len <= out.Length
    requires Drives(e, c, rk[..]) && ctr[..] == c(0) && out != rk && ctr != rk && ctr != out && ctr != inp
    modifies out, ctr
    ensures out[..] == Combined(Xor, Keystream(e, c), old(inp[..len])) + old(out[len..])
  {
    ghost var o, m := out[..], inp[..];
    var ks := new bv8[16];
    var done := 0;
    ghost var k := 0;
    while done < len
      invariant 0 <= done <= len && (done < len ==> done == 16 * k)
      invariant ctr[..] == c(k)
      invariant Streamed(e, c, out[..], o, inp[..], m, done)
    {
      var n := if len - done < 16 then len - done else 16;
      OneBlock(rk, ctr, ks, inp, out, done, n, e, c, k, o, m);
      done := done + n;
      k := k + 1;
    }
    IsCombined(e, c, out[..], o, m, len);
  }

  lemma IsCombined(e: Block -> Block, c: nat -> Block, out: Bytes, o: Bytes, m: Bytes, len: nat)
    requires len <= |out| == |o| && len <= |m|
    requires forall i :: 0 <= i < |out| ==> out[i] == if i < len then Xor(m[i], Pick(e, c, i)) else o[i]
    ensures out == Combined(Xor, Keystream(e, c), m[..len]) + o[len..]
  {}
}
