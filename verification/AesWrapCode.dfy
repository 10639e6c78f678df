/** The register code of `aes_key_wrap` and `aes_key_unwrap`. */
module AesWrapCode {
  import opened AesColumns
  import opened Aes
  import opened AesKeys
  import opened AesCode
  import opened KeyWrap
  import opened AesWrap
  import opened ModArith

  const MAX_N := 8

  /** The buffers `A` and `R` hold the registers; `R` is flat. */
  ghost predicate Hold(a: array<bv8>, r: array<bv8>, s: Registers<Half>)
    reads a, r
  {
    a[..] == s.a && r[..] == Flat(s.r)
  }

  lemma FlatSlice(h: seq<Half>, i: nat)
    requires i < |h|
    ensures 8 * i + 8 <= |Flat(h)| && Flat(h)[8 * i..8 * i + 8] == h[i]
  {
    forall k | 0 <= k < 8 ensures Flat(h)[8 * i + k] == h[i][k] {
      EighthOf(i, k);
    }
  }

  lemma FlatUpdate(h: seq<Half>, i: nat, q: Half)
    requires i < |h|
    ensures Flat(h[i := q]) == Flat(h)[..8 * i] + q + Flat(h)[8 * i + 8..]
  {
    var f, g := Flat(h), Flat(h[i := q]);
    forall k | 0 <= k < |g| ensures g[k] == if 8 * i <= k < 8 * i + 8 then q[k - 8 * i] else f[k] {
      if 8 * i <= k < 8 * i + 8 {
        EighthOf(i, k - 8 * i);
      }
    }
  }

  lemma EighthOf(i: nat, k: nat)
    requires k < 8
    ensures (8 * i + k) / 8 == i && (8 * i + k) % 8 == k
  {}

  /** The exclusive-or of the counter into the first eight bytes of a buffer, from the low end. */
  method MixCounter(a: array<bv8>, t: nat)
    requires a.Length >= 8
    modifies a
    ensures a[..8] == XorCounter(old(a[..8]), t) && a[8..] == old(a[8..])
  {
    ghost var h := a[..];
    for b := 0 to 8
      invariant forall k :: 0 <= k < 8 ==> a[k] == if 7 - k < b then Xor(h[k], CounterByte(t, 7 - k)) else h[k]
      invariant forall k :: 8 <= k < a.Length ==> a[k] == h[k]
    {
      a[7 - b] := Xor(a[7 - b], CounterByte(t, b));
    }
  }

  /** `ememcpy` between separate buffers. */
  method CopyBytes(src: array<bv8>, i: nat, dst: array<bv8>, j: nat, n: nat)
    requires i + n <= src.Length && j + n <= dst.Length && src != dst
    modifies dst
    ensures dst[..] == old(dst[..j]) + src[i..i + n] + old(dst[j + n..])
  {
    for b := 0 to n
      invariant forall k :: 0 <= k < dst.Length ==> dst[k] == if j <= k < j + b then src[i + k - j] else old(dst[k])
    {
      dst[j + b] := src[i + b];
    }
  }

  /** `A` and one register side by side. */
  method Join(a: array<bv8>, r: array<bv8>, i: nat, blk: array<bv8>, ghost s: Registers<Half>)
    requires i < |s.r| && blk.Length == 16 && blk != a && blk != r && Hold(a, r, s)
    modifies blk
    ensures blk[..] == s.a + s.r[i]
  {
    FlatSlice(s.r, i);
    CopyBytes(a, 0, blk, 0, 8);
    CopyBytes(r, 8 * i, blk, 8, 8);
  }

  /** The first half of a block goes into `A`, the second into a register. */
  method Split(blk: array<bv8>, a: array<bv8>, r: array<bv8>, i: nat, ghost s: Registers<Half>, ghost p: Half,
               ghost q: Half)
    requires i < |s.r| && blk.Length == 16 && a != r && blk != a && blk != r && Hold(a, r, s) && blk[..] == p + q
    modifies a, r
    ensures Hold(a, r, Registers(p, s.r[i := q]))
  {
    FlatSlice(s.r, i);
    FlatUpdate(s.r, i, q);
    CopyBytes(blk, 0, a, 0, 8);
    CopyBytes(blk, 8, r, 8 * i, 8);
  }

  /** The buffers are apart, and `w` is the cipher under the round keys. */
  ghost predicate Ready(a: array<bv8>, r: array<bv8>, rk: array<bv8>, w: Wrapping<Half>)
    reads rk
  {
    a.Length == 8 && rk.Length == 176 && a != r && a != rk && r != rk && Realizes(w, rk[..])
  }

  /** The body of the inner loop of `aes_key_wrap`. */
  method WrapOne(a: array<bv8>, r: array<bv8>, rk: array<bv8>, i: nat, t: nat, ghost w: Wrapping<Half>,
                 ghost s: Registers<Half>)
    requires Ready(a, r, rk, w) && Hold(a, r, s) && 1 <= i <= |s.r| && t >= 1 && (t - 1) % |s.r| == i - 1
    modifies a, r
    ensures Hold(a, r, WrapStep(w, s, t))
  {
    var blk, enc := new bv8[16], new bv8[16];
    ghost var p, q := EncryptedHalves(rk[..], s.a, s.r[i - 1], t, w);
    Join(a, r, i - 1, blk, s);
    Encrypt(blk, enc, rk);
    Split(enc, a, r, i - 1, s, p, q);
    MixInto(a, r, Registers(p, s.r[i - 1 := q]), t, rk[..], w);
  }

  lemma EncryptedHalves(rk: Schedule, x: Half, y: Half, t: nat, w: Wrapping<Half>) returns (p: Half, q: Half)
    requires Realizes(w, rk)
    ensures Cipher(rk, x + y) == p + q && w.enc(x, y) == (p, q)
  {
    assert RealizesAt(w, rk, x, y, t);
    p, q := Cipher(rk, x + y)[..8], Cipher(rk, x + y)[8..];
  }

  lemma DecryptedHalves(rk: Schedule, x: Half, y: Half, t: nat, w: Wrapping<Half>) returns (p: Half, q: Half)
    requires Realizes(w, rk)
    ensures InvCipher(rk, x + y) == p + q && w.dec(x, y) == (p, q)
  {
    assert RealizesAt(w, rk, x, y, t);
    p, q := InvCipher(rk, x + y)[..8], InvCipher(rk, x + y)[8..];
  }

  method MixInto(a: array<bv8>, r: array<bv8>, ghost s: Registers<Half>, t: nat, ghost rk: Schedule,
                 ghost w: Wrapping<Half>)
    requires a != r && Hold(a, r, s) && Realizes(w, rk)
    modifies a
    ensures Hold(a, r, Registers(w.tweak(s.a, t), s.r))
  {
    assert a[..8] == s.a;
    MixCounter(a, t);
    assert RealizesAt(w, rk, s.a, s.a, t);
    assert a[..8] == a[..];
  }

  /** The body of the inner loop of `aes_key_unwrap`. */
  method UnwrapOne(a: array<bv8>, r: array<bv8>, rk: array<bv8>, i: nat, t: nat, ghost w: Wrapping<Half>,
                   ghost s: Registers<Half>)
    requires Ready(a, r, rk, w) && Hold(a, r, s) && 1 <= i <= |s.r| && t >= 1 && (t - 1) % |s.r| == i - 1
    modifies a, r
    ensures Hold(a, r, UnwrapStep(w, s, t))
  {
    var blk, dec := new bv8[16], new bv8[16];
    ghost var x := w.tweak(s.a, t);
    ghost var p, q := DecryptedHalves(rk[..], x, s.r[i - 1], t, w);
    Join(a, r, i - 1, blk, s);
    MixBlock(blk, s.a, s.r[i - 1], t, rk[..], w);
    Decrypt(blk, dec, rk);
    Split(dec, a, r, i - 1, s, p, q);
  }

  method MixBlock(blk: array<bv8>, ghost x: Half, ghost y: Half, t: nat, ghost rk: Schedule, ghost w: Wrapping<Half>)
    requires blk.Length == 16 && blk[..] == x + y && Realizes(w, rk)
    modifies blk
    ensures blk[..] == w.tweak(x, t) + y
  {
    assert blk[..8] == x && blk[8..] == y;
    MixCounter(blk, t);
    assert RealizesAt(w, rk, x, y, t);
    assert blk[..] == blk[..8] + blk[8..];
  }

  lemma RegisterIndex(n: nat, j: nat, i: nat)
    requires 1 <= i <= n
    ensures n * j + i >= 1 && (n * j + i - 1) % n == i - 1
  {
    DivUnique(n * j + i - 1, j, i - 1, n);
  }

  lemma NextPass(n: nat, j: nat)
    ensures n * (j + 1) == n * j + n
  {}

  method WrapRound(a: array<bv8>, r: array<bv8>, rk: array<bv8>, n: nat, j: nat, ghost w: Wrapping<Half>,
                   ghost start: Registers<Half>, ghost t: nat)
    requires Ready(a, r, rk, w) && n == |start.r| > 0 && t == n * j && Hold(a, r, WrapSteps(w, start, t))
    modifies a, r
    ensures Hold(a, r, WrapSteps(w, start, t + n))
  {
    for i := 1 to n + 1
      invariant Hold(a, r, WrapSteps(w, start, t + i - 1))
    {
      RegisterIndex(n, j, i);
      var step := n * j + i;
      assert step == t + i;
      WrapOne(a, r, rk, i, step, w, WrapSteps(w, start, t + i - 1));
    }
  }

  method UnwrapRound(a: array<bv8>, r: array<bv8>, rk: array<bv8>, n: nat, j: nat, ghost w: Wrapping<Half>,
                     ghost s: Registers<Half>, ghost goal: Registers<Half>, ghost t: nat)
    returns (ghost s': Registers<Half>)
    requires Ready(a, r, rk, w) && n == |s.r| > 0 && t == n * j && Hold(a, r, s)
    requires UnwrapSteps(w, s, t + n) == goal
    modifies a, r
    ensures |s'.r| == n && Hold(a, r, s') && UnwrapSteps(w, s', t) == goal
  {
    s' := s;
    for k := n downto 0
      invariant |s'.r| == n && Hold(a, r, s') && UnwrapSteps(w, s', t + k) == goal
    {
      RegisterIndex(n, j, k + 1);
      var step := n * j + k + 1;
      assert step == t + k + 1;
      UnwrapOne(a, r, rk, k + 1, step, w, s');
      s' := UnwrapStep(w, s', step);
    }
  }

  /** The six passes over the registers. */
  method WrapRounds(a: array<bv8>, r: array<bv8>, rk: array<bv8>, n: nat, ghost w: Wrapping<Half>,
                    ghost s: Registers<Half>)
    requires Ready(a, r, rk, w) && n == |s.r| > 0 && Hold(a, r, s)
    modifies a, r
    ensures Hold(a, r, WrapSteps(w, s, 6 * n))
  {
    ghost var t: nat := 0;
    for j := 0 to 6
      invariant t == n * j && Hold(a, r, WrapSteps(w, s, t))
    {
      WrapRound(a, r, rk, n, j, w, s, t);
      NextPass(n, j);
      t := t + n;
    }
  }

  method UnwrapRounds(a: array<bv8>, r: array<bv8>, rk: array<bv8>, n: nat, ghost w: Wrapping<Half>,
                      ghost s: Registers<Half>)
    requires Ready(a, r, rk, w) && n == |s.r| > 0 && Hold(a, r, s)
    modifies a, r
    ensures Hold(a, r, UnwrapSteps(w, s, 6 * n))
  {
    ghost var goal, s', t := UnwrapSteps(w, s, 6 * n), s, 6 * n;
    for j := 6 downto 0
      invariant |s'.r| == n && t == n * j && Hold(a, r, s') && UnwrapSteps(w, s', t) == goal
    {
      t := t - n;
      NextPass(n, j);
      s' := UnwrapRound(a, r, rk, n, j, w, s', goal, t);
    }
  }

  // ---------------------------------------------------------------- entry points

  lemma AesRealizes(rk: Schedule)
    ensures Realizes(AesWrapping(rk), rk)
  {}

  /** The loops of `aes_key_wrap`, under the expanded key. */
  method WrapHeld(kek: array<bv8>, a: array<bv8>, r: array<bv8>, n: nat, ghost p: seq<Half>)
    requires kek.Length == 16 && a.Length == 8 && a != r && a != kek && r != kek
    requires n == |p| > 0 && Hold(a, r, Registers(IV, p))
    modifies a, r
    ensures Hold(a, r, Wrap(AesWrapping(Expanded(kek[..])), IV, p))
  {
    var rk := new bv8[176];
    Expand(kek, rk);
    AesRealizes(rk[..]);
    WrapRounds(a, r, rk, n, AesWrapping(rk[..]), Registers(IV, p));
  }

  /** The loops of `aes_key_unwrap`, under the expanded key. */
  method UnwrapHeld(kek: array<bv8>, a: array<bv8>, r: array<bv8>, n: nat, ghost s: Registers<Half>)
    requires kek.Length == 16 && a.Length == 8 && a != r && a != kek && r != kek
    requires n == |s.r| > 0 && Hold(a, r, s)
    modifies a, r
    ensures Hold(a, r, UnwrapSteps(AesWrapping(Expanded(kek[..])), s, 6 * n))
  {
    var rk := new bv8[176];
    Expand(kek, rk);
    AesRealizes(rk[..]);
    UnwrapRounds(a, r, rk, n, AesWrapping(rk[..]), s);
  }

  method IsIV(a: array<bv8>) returns (ok: bool)
    requires a.Length == 8
    ensures ok <==> a[..] == IV
  {
    ok := true;
    for i := 0 to 8
      invariant ok <==> forall j :: 0 <= j < i ==> a[j] == IV[j]
    {
      if a[i] != 0xA6 {
        ok := false;
      }
    }
  }

  /** `aes_key_wrap`. `out` may be `kdata`; nothing is written when `n` is out of range. */
  method AesKeyWrap(kek: array<bv8>, kdata: array<bv8>, n: int, out: array<bv8>)
    requires kek.Length == 16 && (1 <= n <= MAX_N ==> kdata.Length >= 8 * n && out.Length >= 8 * n + 8)
    modifies out
    ensures !(1 <= n <= MAX_N) ==> out[..] == old(out[..])
    ensures 1 <= n <= MAX_N ==>
      out[..8 * n + 8] == WrapBytes(old(kek[..]), old(kdata[..8 * n])) && out[8 * n + 8..] == old(out[8 * n + 8..])
  {
    if n < 1 || n > MAX_N {
      return;
    }
    var a, r := WrapLoaded(kek, kdata, n);
    CopyBytes(a, 0, out, 0, 8);
    CopyBytes(r, 0, out, 8, 8 * n);
  }

  /** `aes_key_wrap` for a length in range, up to the output. */
  method WrapLoaded(kek: array<bv8>, kdata: array<bv8>, n: nat) returns (a: array<bv8>, r: array<bv8>)
    requires kek.Length == 16 && n >= 1 && kdata.Length >= 8 * n
    ensures fresh(a) && fresh(r) && a.Length == 8 && r.Length == 8 * n
    ensures a[..] + r[..] == WrapBytes(kek[..], kdata[..8 * n])
  {
    a := new bv8[8](i => 0xA6);
    r := new bv8[8 * n];
    CopyBytes(kdata, 0, r, 0, 8 * n);
    assert r[..] == kdata[..8 * n];
    FlatHalves(kdata[..8 * n]);
    assert a[..] == IV;
    WrapHeld(kek, a, r, n, Halves(kdata[..8 * n]));
  }

  /** `aes_key_unwrap`. `out` may be `inp`; the result is 0 and nothing is written when `n` is out of range. */
  method AesKeyUnwrap(kek: array<bv8>, inp: array<bv8>, n: int, out: array<bv8>) returns (ok: bool)
    requires kek.Length == 16 && (1 <= n <= MAX_N ==> inp.Length >= 8 * n + 8 && out.Length >= 8 * n)
    modifies out
    ensures !(1 <= n <= MAX_N) ==> !ok && out[..] == old(out[..])
    ensures 1 <= n <= MAX_N ==>
      (ok, out[..8 * n]) == UnwrapBytes(old(kek[..]), old(inp[..8 * n + 8])) && out[8 * n..] == old(out[8 * n..])
  {
    if n < 1 || n > MAX_N {
      return false;
    }
    var r;
    ok, r := UnwrapLoaded(kek, inp, n);
    assert r[0..8 * n] == r[..];
    CopyBytes(r, 0, out, 0, 8 * n);
    assert out[..8 * n] == r[..];
  }

  /** `A` and `R` loaded from a wrapping. */
  method LoadRegisters(inp: array<bv8>, n: nat) returns (a: array<bv8>, r: array<bv8>)
    requires inp.Length >= 8 * n + 8
    ensures fresh(a) && fresh(r) && a != r && a.Length == 8 && Hold(a, r, FromBytes(inp[..8 * n + 8]))
  {
    a, r := new bv8[8], new bv8[8 * n];
    CopyBytes(inp, 0, a, 0, 8);
    CopyBytes(inp, 8, r, 0, 8 * n);
    ghost var c := inp[..8 * n + 8];
    assert a[..] == c[..8] && r[..] == c[8..];
    FlatHalves(c[8..]);
  }

  /** `aes_key_unwrap` for a length in range, up to the output. */
  method UnwrapLoaded(kek: array<bv8>, inp: array<bv8>, n: nat) returns (ok: bool, r: array<bv8>)
    requires kek.Length == 16 && n >= 1 && inp.Length >= 8 * n + 8
    ensures fresh(r) && r.Length == 8 * n && UnwrapBytes(kek[..], inp[..8 * n + 8]) == (ok, r[..])
  {
    var a;
    a, r := LoadRegisters(inp, n);
    UnwrapHeld(kek, a, r, n, FromBytes(inp[..8 * n + 8]));
    ok := IsIV(a);
  }
}
