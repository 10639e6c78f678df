/** Key derivation from HMAC-SHA1: PBKDF2 (`pbkdf2_sha1`) and the IEEE 802.11 PRF (`wpa2_prf_sha1`). */
module Kdf {
  import opened Machine
  import opened Streaming
  import opened Hashes
  import opened Hmac
  import opened CStrings

  // --------------------------------------------------------- output in blocks

  /** Numbered blocks of 20 bytes. */
  type Source = g: nat -> Bytes | Yields20(g) witness (i: nat) => Zeros(20)

  ghost predicate Yields20(g: nat -> Bytes) {
    forall i: nat :: |g(i)| == 20
  }

  /** The first `l` blocks, end to end. */
  function Blocks(g: Source, l: nat): (r: Bytes)
    ensures |r| == 20 * l
  {
    if l == 0 then [] else Blocks(g, l - 1) + g(l - 1)
  }

  /** The first `n` bytes: as many blocks as needed, the last one cut. */
  function Output(g: Source, n: nat): (r: Bytes)
    ensures |r| == n
  {
    Blocks(g, (n + 19) / 20)[..n]
  }

  lemma {:induction false} BlocksPrefix(g: Source, k: nat, l: nat)
    requires k <= l
    ensures Blocks(g, l)[..20 * k] == Blocks(g, k)
  {
    if k < l {
      BlocksPrefix(g, k, l - 1);
      assert Blocks(g, l)[..20 * k] == Blocks(g, l - 1)[..20 * k];
    }
  }

  /** The output for a shorter length is a prefix of the output for a longer one. */
  lemma PrefixStable(g: Source, m: nat, n: nat)
    requires m <= n
    ensures Output(g, n)[..m] == Output(g, m)
  {
    var k, l := (m + 19) / 20, (n + 19) / 20;
    BlocksPrefix(g, k, l);
    assert Blocks(g, l)[..m] == Blocks(g, l)[..20 * k][..m];
  }

  /** Appending a whole or a cut block. */
  lemma NextOutput(g: Source, k: nat, cp: nat)
    requires cp <= 20
    ensures Output(g, 20 * k + cp) == Output(g, 20 * k) + g(k)[..cp]
  {
    BlocksPrefix(g, k, k + 1);
    assert Blocks(g, k + 1)[..20 * k + cp] == Blocks(g, k) + g(k)[..cp];
    assert Output(g, 20 * k) == Blocks(g, k);
    if cp == 0 {
      assert g(k)[..0] == [];
    }
  }

  lemma OutputByte(g: Source, n: nat, i: nat, k: nat)
    requires k < 20 && 20 * i + k < n
    ensures Output(g, n)[20 * i + k] == g(i)[k]
  {
    var l := (n + 19) / 20;
    BlocksPrefix(g, i + 1, l);
    assert Blocks(g, l)[20 * i + k] == Blocks(g, i + 1)[20 * i + k];
  }

  // ------------------------------------------------------------------ PBKDF2

  /** A keyed function to 20 bytes. */
  type Prf = p: Bytes -> Bytes | Gives20(p) witness (m: Bytes) => Zeros(20)

  ghost predicate Gives20(p: Bytes -> Bytes) {
    forall m :: |p(m)| == 20
  }

  function XorBytes(a: Bytes, b: Bytes): (r: Bytes)
    requires |a| == |b|
    ensures |r| == |a|
  {
    seq(|a|, i requires 0 <= i < |a| => ByteXor(a[i], b[i]))
  }

  /** The keyed function iterated `j` times more on its value at `s`. */
  function Iterated(p: Prf, s: Bytes, j: nat): (u: Bytes)
    ensures |u| == 20
  {
    if j == 0 then p(s) else p(Iterated(p, s, j - 1))
  }

  /** The exclusive-or of the first `c` iterates (RFC 8018 section 5.2); one iterate at least. */
  function XorOfIterates(p: Prf, s: Bytes, c: int): (t: Bytes)
    ensures |t| == 20
    decreases c
  {
    if c <= 1 then Iterated(p, s, 0) else XorBytes(XorOfIterates(p, s, c - 1), Iterated(p, s, c - 1))
  }

  /** The blocks of PBKDF2; the first is numbered 1. */
  function PbkdfBlock(p: Prf, salt: Bytes, c: int): Source {
    (i: nat) => XorOfIterates(p, salt + BigEndian(i + 1, 4), c)
  }

  function HmacUnder(f: BlockFunction, key: Bytes): Prf {
    (m: Bytes) => HmacSha1(f, key, m)
  }

  function Pbkdf2(f: BlockFunction, pass: Bytes, salt: Bytes, c: int, n: nat): (r: Bytes)
    ensures |r| == n
  {
    Output(PbkdfBlock(HmacUnder(f, pass), salt, c), n)
  }

  /** Byte `k` of each string, exclusive-or. */
  function XorColumn(us: seq<Bytes>, k: nat): byte
    requires us != [] && forall u :: u in us ==> k < |u|
  {
    var n := |us| - 1;
    if n == 0 then us[0][k] else ByteXor(XorColumn(us[..n], k), us[n][k])
  }

  /** U_1 is the HMAC of the first message, U_(j+1) that of U_j. */
  ghost predicate HmacChain(f: BlockFunction, pass: Bytes, first: Bytes, us: seq<Bytes>) {
    && us != [] && us[0] == HmacSha1(f, pass, first)
    && forall j :: 0 < j < |us| ==> us[j] == HmacSha1(f, pass, us[j - 1])
  }

  ghost predicate Chain(p: Prf, first: Bytes, us: seq<Bytes>) {
    us != [] && us[0] == p(first) && forall j :: 0 < j < |us| ==> us[j] == p(us[j - 1])
  }

  /**
    RFC 8018 section 5.2: block `i`, counted from 1, is U_1 ^ ... ^ U_c, the first message being the salt and the number
    of the block in four big-endian bytes.
   */
  lemma Pbkdf2Meaning(f: BlockFunction, pass: Bytes, salt: Bytes, c: nat, n: nat, i: nat, k: nat, us: seq<Bytes>)
    requires k < 20 && 20 * i + k < n && |us| == c && HmacChain(f, pass, salt + BigEndian(i + 1, 4), us)
    ensures (forall u :: u in us ==> |u| == 20) && Pbkdf2(f, pass, salt, c, n)[20 * i + k] == XorColumn(us, k)
  {
    ChainIterates(HmacUnder(f, pass), salt + BigEndian(i + 1, 4), us, k);
    PbkdfByte(HmacUnder(f, pass), salt, c, n, i, k);
  }

  lemma PbkdfByte(p: Prf, salt: Bytes, c: int, n: nat, i: nat, k: nat)
    requires k < 20 && 20 * i + k < n
    ensures Output(PbkdfBlock(p, salt, c), n)[20 * i + k] == XorOfIterates(p, salt + BigEndian(i + 1, 4), c)[k]
  {
    OutputByte(PbkdfBlock(p, salt, c), n, i, k);
  }

  lemma {:induction false} ChainIterates(p: Prf, first: Bytes, us: seq<Bytes>, k: nat)
    requires Chain(p, first, us) && k < 20
    ensures (forall u :: u in us ==> |u| == 20) && us[|us| - 1] == Iterated(p, first, |us| - 1)
    ensures XorOfIterates(p, first, |us|)[k] == XorColumn(us, k)
    decreases |us|
  {
    var c := |us|;
    if c > 1 {
      var front := us[..c - 1];
      ChainIterates(p, first, front, k);
      assert us == front + [us[c - 1]];
    }
  }

  ghost predicate IsHmac(p: Prf, f: BlockFunction, key: Bytes) {
    forall m :: IsHmacAt(p, f, key, m)
  }

  predicate IsHmacAt(p: Prf, f: BlockFunction, key: Bytes, m: Bytes) {
    p(m) == HmacSha1(f, key, m)
  }

  lemma UnderIsHmac(f: BlockFunction, key: Bytes)
    ensures IsHmac(HmacUnder(f, key), f, key)
  {}

  /** `hmac_sha1` under a fixed key; `out` may be `msg`. */
  method Apply(f: BlockFunction, key: Bytes, msg: array<byte>, mlen: nat, out: array<byte>, ghost p: Prf)
    requires mlen <= msg.Length && out.Length == 20 && IsHmac(p, f, key)
    modifies out
    ensures out[..] == p(old(msg[..mlen]))
  {
    ghost var m := msg[..mlen];
    ComputeHmac(f, key, msg, mlen, out);
    assert IsHmacAt(p, f, key, m);
  }

  /** The iterates of one block, with `u` hashed onto itself. */
  method IterateHmac(f: BlockFunction, pass: Bytes, s2: array<byte>, slen: nat, iter: int, ghost p: Prf)
    returns (t: array<byte>)
    requires slen <= s2.Length && IsHmac(p, f, pass)
    ensures fresh(t) && t[..] == XorOfIterates(p, s2[..slen], iter)
  {
    ghost var s := s2[..slen];
    var u;
    u, t := FirstIterate(f, pass, s2, slen, p);
    var i := 1;
    while i < iter
      invariant 1 <= i && (i <= iter || i == 1) && s2[..slen] == s
      invariant u[..] == Iterated(p, s, i - 1) && t[..] == XorOfIterates(p, s, i)
    {
      NextIterate(f, pass, u, t, p, s, i);
      i := i + 1;
    }
  }

  method FirstIterate(f: BlockFunction, pass: Bytes, s2: array<byte>, slen: nat, ghost p: Prf)
    returns (u: array<byte>, t: array<byte>)
    requires slen <= s2.Length && IsHmac(p, f, pass)
    ensures fresh(u) && fresh(t) && u != t && u.Length == 20 && t.Length == 20
    ensures u[..] == Iterated(p, s2[..slen], 0) && t[..] == XorOfIterates(p, s2[..slen], 1)
  {
    u := new byte[20];
    Apply(f, pass, s2, slen, u, p);
    t := new byte[20];
    CopyOut(u, t, 0, 20);
    assert t[..] == u[..];
  }

  method NextIterate(f: BlockFunction, pass: Bytes, u: array<byte>, t: array<byte>, ghost p: Prf, ghost s: Bytes,
                     ghost i: nat)
    requires u.Length == 20 && t.Length == 20 && u != t && IsHmac(p, f, pass) && i >= 1
    requires u[..] == Iterated(p, s, i - 1) && t[..] == XorOfIterates(p, s, i)
    modifies u, t
    ensures u[..] == Iterated(p, s, i) && t[..] == XorOfIterates(p, s, i + 1)
  {
    assert u[..20] == u[..];
    Apply(f, pass, u, 20, u, p);
    XorInto(t, u);
  }

  method XorInto(t: array<byte>, u: array<byte>)
    requires t.Length == u.Length && t != u
    modifies t
    ensures t[..] == XorBytes(old(t[..]), u[..])
  {
    for j := 0 to t.Length
      invariant forall i :: 0 <= i < t.Length ==> t[i] == if i < j then ByteXor(old(t[i]), u[i]) else old(t[i])
    {
      t[j] := ByteXor(t[j], u[j]);
    }
  }

  /** The salt and the block number in the buffer `s2`. */
  method LoadSalt(salt: Bytes, blk: nat, s2: array<byte>)
    requires |salt| + 4 <= s2.Length
    modifies s2
    ensures s2[..|salt| + 4] == salt + BigEndian(blk, 4)
  {
    for j := 0 to |salt|
      invariant s2[..j] == salt[..j]
    {
      s2[j] := salt[j];
    }
    var n := |salt|;
    s2[n], s2[n + 1], s2[n + 2], s2[n + 3] :=
      blk / 0x100_0000 % 256, blk / 0x1_0000 % 256, blk / 0x100 % 256, blk % 256;
    FourBytes(blk);
    assert s2[..n + 4] == s2[..n] + [s2[n], s2[n + 1], s2[n + 2], s2[n + 3]];
  }

  lemma FourBytes(n: nat)
    ensures BigEndian(n, 4) == [n / 0x100_0000 % 256, n / 0x1_0000 % 256, n / 0x100 % 256, n % 256]
  {
    var a, b, c := n / 256, n / 256 / 256, n / 256 / 256 / 256;
    assert BigEndian(c, 1) == [c % 256];
    assert BigEndian(b, 2) == [c % 256, b % 256];
    assert BigEndian(a, 3) == [c % 256, b % 256, a % 256];
  }

  /** Copy at most a block to the output. */
  method CopyOut(t: array<byte>, out: array<byte>, done: nat, cp: nat)
    requires cp <= t.Length && done + cp <= out.Length && t != out
    modifies out
    ensures out[..done + cp] == old(out[..done]) + t[..cp] && out[done + cp..] == old(out[done + cp..])
  {
    for j := 0 to cp
      invariant out[..done + j] == old(out[..done]) + t[..j] && out[done + j..] == old(out[done + j..])
    {
      out[done + j] := t[j];
    }
  }

  /** `pbkdf2_sha1`: the password is a C string, the salt fits the 68-byte buffer. */
  method Pbkdf2Sha1(f: BlockFunction, pass: Bytes, salt: Bytes, iter: int, out: array<byte>, olen: int)
    requires 0 in pass && |salt| <= 64 && olen <= out.Length
    modifies out
    ensures var n := if olen < 0 then 0 else olen;
            out[..] == Pbkdf2(f, UpToNul(pass), salt, iter, n) + old(out[n..])
  {
    var pl := StrLen(pass);
    var key := pass[..pl];
    ghost var p := HmacUnder(f, key);
    UnderIsHmac(f, key);
    BlockIsPbkdf(p, salt, iter);
    EachPbkdfBlock(f, key, salt, iter, out, olen, p, PbkdfBlock(p, salt, iter));
  }

  method OnePbkdfBlock(f: BlockFunction, pass: Bytes, salt: Bytes, blk: nat, iter: int, ghost p: Prf)
    returns (t: array<byte>)
    requires |salt| <= 64 && blk >= 1 && IsHmac(p, f, pass)
    ensures fresh(t) && t[..] == XorOfIterates(p, salt + BigEndian(blk, 4), iter)
  {
    var s2 := new byte[68];
    LoadSalt(salt, blk, s2);
    t := IterateHmac(f, pass, s2, |salt| + 4, iter, p);
  }

  ghost predicate IsPbkdf(g: Source, p: Prf, salt: Bytes, c: int) {
    forall i: nat :: IsPbkdfAt(g, p, salt, c, i)
  }

  predicate IsPbkdfAt(g: Source, p: Prf, salt: Bytes, c: int, i: nat) {
    g(i) == XorOfIterates(p, salt + BigEndian(i + 1, 4), c)
  }

  lemma BlockIsPbkdf(p: Prf, salt: Bytes, c: int)
    ensures IsPbkdf(PbkdfBlock(p, salt, c), p, salt, c)
  {}

  /** The loop of `pbkdf2_sha1`. */
  method EachPbkdfBlock(f: BlockFunction, pass: Bytes, salt: Bytes, iter: int, out: array<byte>, olen: int,
                        ghost p: Prf, ghost g: Source)
    requires |salt| <= 64 && olen <= out.Length && IsHmac(p, f, pass) && IsPbkdf(g, p, salt, iter)
    modifies out
    ensures Progress(g, out[..], old(out[..]), if olen < 0 then 0 else olen)
  {
    var blk, done := 1, 0;
    NoProgress(g, out[..]);
    while done < olen
      invariant 0 <= done && (done <= olen || done == 0) && blk >= 1 && (done < olen ==> done == 20 * (blk - 1))
      invariant Progress(g, out[..], old(out[..]), done)
    {
      var t := OnePbkdfBlock(f, pass, salt, blk, iter, p);
      assert IsPbkdfAt(g, p, salt, iter, blk - 1);
      done := Extend(t, out, done, olen, g, blk - 1, old(out[..]));
      blk := blk + 1;
    }
  }

  /** The first `done` bytes of `out` are output, the others are as they were. */
  ghost predicate Progress(g: Source, out: Bytes, before: Bytes, done: nat) {
    done <= |before| && out == Output(g, done) + before[done..]
  }

  lemma NoProgress(g: Source, out: Bytes)
    ensures Progress(g, out, out, 0)
  {}

  /** A whole or a cut block copied to the output. */
  method Extend(t: array<byte>, out: array<byte>, done: nat, olen: nat, ghost g: Source, ghost k: nat,
                ghost before: Bytes)
    returns (done': nat)
    requires t.Length == 20 && t[..] == g(k) && t != out && done == 20 * k < olen <= out.Length == |before|
    requires Progress(g, out[..], before, done)
    modifies out
    ensures done < done' <= olen && (done' < olen ==> done' == done + 20) && Progress(g, out[..], before, done')
  {
    var cp := if olen - done < 20 then olen - done else 20;
    NextOutput(g, k, cp);
    CopyOut(t, out, done, cp);
    assert out[..] == out[..done + cp] + out[done + cp..];
    done' := done + cp;
  }

  // ------------------------------------------------------- the IEEE 802.11 PRF

  /** What is hashed for a block: the label with its NUL, the data, a one-byte counter. */
  function PrfMessage(lab: Bytes, data: Bytes, i: nat): Bytes {
    lab + [0] + data + [i % 256]
  }

  /** Blocks of IEEE 802.11-2016 section 12.7.1.2. */
  function PrfBlock(f: BlockFunction, key: Bytes, lab: Bytes, data: Bytes): Source {
    (i: nat) => HmacSha1(f, key, PrfMessage(lab, data, i))
  }

  function PrfSha1(f: BlockFunction, key: Bytes, lab: Bytes, data: Bytes, n: nat): (r: Bytes)
    ensures |r| == n
  {
    Output(PrfBlock(f, key, lab, data), n)
  }

  /** The one-byte counter gives 256 different messages and then starts over. */
  lemma PrfCounter(lab: Bytes, data: Bytes, i: nat, j: nat)
    ensures PrfMessage(lab, data, i) == PrfMessage(lab, data, j) <==> i % 256 == j % 256
  {
    var p := lab + [0] + data;
    assert PrfMessage(lab, data, i)[|p|] == i % 256 && PrfMessage(lab, data, j)[|p|] == j % 256;
  }

  /** Byte `20 i + k` is byte `k` of the HMAC of the label, a zero, the data and the counter `i` in one byte. */
  lemma PrfMeaning(f: BlockFunction, key: Bytes, lab: Bytes, data: Bytes, n: nat, i: nat, k: nat)
    requires k < 20 && 20 * i + k < n
    ensures PrfSha1(f, key, lab, data, n)[20 * i + k] == HmacSha1(f, key, lab + [0] + data + [i % 256])[k]
  {
    OutputByte(PrfBlock(f, key, lab, data), n, i, k);
  }

  ghost predicate IsPrf(g: Source, f: BlockFunction, key: Bytes, lab: Bytes, data: Bytes) {
    forall i: nat :: IsPrfAt(g, f, key, lab, data, i)
  }

  predicate IsPrfAt(g: Source, f: BlockFunction, key: Bytes, lab: Bytes, data: Bytes, i: nat) {
    g(i) == HmacSha1(f, key, PrfMessage(lab, data, i))
  }

  lemma BlockIsPrf(f: BlockFunction, key: Bytes, lab: Bytes, data: Bytes)
    ensures IsPrf(PrfBlock(f, key, lab, data), f, key, lab, data)
  {}

  /** Copy bytes into a buffer at a position. */
  method Put(buf: array<byte>, at: nat, s: Bytes)
    requires at + |s| <= buf.Length
    modifies buf
    ensures buf[..at + |s|] == old(buf[..at]) + s
  {
    for j := 0 to |s|
      invariant buf[..at + j] == old(buf[..at]) + s[..j]
    {
      buf[at + j] := s[j];
    }
  }

  method OnePrfBlock(f: BlockFunction, key: Bytes, lab: Bytes, data: Bytes, counter: byte, ghost i: nat,
                     ghost g: Source)
    returns (dig: array<byte>)
    requires |lab| + |data| + 2 <= 160 && counter == i % 256 && IsPrf(g, f, key, lab, data)
    ensures fresh(dig) && dig[..] == g(i)
  {
    var buf := new byte[160];
    Put(buf, 0, lab + [0]);
    Put(buf, |lab| + 1, data);
    var k := |lab| + 1 + |data|;
    Put(buf, k, [counter]);
    assert buf[..k + 1] == PrfMessage(lab, data, i);
    dig := new byte[20];
    ComputeHmac(f, key, buf, k + 1, dig);
    assert IsPrfAt(g, f, key, lab, data, i);
  }

  /** `wpa2_prf_sha1`: the label is a C string, and the message fits the 160-byte buffer. */
  method Wpa2Prf(f: BlockFunction, key: Bytes, lab: Bytes, data: Bytes, out: array<byte>, olen: nat)
    requires 0 in lab && |UpToNul(lab)| + |data| + 2 <= 160 && olen <= out.Length
    modifies out
    ensures out[..] == PrfSha1(f, key, UpToNul(lab), data, olen) + old(out[olen..])
  {
    var n := StrLen(lab);
    BlockIsPrf(f, key, lab[..n], data);
    EachPrfBlock(f, key, lab[..n], data, out, olen, PrfBlock(f, key, lab[..n], data));
  }

  lemma NextCounter(i: nat)
    ensures (i % 256 + 1) % 256 == (i + 1) % 256
  {}

  /** The loop of `wpa2_prf_sha1`. */
  method EachPrfBlock(f: BlockFunction, key: Bytes, lab: Bytes, data: Bytes, out: array<byte>, olen: nat,
                      ghost g: Source)
    requires |lab| + |data| + 2 <= 160 && olen <= out.Length && IsPrf(g, f, key, lab, data)
    modifies out
    ensures Progress(g, out[..], old(out[..]), olen)
  {
    var pos: nat, counter: byte := 0, 0;
    ghost var i := 0;
    NoProgress(g, out[..]);
    while pos < olen
      invariant pos <= olen && (pos < olen ==> pos == 20 * i) && counter == i % 256
      invariant Progress(g, out[..], old(out[..]), pos)
    {
      var dig := OnePrfBlock(f, key, lab, data, counter, i, g);
      pos := Extend(dig, out, pos, olen, g, i, old(out[..]));
      NextCounter(i);
      counter, i := (counter as int + 1) % 256, i + 1;
    }
  }
}
