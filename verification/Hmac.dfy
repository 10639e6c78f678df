/** HMAC-SHA1 (`hmac_sha1`; RFC 2104), over any SHA-1 block function. */
module Hmac {
  import opened Machine
  import opened Streaming
  import opened Hashes

  type Bytes = seq<byte>

  function ByteXor(x: byte, y: byte): byte {
    XorNonnegative(8, x, y);
    Xor(8, x, y)
  }

  function XorWith(k: Bytes, pad: byte): (r: Bytes)
    ensures |r| == |k|
  {
    seq(|k|, i requires 0 <= i < |k| => ByteXor(k[i], pad))
  }

  /** The key brought to the block size: hashed if it is longer than a block, then filled up with zeros. */
  function BlockKey(h: Bytes -> Bytes, key: Bytes): Bytes {
    var k := if |key| > 64 then h(key) else key;
    if |k| <= 64 then k + Zeros(64 - |k|) else k
  }

  function HmacOf(h: Bytes -> Bytes, key: Bytes, msg: Bytes): Bytes {
    var k := BlockKey(h, key);
    h(XorWith(k, 0x5c) + h(XorWith(k, 0x36) + msg))
  }

  function Sha1Of(f: BlockFunction): Bytes -> Bytes {
    (m: Bytes) => Hash1(f, m)
  }

  function HmacSha1(f: BlockFunction, key: Bytes, msg: Bytes): (r: Bytes)
    ensures |r| == 20
  {
    var k := BlockKey(Sha1Of(f), key);
    Sha1Length(f, XorWith(k, 0x5c) + Sha1Of(f)(XorWith(k, 0x36) + msg));
    HmacOf(Sha1Of(f), key, msg)
  }

  /**
    RFC 2104: the hash of the outer pad and the inner hash, the pads being the key block exclusive-or
    5c and 36, and the key block the key, or its hash if it is longer than 64 bytes, filled up with zeros.
   */
  lemma HmacMeaning(f: BlockFunction, key: Bytes, msg: Bytes, k: Bytes, outer: Bytes, inner: Bytes)
    requires |k| == |outer| == |inner| == 64
    requires var short := if |key| > 64 then Hash1(f, key) else key;
             short <= k && forall i :: |short| <= i < 64 ==> k[i] == 0
    requires forall i :: 0 <= i < 64 ==> outer[i] == Xor(8, k[i], 0x5c) && inner[i] == Xor(8, k[i], 0x36)
    ensures HmacSha1(f, key, msg) == Hash1(f, outer + Hash1(f, inner + msg))
  {
    IsKeyBlock(f, key, k);
    IsPad(k, 0x5c, outer);
    IsPad(k, 0x36, inner);
    HmacIs(f, key, msg, k);
  }

  lemma IsKeyBlock(f: BlockFunction, key: Bytes, k: Bytes)
    requires var short := if |key| > 64 then Hash1(f, key) else key;
             short <= k && |k| == 64 && forall i :: |short| <= i < 64 ==> k[i] == 0
    ensures k == BlockKey(Sha1Of(f), key)
  {
    var short := if |key| > 64 then Hash1(f, key) else key;
    AllZeros(k[|short|..]);
    assert k == short + k[|short|..];
  }

  lemma HmacIs(f: BlockFunction, key: Bytes, msg: Bytes, k: Bytes)
    requires k == BlockKey(Sha1Of(f), key)
    ensures HmacSha1(f, key, msg) == Hash1(f, XorWith(k, 0x5c) + Hash1(f, XorWith(k, 0x36) + msg))
  {}

  lemma {:induction false} AllZeros(s: Bytes)
    requires forall i :: 0 <= i < |s| ==> s[i] == 0
    ensures s == Zeros(|s|)
  {
    if s != [] {
      AllZeros(s[..|s| - 1]);
      assert s == s[..|s| - 1] + [0];
    }
  }

  lemma IsPad(k: Bytes, pad: byte, p: Bytes)
    requires |p| == |k| && forall i :: 0 <= i < |k| ==> p[i] == Xor(8, k[i], pad)
    ensures p == XorWith(k, pad)
  {}

  // ---------------------------------------------------------------- the code

  /** A digest of the concatenation of two parts, as two updates. */
  method HashTwo(f: BlockFunction, a: Bytes, b: Bytes) returns (d: Bytes)
    ensures d == Hash1(f, a + b) && |d| == 20
  {
    var c := new Sha1(f);
    c.Update(a);
    c.Update(b);
    assert c.core.msg == a + b;
    Sha1Length(f, a + b);
    d := c.Final();
  }

  /** The key itself, or its digest if it is longer than a block. */
  method ShortKey(f: BlockFunction, key: Bytes) returns (k: Bytes)
    ensures |k| <= 64 && k == if |key| > 64 then Hash1(f, key) else key
  {
    k := key;
    if |key| > 64 {
      var c := new Sha1(f);
      c.Update(key);
      assert c.core.msg == key;
      Sha1Length(f, key);
      k := c.Final();
    }
  }

  /** The padded key `k`. */
  method LoadKey(f: BlockFunction, key: Bytes) returns (k: array<byte>)
    ensures fresh(k) && k.Length == 64 && k[..] == BlockKey(Sha1Of(f), key)
  {
    var src := ShortKey(f, key);
    k := new byte[64](i => 0);
    for i := 0 to |src|
      invariant forall j :: 0 <= j < 64 ==> k[j] == if j < i then src[j] else 0
    {
      k[i] := src[i];
    }
    ZerosAt(64 - |src|);
    assert k[..] == src + Zeros(64 - |src|);
  }

  method PadKey(k: array<byte>, pad: byte) returns (p: array<byte>)
    ensures fresh(p) && p[..] == XorWith(k[..], pad)
  {
    p := new byte[k.Length];
    for i := 0 to k.Length
      invariant forall j :: 0 <= j < i ==> p[j] == ByteXor(k[j], pad)
    {
      p[i] := ByteXor(k[i], pad);
    }
  }

  /** `hmac_sha1`; `out` may be `msg`. */
  method ComputeHmac(f: BlockFunction, key: Bytes, msg: array<byte>, mlen: nat, out: array<byte>)
    requires mlen <= msg.Length && out.Length == 20
    modifies out
    ensures out[..] == HmacSha1(f, key, old(msg[..mlen]))
  {
    var k := LoadKey(f, key);
    var ip := PadKey(k, 0x36);
    var op := PadKey(k, 0x5c);
    var ih := HashTwo(f, ip[..], msg[..mlen]);
    var d := HashTwo(f, op[..], ih);
    for i := 0 to 20
      invariant out[..i] == d[..i]
    {
      out[i] := d[i];
    }
  }
}
