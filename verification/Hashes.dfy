/** The hash contexts of crypto/sha1.c, crypto/sha256.c and crypto/sha512.c, over arbitrary block functions. */
module Hashes {
  import opened Machine
  import opened ModArith
  import opened Radix
  import opened Streaming
  import opened HashCore

  /** Words of a chaining value serialised most significant byte first. */
  function Digest(st: seq<int>, width: nat): (r: seq<byte>)
    decreases |st|
  {
    if |st| == 0 then [] else Digest(st[..|st| - 1], width) + BigEndian(st[|st| - 1], width)
  }

  type Compressor = (seq<int>, seq<byte>) -> seq<int>

  /** A block function maps the words of a chaining value and a block to as many words. */
  type BlockFunction = f: Compressor | KeepsWidth(f) witness (s: seq<int>, b: seq<byte>) => s

  ghost predicate KeepsWidth(f: Compressor) {
    forall s, b :: |f(s, b)| == |s|
  }

  const INITIAL_1: seq<int> := [0x67452301, 0xEFCDAB89, 0x98BADCFE, 0x10325476, 0xC3D2E1F0]
  const INITIAL_256: seq<int> := [
    0x6a09e667, 0xbb67ae85, 0x3c6ef372, 0xa54ff53a, 0x510e527f, 0x9b05688c, 0x1f83d9ab, 0x5be0cd19]
  const INITIAL_512: seq<int> := [
    0x6a09e667f3bcc908, 0xbb67ae8584caa73b, 0x3c6ef372fe94f82b, 0xa54ff53a5f1d36f1,
    0x510e527fade682d1, 0x9b05688c2b3e6c1f, 0x1f83d9abfb41bd6b, 0x5be0cd19137e2179]

  /** The hashes of FIPS 180-4: pad, fold the block function, serialise. */
  function Hash1(f: Compressor, m: seq<byte>): seq<byte> {
    Digest(HashWith(f, INITIAL_1, m, 64, 8, 8 * |m| % TWO_TO_64), 4)
  }

  function Hash256(f: Compressor, m: seq<byte>): seq<byte> {
    Digest(HashWith(f, INITIAL_256, m, 64, 8, 8 * |m| % TWO_TO_64), 4)
  }

  function Hash512(f: Compressor, m: seq<byte>): seq<byte> {
    Digest(HashWith(f, INITIAL_512, m, 128, 16, 8 * |m| % (TWO_TO_64 * TWO_TO_64)), 8)
  }

  // ------------------------------------------------------- bytes of words

  /** Byte `i` of the serialisation is the value shifted right and truncated. */
  lemma {:induction false} BigEndianByte(n: int, k: nat, i: nat)
    requires i < k
    ensures Pow(256, k - 1 - i) > 0 && BigEndian(n, k)[i] == (n / Pow(256, k - 1 - i)) % 256
    decreases k
  {
    PowPositive(256, k - 1 - i);
    if i < k - 1 {
      BigEndianByte(n / 256, k - 1, i);
      ShiftTwice(n, Pow(256, k - 2 - i));
    }
  }

  lemma ShiftTwice(n: int, w: int)
    requires w > 0
    ensures n / 256 / w == n / (256 * w)
  {
    var a, b := n / 256, n % 256;
    var q, r := a / w, a % w;
    assert n == 256 * a + b && a == q * w + r;
    assert 256 * (q * w + r) + b == q * (256 * w) + (256 * r + b);
    assert r <= w - 1;
    DivUnique(n, q, 256 * r + b, 256 * w);
  }

  /** The bytes of a word, each by a shift and a truncation. */
  method WordBytes(n: int, k: nat) returns (b: seq<byte>)
    ensures b == BigEndian(n, k)
  {
    b := [];
    for i := 0 to k
      invariant |b| == i && forall j :: 0 <= j < i ==> b[j] == BigEndian(n, k)[j]
    {
      BigEndianByte(n, k, i);
      b := b + [n / Pow(256, k - 1 - i) % 256];
    }
  }

  /** The digest, word by word. */
  method StateBytes(st: seq<int>, width: nat) returns (out: seq<byte>)
    ensures out == Digest(st, width)
  {
    out := [];
    for i := 0 to |st|
      invariant out == Digest(st[..i], width)
    {
      var b := WordBytes(st[i], width);
      assert st[..i + 1][..i] == st[..i];
      out := out + b;
    }
    assert st[..|st|] == st;
  }

  /** The digest lists the words in order, each most significant byte first (BigEndianByte). */
  lemma {:induction false} DigestWords(st: seq<int>, width: nat, j: nat)
    requires j < |st|
    ensures |Digest(st[..j], width)| == width * j
    ensures Digest(st[..j], width) + BigEndian(st[j], width) <= Digest(st, width)
    decreases |st|
  {
    var n := |st| - 1;
    DigestLength(st[..j], width);
    if j < n {
      assert st[..n][..j] == st[..j];
      DigestWords(st[..n], width, j);
    }
  }

  /**
    The initial values of FIPS 180-4 section 5.3: for SHA-1 the bytes 01 23 45 67 89 ab cd ef and back, for SHA-512
    the first 64 bits of the fractions of the square roots of the first eight primes, and for SHA-256 the
    upper halves of those.
   */
  lemma InitialValues(i: nat)
    requires i < 8
    ensures INITIAL_1 == [0x67452301, 0xefcdab89, 0x98badcfe, 0x10325476, 0xc3d2e1f0]
    ensures INITIAL_256[i] == INITIAL_512[i] / 0x1_0000_0000
    ensures var p, r := [2, 3, 5, 7, 11, 13, 17, 19][i], [1, 1, 2, 2, 3, 3, 4, 4][i];
            var x := r * TWO_TO_64 + INITIAL_512[i];
            x * x <= p * (TWO_TO_64 * TWO_TO_64) < (x + 1) * (x + 1)
  {}

  // ------------------------------------------------------------ the contexts

  /** `sha1_ctx`. */
  class Sha1 {
    const core: Core<seq<int>>
    var len: int

    ghost predicate Valid()
      reads this, core, core.buf
    {
      core.Valid() && core.init == INITIAL_1 && core.bs == 64 && len == |core.msg| % TWO_TO_64
    }

    /** `sha1_init`. */
    constructor (f: Compressor)
      ensures Valid() && fresh(core) && fresh(core.buf) && core.block == f && core.msg == []
    {
      core := new Core(f, INITIAL_1, 64);
      len := 0;
    }

    /** `sha1_update`. */
    method Update(data: seq<byte>)
      requires Valid()
      modifies this, core, core.buf
      ensures Valid() && core.msg == old(core.msg) + data
    {
      AddLength(|core.msg|, |data|, 1, TWO_TO_64);
      len := (len + |data|) % TWO_TO_64;
      core.FeedBytes(data);
    }

    /** `sha1_final`. */
    method Final() returns (out: seq<byte>)
      requires Valid()
      modifies this, core, core.buf
      ensures out == Hash1(core.block, old(core.msg))
    {
      var bits := len * 8 % TWO_TO_64;
      ScaleLength(|core.msg|);
      core.Pad(8);
      var lb := WordBytes(bits, 8);
      core.Close(lb, old(core.msg), bits);
      out := StateBytes(core.state, 4);
    }
  }

  /** `sha256_ctx`. */
  class Sha256 {
    const core: Core<seq<int>>
    var bitlen: int

    ghost predicate Valid()
      reads this, core, core.buf
    {
      core.Valid() && core.init == INITIAL_256 && core.bs == 64 && bitlen == 8 * |core.msg| % TWO_TO_64
    }

    /** `sha256_init`. */
    constructor (f: Compressor)
      ensures Valid() && fresh(core) && fresh(core.buf) && core.block == f && core.msg == []
    {
      core := new Core(f, INITIAL_256, 64);
      bitlen := 0;
    }

    /** `sha256_update`. */
    method Update(data: seq<byte>)
      requires Valid()
      modifies this, core, core.buf
      ensures Valid() && core.msg == old(core.msg) + data
    {
      AddLength(|core.msg|, |data|, 8, TWO_TO_64);
      bitlen := (bitlen + |data| * 8) % TWO_TO_64;
      core.Feed(data);
    }

    /** `sha256_final`. */
    method Final() returns (out: seq<byte>)
      requires Valid()
      modifies this, core, core.buf
      ensures out == Hash256(core.block, old(core.msg))
    {
      var bl := bitlen;
      core.Pad(8);
      var lenbe := WordBytes(bl, 8);
      core.Close(lenbe, old(core.msg), bl);
      out := StateBytes(core.state, 4);
    }
  }

  /** What `sha512_update` adds to its two-word bit counter: the length times 8, truncated to 64 bits. */
  function Counted(total: int, n: nat): int {
    (total + n * 8 % TWO_TO_64) % (TWO_TO_64 * TWO_TO_64)
  }

  /** `sha512_ctx`. */
  class Sha512 {
    const core: Core<seq<int>>
    var bitlenLo: int
    var bitlenHi: int

    ghost predicate Valid()
      reads this, core, core.buf
    {
      && core.Valid() && core.init == INITIAL_512 && core.bs == 128
      && 0 <= bitlenLo < TWO_TO_64 && 0 <= bitlenHi < TWO_TO_64
    }

    ghost function Bits(): int
      reads this
    {
      bitlenHi * TWO_TO_64 + bitlenLo
    }

    /** `sha512_init`. */
    constructor (f: Compressor)
      ensures Valid() && fresh(core) && fresh(core.buf) && core.block == f && core.msg == [] && Bits() == 0
    {
      core := new Core(f, INITIAL_512, 128);
      bitlenLo, bitlenHi := 0, 0;
    }

    /** `sha512_update`. */
    method Update(data: seq<byte>)
      requires Valid()
      modifies this, core, core.buf
      ensures Valid() && core.msg == old(core.msg) + data && Bits() == Counted(old(Bits()), |data|)
    {
      var add := |data| * 8 % TWO_TO_64;
      CountCarry(bitlenHi, bitlenLo, add);
      bitlenLo := (bitlenLo + add) % TWO_TO_64;
      if bitlenLo < add {
        bitlenHi := (bitlenHi + 1) % TWO_TO_64;
      }
      core.Feed(data);
    }

    /** `sha512_final`. */
    method Final() returns (out: seq<byte>)
      requires Valid()
      modifies this, core, core.buf
      ensures out == Digest(HashWith(core.block, INITIAL_512, old(core.msg), 128, 16, old(Bits())), 8)
    {
      var lo, hi := bitlenLo, bitlenHi;
      core.Pad(16);
      var length := LengthBytes(hi, lo);
      core.Close(length, old(core.msg), old(Bits()));
      out := StateBytes(core.state, 8);
    }
  }

  // --------------------------------------------------------------- counters

  lemma AddLength(n: nat, d: nat, k: nat, m: int)
    requires m > 0
    ensures (k * n % m + d * k) % m == k * (n + d) % m
  {
    ModAdd(k * n, d * k, m);
    ModAdd(k * n % m, d * k, m);
    ModIdem(k * n, m);
    assert k * n + d * k == k * (n + d);
  }

  lemma ScaleLength(n: nat)
    ensures n % TWO_TO_64 * 8 % TWO_TO_64 == 8 * n % TWO_TO_64
  {
    ScaleMod(n, TWO_TO_64);
  }

  lemma ScaleMod(n: nat, t: nat)
    requires t > 0
    ensures n % t * 8 % t == 8 * n % t
  {
    var q, r := n / t, n % t;
    assert 8 * (q * t + r) == r * 8 + (8 * q) * t;
    ModShift(r * 8, 8 * q, t);
  }

  /** Carrying from the low word into the high word is addition of the 128-bit counter. */
  lemma CountCarry(hi: int, lo: int, add: int)
    requires 0 <= hi < TWO_TO_64 && 0 <= lo < TWO_TO_64 && 0 <= add < TWO_TO_64
    ensures var lo' := (lo + add) % TWO_TO_64;
            var hi' := if lo' < add then (hi + 1) % TWO_TO_64 else hi;
            hi' * TWO_TO_64 + lo' == (hi * TWO_TO_64 + lo + add) % (TWO_TO_64 * TWO_TO_64)
  {}

  /** A two-word number is written high word first. */
  lemma TwoWords(hi: int, lo: int)
    requires 0 <= lo < TWO_TO_64
    ensures BigEndian(hi, 8) + BigEndian(lo, 8) == BigEndian(hi * TWO_TO_64 + lo, 16)
  {
    assert Pow(256, 4) == 0x1_0000_0000;
    PowAdd(256, 4, 4);
    BigEndianConcat(hi, lo, 8, 8);
  }

  /** The 128-bit length field. */
  method LengthBytes(hi: int, lo: int) returns (b: seq<byte>)
    requires 0 <= lo < TWO_TO_64
    ensures b == BigEndian(hi * TWO_TO_64 + lo, 16)
  {
    var high := WordBytes(hi, 8);
    var low := WordBytes(lo, 8);
    TwoWords(hi, lo);
    b := high + low;
  }

  lemma {:induction false} BigEndianConcat(hi: int, lo: int, j: nat, k: nat)
    requires 0 <= lo < Pow(256, k)
    ensures BigEndian(hi * Pow(256, k) + lo, j + k) == BigEndian(hi, j) + BigEndian(lo, k)
    decreases k
  {
    if k > 0 {
      BigEndianConcat(hi, lo / 256, j, k - 1);
      LowByte(hi, lo, Pow(256, k - 1));
      assert BigEndian(hi, j) + (BigEndian(lo / 256, k - 1) + [lo % 256])
          == (BigEndian(hi, j) + BigEndian(lo / 256, k - 1)) + [lo % 256];
    } else {
      assert BigEndian(lo, 0) == [];
    }
  }

  lemma LowByte(hi: int, lo: int, w: int)
    ensures (hi * (256 * w) + lo) / 256 == hi * w + lo / 256
    ensures (hi * (256 * w) + lo) % 256 == lo % 256
  {
    var n := hi * w;
    assert hi * (256 * w) == 256 * n;
  }

  // ------------------------------------------------------------ digest lengths

  lemma {:induction false} FoldWidth(f: BlockFunction, s: seq<int>, m: seq<byte>, bs: nat)
    requires bs > 0
    ensures |Fold(f, s, m, bs)| == |s|
    decreases |m|
  {
    if |m| >= bs {
      FoldWidth(f, f(s, m[..bs]), m[bs..], bs);
    }
  }

  lemma {:induction false} DigestLength(s: seq<int>, width: nat)
    ensures |Digest(s, width)| == |s| * width
  {
    if |s| > 0 {
      DigestLength(s[..|s| - 1], width);
    }
  }

  lemma Sha1Length(f: BlockFunction, m: seq<byte>)
    ensures |Hash1(f, m)| == 20
  {
    var s := HashWith(f, INITIAL_1, m, 64, 8, 8 * |m| % TWO_TO_64);
    FoldWidth(f, INITIAL_1, Padded(m, 64, 8, 8 * |m| % TWO_TO_64), 64);
    DigestLength(s, 4);
  }

  lemma Sha256Length(f: BlockFunction, m: seq<byte>)
    ensures |Hash256(f, m)| == 32
  {
    var s := HashWith(f, INITIAL_256, m, 64, 8, 8 * |m| % TWO_TO_64);
    FoldWidth(f, INITIAL_256, Padded(m, 64, 8, 8 * |m| % TWO_TO_64), 64);
    DigestLength(s, 4);
  }

  // ------------------------------------------------- every way of splitting

  /** SHA-1 of a message does not depend on how it is split into updates. */
  method HashChunks1(f: Compressor, chunks: seq<seq<byte>>) returns (out: seq<byte>)
    ensures out == Hash1(f, Flatten(chunks))
  {
    var c := new Sha1(f);
    for i := 0 to |chunks|
      invariant c.Valid() && fresh(c) && fresh(c.core) && fresh(c.core.buf) && c.core.block == f
      invariant c.core.msg == Flatten(chunks[..i])
    {
      c.Update(chunks[i]);
      assert chunks[..i + 1][..i] == chunks[..i];
    }
    assert chunks[..|chunks|] == chunks;
    out := c.Final();
  }

  /** SHA-256 of a message does not depend on how it is split into updates. */
  method HashChunks256(f: Compressor, chunks: seq<seq<byte>>) returns (out: seq<byte>)
    ensures out == Hash256(f, Flatten(chunks))
  {
    var c := new Sha256(f);
    for i := 0 to |chunks|
      invariant c.Valid() && fresh(c) && fresh(c.core) && fresh(c.core.buf) && c.core.block == f
      invariant c.core.msg == Flatten(chunks[..i])
    {
      c.Update(chunks[i]);
      assert chunks[..i + 1][..i] == chunks[..i];
    }
    assert chunks[..|chunks|] == chunks;
    out := c.Final();
  }

  /** The SHA-512 bit counter after a list of updates. */
  function CountedAll(chunks: seq<seq<byte>>): int {
    if |chunks| == 0 then 0 else Counted(CountedAll(chunks[..|chunks| - 1]), |chunks[|chunks| - 1]|)
  }

  /** What a run of SHA-512 updates computes, whatever their sizes. */
  function RunOf512(f: Compressor, chunks: seq<seq<byte>>): seq<byte> {
    Digest(HashWith(f, INITIAL_512, Flatten(chunks), 128, 16, CountedAll(chunks)), 8)
  }

  method HashChunks512(f: Compressor, chunks: seq<seq<byte>>) returns (out: seq<byte>)
    ensures out == RunOf512(f, chunks)
    ensures Lost(chunks) % TWO_TO_64 == 0 ==> out == Hash512(f, Flatten(chunks))
    ensures (forall i :: 0 <= i < |chunks| ==> |chunks[i]| < 0x2000_0000_0000_0000)
            ==> out == Hash512(f, Flatten(chunks))
  {
    out := RunChunks512(f, chunks);
    RunIsHash512(f, chunks);
  }

  method RunChunks512(f: Compressor, chunks: seq<seq<byte>>) returns (out: seq<byte>)
    ensures out == RunOf512(f, chunks)
  {
    var c := new Sha512(f);
    UpdateAll512(c, chunks);
    out := c.Final();
  }

  method UpdateAll512(c: Sha512, chunks: seq<seq<byte>>)
    requires c.Valid() && c.core.msg == [] && c.Bits() == 0
    modifies c, c.core, c.core.buf
    ensures c.Valid() && c.core.msg == Flatten(chunks) && c.Bits() == CountedAll(chunks)
  {
    for i := 0 to |chunks|
      invariant c.Valid() && c.core.msg == Flatten(chunks[..i]) && c.Bits() == CountedAll(chunks[..i])
    {
      c.Update(chunks[i]);
      assert chunks[..i + 1][..i] == chunks[..i];
    }
    assert chunks[..|chunks|] == chunks;
  }

  lemma RunIsHash512(f: Compressor, chunks: seq<seq<byte>>)
    ensures Lost(chunks) % TWO_TO_64 == 0 ==> RunOf512(f, chunks) == Hash512(f, Flatten(chunks))
    ensures (forall i :: 0 <= i < |chunks| ==> |chunks[i]| < 0x2000_0000_0000_0000) ==> Lost(chunks) == 0
  {
    CounterExact(chunks);
    if forall i :: 0 <= i < |chunks| ==> |chunks[i]| < 0x2000_0000_0000_0000 {
      NothingLost(chunks);
    }
  }

  lemma RunOfMessage(f: Compressor, chunks: seq<seq<byte>>, m: seq<byte>)
    requires Flatten(chunks) == m && Lost(chunks) == 0
    ensures RunOf512(f, chunks) == Hash512(f, m)
  {
    RunIsHash512(f, chunks);
  }

  /** How often the updates lose a bit beyond 64 in the length they add. */
  function Lost(chunks: seq<seq<byte>>): nat {
    if |chunks| == 0 then 0 else Lost(chunks[..|chunks| - 1]) + |chunks[|chunks| - 1]| / 0x2000_0000_0000_0000
  }

  lemma {:induction false} CounterValue(chunks: seq<seq<byte>>)
    ensures CountedAll(chunks) == (8 * |Flatten(chunks)| - TWO_TO_64 * Lost(chunks)) % (TWO_TO_64 * TWO_TO_64)
  {
    if |chunks| > 0 {
      var k := |chunks| - 1;
      var n, lost := |chunks[k]|, |chunks[k]| / 0x2000_0000_0000_0000;
      CounterValue(chunks[..k]);
      assert n * 8 % TWO_TO_64 == 8 * n - TWO_TO_64 * lost;
      AddWrapped(8 * |Flatten(chunks[..k])| - TWO_TO_64 * Lost(chunks[..k]), 8 * n - TWO_TO_64 * lost,
                 TWO_TO_64 * TWO_TO_64);
    }
  }

  /** The counter is the length in bits exactly when the lost bits add up to a multiple of 2^64. */
  lemma CounterExact(chunks: seq<seq<byte>>)
    ensures CountedAll(chunks) == 8 * |Flatten(chunks)| % (TWO_TO_64 * TWO_TO_64) <==> Lost(chunks) % TWO_TO_64 == 0
  {
    CounterValue(chunks);
    LostBits(8 * |Flatten(chunks)|, Lost(chunks), TWO_TO_64);
  }

  lemma LostBits(a: int, l: nat, t: nat)
    requires t > 0
    ensures t * t > 0
    ensures (a - t * l) % (t * t) == a % (t * t) <==> l % t == 0
  {
    var m, r := t * t, l % t;
    SplitLost(l, t);
    ModShift(a - t * r, 0 - l / t, m);
    if r > 0 {
      MulMono(1, r, t);
      MulMono(r, t - 1, t);
      OtherResidue(a, t * r, m);
    }
  }

  lemma SplitLost(l: nat, t: nat)
    requires t > 0
    ensures t * t > 0 && t * (t - 1) < t * t
    ensures t * l == t * (l % t) - (0 - l / t) * (t * t)
  {
    var q, r := l / t, l % t;
    assert l == q * t + r;
    assert t * (q * t + r) == q * (t * t) + t * r;
    assert (0 - q) * (t * t) == -(q * (t * t));
  }

  lemma OtherResidue(a: int, d: int, m: int)
    requires 0 < d < m
    ensures (a - d) % m != a % m
  {
    if (a - d) % m == a % m {
      ModSub(a, a - d, m);
      DivUnique(d, 0, d, m);
      DivUnique(0, 0, 0, m);
    }
  }

  /** No bits are lost by updates shorter than 2^61 bytes. */
  lemma {:induction false} NothingLost(chunks: seq<seq<byte>>)
    requires forall i :: 0 <= i < |chunks| ==> |chunks[i]| < 0x2000_0000_0000_0000
    ensures Lost(chunks) == 0
  {
    if |chunks| > 0 {
      NothingLost(chunks[..|chunks| - 1]);
    }
  }

  /** One update keeps the counter right exactly when it is shorter than 2^61 bytes. */
  lemma CounterStep(total: nat, n: nat)
    requires n < TWO_TO_64
    ensures Counted(8 * total % (TWO_TO_64 * TWO_TO_64), n) == 8 * (total + n) % (TWO_TO_64 * TWO_TO_64)
            <==> n < 0x2000_0000_0000_0000
  {
    var w, t := 0x1_0000_0000_0000_0000_0000_0000_0000_0000, 8 * total % (TWO_TO_64 * TWO_TO_64);
    var add, lost := n * 8 % TWO_TO_64, n * 8 / TWO_TO_64;
    assert 0 <= lost < 8 && n * 8 == lost * TWO_TO_64 + add;
    assert 8 * (total + n) % w == (t + add + lost * TWO_TO_64) % w;
  }

  /** An update of 2^61 bytes is not counted at all. */
  lemma CounterLosesBits()
    ensures Counted(0, 0x2000_0000_0000_0000) == 0
    ensures 8 * 0x2000_0000_0000_0000 % (TWO_TO_64 * TWO_TO_64) != 0
  {}
}
