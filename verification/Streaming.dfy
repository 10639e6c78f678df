/**
  Iterated hashing: absorbing a message block by block, and the padding of
  FIPS 180-4 section 5.1, for any block size and any block function.
 */
module Streaming {
  import opened Machine
  import opened ModArith

  /** The chaining value after every whole block of `m`. */
  function Fold<S>(f: (S, seq<byte>) -> S, st: S, m: seq<byte>, bs: nat): S
    requires bs > 0
    decreases |m|
  {
    if |m| < bs then st else Fold(f, f(st, m[..bs]), m[bs..], bs)
  }

  /** The bytes left over after the last whole block. */
  function Rest(m: seq<byte>, bs: nat): (r: seq<byte>)
    requires bs > 0
    ensures |r| < bs
    decreases |m|
  {
    if |m| < bs then m else Rest(m[bs..], bs)
  }

  lemma {:induction false} RestLength(m: seq<byte>, bs: nat)
    requires bs > 0
    ensures |Rest(m, bs)| == |m| % bs
    decreases |m|
  {
    if |m| < bs {
      DivUnique(|m|, 0, |m|, bs);
    } else {
      RestLength(m[bs..], bs);
      ModShift(|m| - bs, 1, bs);
    }
  }

  /** Appending bytes that fit into the unfinished block. */
  lemma {:induction false} Append<S>(f: (S, seq<byte>) -> S, st: S, m: seq<byte>, c: seq<byte>, bs: nat)
    requires bs > 0 && |Rest(m, bs)| + |c| <= bs
    ensures var full := Rest(m, bs) + c;
            if |full| < bs then Fold(f, st, m + c, bs) == Fold(f, st, m, bs) && Rest(m + c, bs) == full
            else Fold(f, st, m + c, bs) == f(Fold(f, st, m, bs), full) && Rest(m + c, bs) == []
    decreases |m|
  {
    var n := m + c;
    if |m| < bs {
      if |n| == bs {
        assert n[..bs] == n && n[bs..] == [];
        assert Fold(f, f(st, n), [], bs) == f(st, n);
      }
    } else {
      Append(f, f(st, m[..bs]), m[bs..], c, bs);
      assert n[..bs] == m[..bs] && n[bs..] == m[bs..] + c;
    }
  }

  // ------------------------------------------------------------------ padding

  /** `n` as `k` big-endian bytes. */
  function BigEndian(n: int, k: nat): (r: seq<byte>)
    ensures |r| == k
    decreases k, n
  {
    if k == 0 then [] else BigEndian(n / 256, k - 1) + [n % 256]
  }

  function Zeros(k: nat): (r: seq<byte>)
    ensures |r| == k
  {
    if k == 0 then [] else Zeros(k - 1) + [0]
  }

  /** How many zero bytes bring the message, its 0x80 and its length field to a block boundary. */
  function ZeroCount(n: nat, bs: nat, lb: nat): nat
    requires bs > 0
  {
    (bs - lb - 1 - n) % bs
  }

  /** Message, 0x80, zeros, and a length field of `lb` bytes holding `bits`. */
  function Padded(m: seq<byte>, bs: nat, lb: nat, bits: int): (r: seq<byte>)
    requires bs > 0
  {
    m + [0x80] + Zeros(ZeroCount(|m|, bs, lb)) + BigEndian(bits, lb)
  }

  /** The padded message byte by byte; the length field follows the zeros. */
  lemma PaddedBytes(m: seq<byte>, bs: nat, lb: nat, bits: int, i: nat)
    requires bs > 0 && i < |m| + 1 + ZeroCount(|m|, bs, lb)
    ensures var p, n := Padded(m, bs, lb, bits), |m| + 1 + ZeroCount(|m|, bs, lb);
            && p[i] == (if i < |m| then m[i] else if i == |m| then 0x80 else 0)
            && p[n..] == BigEndian(bits, lb)
  {
    ZerosAt(ZeroCount(|m|, bs, lb));
  }

  lemma {:induction false} ZerosAt(n: nat)
    ensures forall i :: 0 <= i < n ==> Zeros(n)[i] == 0
  {
    if n > 0 {
      ZerosAt(n - 1);
    }
  }

  /** The padding ends on a block boundary, and no fewer zeros would. */
  lemma PaddedLength(m: seq<byte>, bs: nat, lb: nat, bits: int, k: nat)
    requires 0 < lb < bs && k < bs
    ensures |Padded(m, bs, lb, bits)| % bs == 0
    ensures k < ZeroCount(|m|, bs, lb) ==> (|m| + 1 + k + lb) % bs != 0
  {
    BoundaryAfter(|m|, bs, lb, ZeroCount(|m|, bs, lb));
    BoundaryAfter(|m|, bs, lb, k);
  }

  /** Among fewer than `bs` zeros only the right number reaches the boundary. */
  lemma BoundaryAfter(n: nat, bs: nat, lb: nat, k: nat)
    requires 0 < lb < bs && k < bs
    ensures (n + 1 + k + lb) % bs == 0 <==> k == ZeroCount(n, bs, lb)
  {
    var z := bs - lb - 1 - n;
    var q, r := z / bs, z % bs;
    assert z == q * bs + r;
    var t := n + 1 + k + lb;
    assert t == (1 - q) * bs + (k - r) by {
      assert (1 - q) * bs == bs - q * bs;
    }
    if k >= r {
      DivUnique(t, 1 - q, k - r, bs);
    } else {
      assert t == (0 - q) * bs + (bs + k - r) by {
        assert (0 - q) * bs == -(q * bs);
      }
      DivUnique(t, 0 - q, bs + k - r, bs);
    }
  }

  /** The hash of `m` whose length field holds `bits`. */
  function HashWith<S>(f: (S, seq<byte>) -> S, init: S, m: seq<byte>, bs: nat, lb: nat, bits: int): S
    requires bs > 0
  {
    Fold(f, init, Padded(m, bs, lb, bits), bs)
  }

  function Flatten(chunks: seq<seq<byte>>): seq<byte> {
    if |chunks| == 0 then [] else Flatten(chunks[..|chunks| - 1]) + chunks[|chunks| - 1]
  }
}
