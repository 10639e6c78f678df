/** The buffering shared by crypto/sha1.c, crypto/sha256.c and crypto/sha512.c. */
module HashCore {
  import opened Machine
  import opened ModArith
  import opened Streaming

  /** The fields `state`, `buf` and `buflen` of a hash context; `msg` is everything absorbed so far. */
  class Core<S> {
    const block: (S, seq<byte>) -> S
    const init: S
    const bs: nat
    const buf: array<byte>
    var state: S
    var buflen: nat
    ghost var msg: seq<byte>

    ghost predicate Valid()
      reads this, buf
    {
      && 0 < bs == buf.Length && buflen < bs
      && state == Fold(block, init, msg, bs)
      && buf[..buflen] == Rest(msg, bs)
    }

    constructor (f: (S, seq<byte>) -> S, s: S, n: nat)
      requires n > 0
      ensures Valid() && fresh(buf) && block == f && init == s && bs == n && msg == []
    {
      block := f;
      init := s;
      bs := n;
      buf := new byte[n];
      state := s;
      buflen := 0;
      msg := [];
    }

    /** Copy bytes that fit into the buffer and compress it when it is full. */
    method Absorb(data: seq<byte>)
      requires Valid() && buflen + |data| <= bs
      modifies this, buf
      ensures Valid() && msg == old(msg) + data
    {
      ghost var tail := buf[..buflen];
      for i := 0 to |data|
        invariant forall k :: 0 <= k < buflen ==> buf[k] == tail[k]
        invariant forall k :: 0 <= k < i ==> buf[buflen + k] == data[k]
        modifies buf
      {
        buf[buflen + i] := data[i];
      }
      Joined(tail, data, buf[..], buflen + |data|);
      Append(block, init, msg, data, bs);
      msg := msg + data;
      buflen := buflen + |data|;
      if buflen == bs {
        assert buf[..] == tail + data;
        state := block(state, buf[..]);
        buflen := 0;
      }
    }

    /** The loop of `sha256_update` and `sha512_update`: as much as fits at a time. */
    method Feed(data: seq<byte>)
      requires Valid()
      modifies this, buf
      ensures Valid() && msg == old(msg) + data
    {
      var done := 0;
      while done < |data|
        invariant done <= |data| && Valid() && msg == old(msg) + data[..done]
      {
        var take := bs - buflen;
        if take > |data| - done {
          take := |data| - done;
        }
        Absorb(data[done..done + take]);
        assert data[..done] + data[done..done + take] == data[..done + take];
        done := done + take;
      }
      assert data[..done] == data;
    }

    /** The loop of `sha1_update`: one byte at a time. */
    method FeedBytes(data: seq<byte>)
      requires Valid()
      modifies this, buf
      ensures Valid() && msg == old(msg) + data
    {
      for done := 0 to |data|
        invariant Valid() && msg == old(msg) + data[..done]
      {
        Absorb([data[done]]);
        assert data[..done] + [data[done]] == data[..done + 1];
      }
      assert data[..|data|] == data;
    }

    /** Append 0x80 and zeros until exactly `lb` bytes of the block are free. */
    method Pad(lb: nat)
      requires Valid() && 0 < lb < bs
      modifies this, buf
      ensures Valid() && buflen == bs - lb
      ensures msg == old(msg) + [0x80] + Zeros(ZeroCount(|old(msg)|, bs, lb))
    {
      ghost var m, z, k := msg, ZeroCount(|msg|, bs, lb), 0;
      Absorb([0x80]);
      assert m + [0x80] + Zeros(0) == m + [0x80];
      FreeSpace(m, bs, lb, 0);
      while buflen != bs - lb
        invariant Valid() && k <= z && msg == m + [0x80] + Zeros(k)
        invariant buflen == bs - lb <==> k == z
        decreases z - k
      {
        Absorb([0]);
        k := k + 1;
        assert m + [0x80] + Zeros(k - 1) + [0] == m + [0x80] + Zeros(k);
        FreeSpace(m, bs, lb, k);
      }
    }

    /** Write the length field into the free end of the block and compress it. */
    method Close(len: seq<byte>, ghost m: seq<byte>, ghost bits: int)
      requires Valid() && buflen + |len| == bs && len == BigEndian(bits, |len|)
      requires msg == m + [0x80] + Zeros(ZeroCount(|m|, bs, |len|))
      modifies this, buf
      ensures state == HashWith(block, init, m, bs, |len|, bits)
    {
      Absorb(len);
    }
  }

  lemma Joined<T>(a: seq<T>, b: seq<T>, s: seq<T>, n: nat)
    requires n == |a| + |b| <= |s| && forall k :: 0 <= k < |a| ==> s[k] == a[k]
    requires forall k :: 0 <= k < |b| ==> s[|a| + k] == b[k]
    ensures s[..n] == a + b
  {
    forall k | 0 <= k < n ensures s[k] == (a + b)[k] {
      if k >= |a| {
        assert s[|a| + (k - |a|)] == b[k - |a|];
      }
    }
  }

  /** `lb` bytes of the block are free exactly when the right number of zeros has been appended. */
  lemma FreeSpace(m: seq<byte>, bs: nat, lb: nat, k: nat)
    requires 0 < lb < bs && k < bs
    ensures |Rest(m + [0x80] + Zeros(k), bs)| == bs - lb <==> k == ZeroCount(|m|, bs, lb)
  {
    var n := m + [0x80] + Zeros(k);
    RestLength(n, bs);
    BoundaryAfter(|m|, bs, lb, k);
    FreeIsBoundary(|n|, bs, lb);
  }

  lemma FreeIsBoundary(n: nat, bs: nat, lb: nat)
    requires 0 < lb < bs
    ensures n % bs == bs - lb <==> (n + lb) % bs == 0
  {
    var q, r := n / bs, n % bs;
    assert n == q * bs + r;
    if r + lb < bs {
      DivUnique(n + lb, q, r + lb, bs);
    } else {
      assert n + lb == (q + 1) * bs + (r + lb - bs);
      DivUnique(n + lb, q + 1, r + lb - bs, bs);
    }
  }
}
