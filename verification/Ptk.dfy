/** The pairwise transient key (`wpa2_derive_ptk`; IEEE 802.11-2016 section 12.7.1.3). */
module Ptk {
  import opened Machine
  import LittleEndian
  import opened Hashes
  import opened Hmac
  import opened Kdf
  import opened CStrings

  /** `ememcmp`: the difference of the first unequal bytes, or 0. */
  function Compare(a: Bytes, b: Bytes): int
    requires |a| == |b|
  {
    if a == [] then 0 else if a[0] != b[0] then a[0] - b[0] else Compare(a[1..], b[1..])
  }

  /** A byte string as a big-endian number. */
  function Number(a: Bytes): nat {
    if a == [] then 0 else a[0] * LittleEndian.Range(|a| - 1) + Number(a[1..])
  }

  lemma {:induction false} NumberBound(a: Bytes)
    ensures Number(a) < LittleEndian.Range(|a|)
  {
    if a != [] {
      NumberBound(a[1..]);
      Top(a[0], LittleEndian.Range(|a| - 1));
    }
  }

  lemma Top(x: byte, w: nat)
    ensures x * w + w <= 256 * w
  {}

  /** The comparison orders the strings as numbers. */
  lemma {:induction false} CompareIsOrder(a: Bytes, b: Bytes)
    requires |a| == |b|
    ensures Compare(a, b) < 0 <==> Number(a) < Number(b)
    ensures Compare(a, b) == 0 <==> a == b
    ensures Compare(a, b) == 0 <==> Number(a) == Number(b)
  {
    if a != [] {
      CompareIsOrder(a[1..], b[1..]);
      NumberBound(a[1..]);
      NumberBound(b[1..]);
      Leading(a[0], Number(a[1..]), b[0], Number(b[1..]), LittleEndian.Range(|a| - 1));
      assert a == [a[0]] + a[1..] && b == [b[0]] + b[1..];
    }
  }

  lemma Leading(x: byte, m: nat, y: byte, n: nat, w: nat)
    requires m < w && n < w
    ensures x < y ==> x * w + m < y * w + n
    ensures y < x ==> y * w + n < x * w + m
  {
    if x < y {
      assert (x + 1) * w <= y * w;
    } else if y < x {
      assert (y + 1) * w <= x * w;
    }
  }

  /** The smaller string, then the larger. */
  function Sorted(a: Bytes, b: Bytes): (r: Bytes)
    requires |a| == |b|
    ensures |r| == 2 * |a|
  {
    if Compare(a, b) < 0 then a + b else b + a
  }

  /** The order of the arguments does not matter, and the first half is the smaller number. */
  lemma SortedSymmetric(a: Bytes, b: Bytes)
    requires |a| == |b|
    ensures Sorted(a, b) == Sorted(b, a)
    ensures Number(Sorted(a, b)[..|a|]) <= Number(Sorted(a, b)[|a|..])
  {
    CompareIsOrder(a, b);
    CompareIsOrder(b, a);
    assert Sorted(a, b) == a + b || Sorted(a, b) == b + a;
  }

  /** "Pairwise key expansion". */
  const LABEL: Bytes := [
    80, 97, 105, 114, 119, 105, 115, 101, 32, 107, 101, 121, 32, 101, 120, 112, 97, 110, 115, 105, 111, 110]

  function PtkOf(f: BlockFunction, pmk: Bytes, aa: Bytes, spa: Bytes, anonce: Bytes, snonce: Bytes, n: nat): (r: Bytes)
    requires |aa| == |spa| == 6 && |anonce| == |snonce| == 32
    ensures |r| == n
  {
    PrfSha1(f, pmk, LABEL, Sorted(aa, spa) + Sorted(anonce, snonce), n)
  }

  /** Both ends of the handshake derive the same key: the addresses and the nonces may be swapped independently. */
  lemma PtkSymmetric(f: BlockFunction, pmk: Bytes, aa: Bytes, spa: Bytes, anonce: Bytes, snonce: Bytes, n: nat)
    requires |aa| == |spa| == 6 && |anonce| == |snonce| == 32
    ensures PtkOf(f, pmk, aa, spa, anonce, snonce, n) == PtkOf(f, pmk, spa, aa, anonce, snonce, n)
    ensures PtkOf(f, pmk, aa, spa, anonce, snonce, n) == PtkOf(f, pmk, aa, spa, snonce, anonce, n)
  {
    SortedSymmetric(aa, spa);
    SortedSymmetric(anonce, snonce);
  }

  /**
    IEEE 802.11-2016 section 12.7.1.3: the PRF of "Pairwise key expansion" and the smaller address, the larger one, the
    smaller nonce and the larger one, as big-endian numbers.
   */
  lemma PtkMeaning(f: BlockFunction, pmk: Bytes, aa: Bytes, spa: Bytes, anonce: Bytes, snonce: Bytes, n: nat,
                   lab: Bytes, a: Bytes, a': Bytes, b: Bytes, b': Bytes)
    requires |aa| == |spa| == 6 && |anonce| == |snonce| == 32 && Spells(lab, "Pairwise key expansion")
    requires ((a, a') == (aa, spa) || (a, a') == (spa, aa)) && Number(a) <= Number(a')
    requires ((b, b') == (anonce, snonce) || (b, b') == (snonce, anonce)) && Number(b) <= Number(b')
    ensures PtkOf(f, pmk, aa, spa, anonce, snonce, n) == PrfSha1(f, pmk, lab, a + a' + b + b', n)
  {
    SpellsLabel(lab);
    SortedPairs(aa, spa, anonce, snonce, a, a', b, b');
  }

  lemma SortedPairs(aa: Bytes, spa: Bytes, anonce: Bytes, snonce: Bytes, a: Bytes, a': Bytes, b: Bytes, b': Bytes)
    requires |aa| == |spa| && |anonce| == |snonce|
    requires ((a, a') == (aa, spa) || (a, a') == (spa, aa)) && Number(a) <= Number(a')
    requires ((b, b') == (anonce, snonce) || (b, b') == (snonce, anonce)) && Number(b) <= Number(b')
    ensures Sorted(aa, spa) + Sorted(anonce, snonce) == a + a' + b + b'
  {
    SortedIs(aa, spa, a, a');
    SortedIs(anonce, snonce, b, b');
    assert (a + a') + (b + b') == a + a' + b + b';
  }

  lemma SortedIs(x: Bytes, y: Bytes, a: Bytes, a': Bytes)
    requires |x| == |y| && ((a, a') == (x, y) || (a, a') == (y, x)) && Number(a) <= Number(a')
    ensures Sorted(x, y) == a + a'
  {
    CompareIsOrder(x, y);
  }

  lemma SpellsLabel(s: Bytes)
    ensures Spells(s, "Pairwise key expansion") <==> s == LABEL
  {
    var w := "Pairwise key expansion";
    assert |LABEL| == |w|;
    assert forall k :: 0 <= k < |w| ==> LABEL[k] == w[k] as int;
  }

  // ---------------------------------------------------------------- the code

  method MemCmp(a: Bytes, b: Bytes) returns (d: int)
    requires |a| == |b|
    ensures d == Compare(a, b)
  {
    assert a[0..] == a && b[0..] == b;
    for i := 0 to |a|
      invariant Compare(a, b) == Compare(a[i..], b[i..])
    {
      if a[i] != b[i] {
        return (a[i] as int) - (b[i] as int);
      }
      assert a[i..][1..] == a[i + 1..] && b[i..][1..] == b[i + 1..];
    }
    return 0;
  }

  /** The two strings in order, at a position of the buffer. */
  method PutSorted(data: array<byte>, at: nat, a: Bytes, b: Bytes)
    requires |a| == |b| && at + 2 * |a| <= data.Length
    modifies data
    ensures data[..at + 2 * |a|] == old(data[..at]) + Sorted(a, b)
  {
    var d := MemCmp(a, b);
    if d < 0 {
      Put(data, at, a);
      Put(data, at + |a|, b);
    } else {
      Put(data, at, b);
      Put(data, at + |b|, a);
    }
  }

  /** `wpa2_derive_ptk`. */
  method DerivePtk(f: BlockFunction, pmk: Bytes, aa: Bytes, spa: Bytes, anonce: Bytes, snonce: Bytes,
                   ptk: array<byte>, ptkLen: nat)
    requires |aa| == |spa| == 6 && |anonce| == |snonce| == 32 && ptkLen <= ptk.Length
    modifies ptk
    ensures ptk[..] == PtkOf(f, pmk, aa, spa, anonce, snonce, ptkLen) + old(ptk[ptkLen..])
  {
    var data := SortedData(aa, spa, anonce, snonce);
    NoNul(LABEL);
    Wpa2Prf(f, pmk, LABEL + [0], data, ptk, ptkLen);
  }

  method SortedData(aa: Bytes, spa: Bytes, anonce: Bytes, snonce: Bytes) returns (d: Bytes)
    requires |aa| == |spa| == 6 && |anonce| == |snonce| == 32
    ensures d == Sorted(aa, spa) + Sorted(anonce, snonce)
  {
    var data := new byte[76];
    PutSorted(data, 0, aa, spa);
    PutSorted(data, 12, anonce, snonce);
    d := data[..];
  }

  lemma {:induction false} NoNul(s: Bytes)
    requires 0 !in s
    ensures UpToNul(s + [0]) == s
  {
    if s != [] {
      NoNul(s[1..]);
      assert (s + [0])[1..] == s[1..] + [0] && s == [s[0]] + s[1..];
    }
  }
}
