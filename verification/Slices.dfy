/** Slices of sequences, for any type of element. */
module Slices {
  lemma SliceOfPrefix<T>(s: seq<T>, n: nat, a: nat, b: nat)
    requires a <= b <= n <= |s|
    ensures s[..n][a..b] == s[a..b]
  {}

  lemma SliceOfSuffix<T>(s: seq<T>, d: nat, a: nat, b: nat)
    requires a <= b && d + b <= |s|
    ensures s[d..][a..b] == s[d + a..d + b]
  {}

  lemma SliceOfSlice<T>(s: seq<T>, lo: nat, hi: nat, a: nat, b: nat)
    requires lo <= hi <= |s| && a <= b <= hi - lo
    ensures s[lo..hi][a..b] == s[lo + a..lo + b]
  {
    SliceOfPrefix(s, hi, lo + a, lo + b);
    SliceOfSuffix(s[..hi], lo, a, b);
  }

  lemma TwoParts<T>(s: seq<T>, a: nat, b: nat, c: nat)
    requires a <= b <= c <= |s|
    ensures s[a..b] + s[b..c] == s[a..c]
  {}

  lemma ThreeParts<T>(s: seq<T>, a: nat, b: nat, c: nat, d: nat, e: nat)
    requires a <= b <= c <= d <= e <= |s|
    ensures s[a..b] + s[b..c] + s[c..e][..d - c] == s[a..d]
  {
    TwoParts(s, a, b, c);
    SliceOfSlice(s, c, e, 0, d - c);
    TwoParts(s, a, c, d);
  }

  /** Sequences that agree from `b` on agree exactly when they agree up to it. */
  lemma SameTail<T>(s: seq<T>, r: seq<T>, a: nat, b: nat, c: nat)
    requires a <= b <= c <= |s| == |r| && forall k :: b <= k < c ==> s[k] == r[k]
    ensures s[a..c] == r[a..c] <==> s[a..b] == r[a..b]
  {
    TwoParts(s, a, b, c);
    TwoParts(r, a, b, c);
    assert s[b..c] == r[b..c];
    SliceOfSlice(s, a, c, 0, b - a);
    SliceOfSlice(r, a, c, 0, b - a);
  }
}
