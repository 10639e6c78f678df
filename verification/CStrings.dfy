/** NUL-terminated strings. */
module CStrings {
  import opened Machine

  /** `s` is the string `w` in ASCII. */
  predicate Spells(s: seq<byte>, w: string) {
    |s| == |w| && forall k :: 0 <= k < |w| ==> s[k] == w[k] as int
  }

  /** The bytes of a C string. */
  function UpToNul(s: seq<byte>): seq<byte> {
    if s == [] || s[0] == 0 then [] else [s[0]] + UpToNul(s[1..])
  }

  /** `wstrlen` and `estrlen`, on a buffer that holds a NUL. */
  method StrLen(s: seq<byte>) returns (n: nat)
    requires 0 in s
    ensures n < |s| && s[n] == 0 && s[..n] == UpToNul(s)
  {
    n := 0;
    while s[n] != 0
      invariant n < |s| && forall i :: 0 <= i < n ==> s[i] != 0
      decreases |s| - n
    {
      n := n + 1;
    }
    FirstNul(s, n);
  }

  lemma {:induction false} FirstNul(s: seq<byte>, n: nat)
    requires n < |s| && s[n] == 0 && forall i :: 0 <= i < n ==> s[i] != 0
    ensures UpToNul(s) == s[..n]
  {
    if n > 0 {
      FirstNul(s[1..], n - 1);
      assert s[..n] == [s[0]] + s[1..][..n - 1];
    }
  }
}
