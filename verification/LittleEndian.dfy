/** Little-endian integers of any number of bytes. */
module LittleEndian {
  import opened Machine
  import opened ModArith
  import opened Radix

  function Value(s: seq<byte>): nat {
    EvalBound(s, 256);
    Eval(s, 256)
  }

  function Bytes(n: nat, k: nat): (s: seq<byte>)
    ensures |s| == k
  {
    Encode(n, k, 256)
  }

  /** 256^k. */
  function Range(k: nat): (w: nat)
    ensures w > 0
  {
    PowPositive(256, k);
    Pow(256, k)
  }

  lemma ValueCons(s: seq<byte>)
    requires s != []
    ensures Value(s) == s[0] + 256 * Value(s[1..])
  {
    assert s == [s[0]] + s[1..];
    EvalCons(s[0], s[1..], 256);
  }

  lemma ValueBound(s: seq<byte>)
    ensures Value(s) < Range(|s|)
  {
    EvalBound(s, 256);
  }

  lemma BytesOfValue(s: seq<byte>)
    ensures Bytes(Value(s), |s|) == s
  {
    EvalBound(s, 256);
    EvalEncode(Value(s), |s|, 256);
    EvalInjective(Encode(Value(s), |s|, 256), s, 256);
  }

  /** Writing keeps the value modulo the width. */
  lemma {:induction false} ValueOfBytes(n: nat, k: nat)
    ensures Value(Bytes(n, k)) == n % Range(k)
    decreases k
  {
    if k > 0 {
      var s := Bytes(n, k);
      assert s[1..] == Bytes(n / 256, k - 1);
      ValueCons(s);
      ValueOfBytes(n / 256, k - 1);
      LowDigit(n, Range(k - 1));
    }
  }

  lemma LowDigit(n: nat, w: nat)
    requires w > 0
    ensures n % 256 + 256 * (n / 256 % w) == n % (256 * w)
  {
    var q, r := n / 256 / w, n / 256 % w;
    assert n / 256 == q * w + r;
    assert n == 256 * (q * w + r) + n % 256;
    assert 256 * (q * w) == q * (256 * w);
    DivUnique(n, q, 256 * r + n % 256, 256 * w);
  }

  /** Equal values of equal width are equal strings. */
  lemma ValueInjective(s: seq<byte>, t: seq<byte>)
    requires |s| == |t| && Value(s) == Value(t)
    ensures s == t
  {
    BytesOfValue(s);
    BytesOfValue(t);
  }

  /** Different numbers within the width have different strings. */
  lemma BytesInjective(m: nat, n: nat, k: nat)
    requires m < Range(k) && n < Range(k) && Bytes(m, k) == Bytes(n, k)
    ensures m == n
  {
    ValueOfBytes(m, k);
    ValueOfBytes(n, k);
    DivUnique(m, 0, m, Range(k));
    DivUnique(n, 0, n, Range(k));
  }

  /** Only the low part of a number is written. */
  lemma BytesModulo(n: nat, k: nat)
    ensures Bytes(n % Range(k), k) == Bytes(n, k)
  {
    ValueOfBytes(n, k);
    ValueOfBytes(n % Range(k), k);
    ModIdem(n, Range(k));
    ValueInjective(Bytes(n % Range(k), k), Bytes(n, k));
  }

  lemma WordRanges()
    ensures Range(4) == 0x1_0000_0000 && Range(8) == 0x1_0000_0000_0000_0000
  {
    assert Range(2) == 0x1_0000;
    assert Range(3) == 0x100_0000;
    assert Range(5) == 256 * Range(4);
    assert Range(6) == 256 * Range(5);
    assert Range(7) == 256 * Range(6);
    assert Range(8) == 256 * Range(7);
  }
}
