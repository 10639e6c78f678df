/** Limbwise addition and the two fixed-exponent chains (crypto/ed25519.c). */
module Powers25519 {
  import opened Machine
  import opened ModArith
  import opened Radix
  import opened Field25519

  /** `A`: limbwise sum; `o` may be `a` or `b`. */
  method A(o: array<i64>, a: array<i64>, b: array<i64>, ghost ba: int, ghost bb: int)
    requires o.Length == a.Length == b.Length == 16
    requires Within(a[..], ba) && Within(b[..], bb) && 0 <= ba <= 0x1_0000_0000 && 0 <= bb <= 0x1_0000_0000
    modifies o
    ensures F(o[..]) == (F(old(a[..])) + F(old(b[..]))) % P
    ensures Within(o[..], ba + bb)
  {
    ghost var s, r := a[..], b[..];
    for i := 0 to 16
      invariant forall k :: 0 <= k < i ==> o[k] == s[k] + r[k]
      invariant forall k :: i <= k < 16 ==> a[k] == s[k] && b[k] == r[k]
    {
      o[i] := a[i] + b[i];
    }
    EvalLinear(s, r, 1, o[..], 65536);
    ModAdd(Val(s), Val(r), P);
  }

  /** `Z`: limbwise difference; `o` may be `a` or `b`. */
  method Z(o: array<i64>, a: array<i64>, b: array<i64>, ghost ba: int, ghost bb: int)
    requires o.Length == a.Length == b.Length == 16
    requires Within(a[..], ba) && Within(b[..], bb) && 0 <= ba <= 0x1_0000_0000 && 0 <= bb <= 0x1_0000_0000
    modifies o
    ensures F(o[..]) == (F(old(a[..])) - F(old(b[..]))) % P
    ensures Within(o[..], ba + bb)
  {
    ghost var s, r := a[..], b[..];
    for i := 0 to 16
      invariant forall k :: 0 <= k < i ==> o[k] == s[k] - r[k]
      invariant forall k :: i <= k < 16 ==> a[k] == s[k] && b[k] == r[k]
    {
      o[i] := a[i] - b[i];
    }
    EvalLinear(s, r, -1, o[..], 65536);
    ModSub(Val(s), Val(r), P);
  }

  /** `S`. */
  method S(o: array<i64>, a: array<i64>)
    requires o.Length == a.Length == 16 && Within(a[..], 0x4_0000)
    modifies o
    ensures F(o[..]) == F(old(a[..])) * F(old(a[..])) % P
    ensures Reduced(o[..]) && Within(o[..], 65573)
  {
    M(o, a, a);
  }

  /** `set25519` and the copying loops. */
  method Set(r: array<i64>, a: array<i64>)
    requires r.Length == a.Length == 16
    modifies r
    ensures r[..] == old(a[..])
  {
    ghost var s := a[..];
    for i := 0 to 16
      invariant forall k :: 0 <= k < i ==> r[k] == s[k]
      invariant a[..] == s
    {
      r[i] := a[i];
    }
  }

  // ------------------------------------------------------------ power chains

  /** How far the exponent lies below the next power of two once bits below `a` remain. */
  function InvGap(a: nat): nat {
    match a case 0 => 21 case 1 => 11 case 2 => 6 case 3 => 3 case 4 => 2 case _ => 1
  }

  function SqrtGap(a: nat): nat {
    match a case 0 => 3 case 1 => 2 case _ => 1
  }

  lemma WithinMono(s: seq<int>, b: int, c: int)
    requires Within(s, b) && b <= c
    ensures Within(s, c)
  {}

  /** One round of a chain: square, then perhaps multiply by the base. */
  method ChainStep(c: array<i64>, i: array<i64>, mul: bool, ghost x: int, ghost e: nat)
    requires c.Length == i.Length == 16 && c != i
    requires Within(c[..], 0x4_0000) && Within(i[..], 0x4_0000)
    requires F(i[..]) == x % P && F(c[..]) == PowMod(x, e, P)
    modifies c
    ensures Within(c[..], 0x4_0000)
    ensures F(c[..]) == PowMod(x, if mul then 2 * e + 1 else 2 * e, P)
  {
    S(c, c);
    PowModSquare(x, e, P);
    WithinMono(c[..], 65573, 0x4_0000);
    if mul {
      M(c, c, i);
      PowModStep(x, 2 * e, P);
      WithinMono(c[..], 65573, 0x4_0000);
    }
  }

  lemma {:induction false} PowBase(n: nat)
    ensures Pow(2, 16 * n) == Pow(65536, n)
  {
    if n > 0 {
      PowBase(n - 1);
      PowAdd(2, 16, 16 * n - 16);
      assert Pow(2, 8) == 256;
      PowAdd(2, 8, 8);
    }
  }

  lemma PowTwo255(n: nat)
    requires n == 255
    ensures Pow(2, n) == P + 19
    ensures Pow(2, n - 3) == 0x10000000_00000000_00000000_00000000_00000000_00000000_00000000_00000000
  {
    PowBase(16);
    PowLimbs();
    assert Pow(2, n + 1) == 2 * Pow(2, n);
    PowAdd(2, 3, n - 3);
    assert Pow(2, 3) == 8;
  }

  /** `inv25519`: the power P - 2. */
  method Inv25519(o: array<i64>, i: array<i64>)
    requires o.Length == i.Length == 16 && Within(i[..], 0x4_0000)
    modifies o
    ensures F(o[..]) == PowMod(F(old(i[..])), P - 2, P)
    ensures Within(o[..], 0x4_0000)
  {
    var c := new i64[16];
    Set(c, i);
    ghost var x, e := F(i[..]), 1;
    ModIdem(Val(i[..]), P);
    assert Pow(x, 1) == x * Pow(x, 0);
    for a := 254 downto 0
      invariant i[..] == old(i[..]) && fresh(c)
      invariant e == Pow(2, 255 - a) - InvGap(a) && e >= 0
      invariant Within(c[..], 0x4_0000) && F(c[..]) == PowMod(x, e, P)
    {
      ChainStep(c, i, a != 2 && a != 4, x, e);
      e := if a != 2 && a != 4 then 2 * e + 1 else 2 * e;
    }
    PowTwo255(255);
    Set(o, c);
  }

  /** `pow2523`: the power 2^252 - 3. */
  method Pow2523(o: array<i64>, i: array<i64>)
    requires o.Length == i.Length == 16 && Within(i[..], 0x4_0000)
    modifies o
    ensures F(o[..]) == PowMod(F(old(i[..])),
            0x10000000_00000000_00000000_00000000_00000000_00000000_00000000_00000000 - 3, P)
    ensures Within(o[..], 0x4_0000)
  {
    var c := new i64[16];
    Set(c, i);
    ghost var x, e := F(i[..]), 1;
    ModIdem(Val(i[..]), P);
    assert Pow(x, 1) == x * Pow(x, 0);
    for a := 251 downto 0
      invariant i[..] == old(i[..]) && fresh(c)
      invariant e == Pow(2, 252 - a) - SqrtGap(a) && e >= 0
      invariant Within(c[..], 0x4_0000) && F(c[..]) == PowMod(x, e, P)
    {
      ChainStep(c, i, a != 1, x, e);
      e := if a != 1 then 2 * e + 1 else 2 * e;
    }
    PowTwo255(255);
    Set(o, c);
  }
}
