/** The array code of AES-128: `aes128_encrypt`, `aes128_decrypt` and `aes128_expand`. */
module AesCode {
  import opened AesBytes
  import opened AesColumns
  import opened LinearMaps
  import opened RoundCipher
  import opened Aes

  // ----------------------------------------------------------- the layers in place

  method AddKey(s: array<bv8>, rk: array<bv8>, r: nat)
    requires s.Length == 16 && rk.Length == 176 && r <= 10 && s != rk
    modifies s
    ensures s[..] == XorBlock(old(s[..]), RoundKey(rk[..], r))
  {
    for i := 0 to 16
      invariant forall j :: 0 <= j < 16 ==> s[j] == (if j < i then Xor(old(s[j]), rk[16 * r + j]) else old(s[j]))
    {
      s[i] := Xor(s[i], rk[16 * r + i]);
    }
  }

  method SubInto(s: array<bv8>, t: array<bv8>)
    requires s.Length == 16 && t.Length == 16 && s != t
    modifies t
    ensures t[..] == SubBytes(s[..])
  {
    for i := 0 to 16
      invariant forall j :: 0 <= j < i ==> t[j] == Sbox(s[j])
    {
      t[i] := Sbox(s[i]);
    }
  }

  method InvSubInto(t: array<bv8>, s: array<bv8>)
    requires s.Length == 16 && t.Length == 16 && s != t
    modifies s
    ensures s[..] == InvSubBytes(t[..])
  {
    for i := 0 to 16
      invariant forall j :: 0 <= j < i ==> s[j] == Rsbox(t[j])
    {
      s[i] := Rsbox(t[i]);
    }
  }

  method SetRow<T>(a: array<T>, r: nat, x0: T, x1: T, x2: T, x3: T)
    requires a.Length == 16 && r < 4
    modifies a
    ensures a[r] == x0 && a[r + 4] == x1 && a[r + 8] == x2 && a[r + 12] == x3
    ensures forall i :: 0 <= i < 16 && i % 4 != r ==> a[i] == old(a[i])
  {
    a[r], a[r + 4], a[r + 8], a[r + 12] := x0, x1, x2, x3;
  }

  method ShiftInto<T>(t: array<T>, a: array<T>)
    requires a.Length == 16 && t.Length == 16 && a != t
    modifies a
    ensures a[..] == RotatedRows(t[..])
  {
    SetRow(a, 0, t[0], t[4], t[8], t[12]);
    SetRow(a, 1, t[5], t[9], t[13], t[1]);
    SetRow(a, 2, t[10], t[14], t[2], t[6]);
    SetRow(a, 3, t[15], t[3], t[7], t[11]);
  }

  method InvShiftInto<T>(s: array<T>, t: array<T>)
    requires s.Length == 16 && t.Length == 16 && s != t
    modifies t
    ensures t[..] == RotatedBack(s[..])
  {
    SetRow(t, 0, s[0], s[4], s[8], s[12]);
    SetRow(t, 1, s[13], s[1], s[5], s[9]);
    SetRow(t, 2, s[10], s[14], s[2], s[6]);
    SetRow(t, 3, s[7], s[11], s[15], s[3]);
  }

  method Sum4(x: bv8, y: bv8, z: bv8, w: bv8) returns (r: bv8)
    ensures r == Add4(Xor, x, y, z, w)
  {
    r := x ^ y ^ z ^ w;
  }

  method MixBytes(b0: bv8, b1: bv8, b2: bv8, b3: bv8) returns (c0: bv8, c1: bv8, c2: bv8, c3: bv8)
    ensures Column(c0, c1, c2, c3) == Mix(Column(b0, b1, b2, b3))
  {
    c0 := Sum4(Xt(b0), Xor(Xt(b1), b1), b2, b3);
    c1 := Sum4(b0, Xt(b1), Xor(Xt(b2), b2), b3);
    c2 := Sum4(b0, b1, Xt(b2), Xor(Xt(b3), b3));
    c3 := Sum4(Xor(Xt(b0), b0), b1, b2, Xt(b3));
  }

  method InvMixBytes(b0: bv8, b1: bv8, b2: bv8, b3: bv8) returns (c0: bv8, c1: bv8, c2: bv8, c3: bv8)
    ensures Column(c0, c1, c2, c3) == InvMix(Column(b0, b1, b2, b3))
  {
    c0 := InvMixByte(b0, 14, b1, 11, b2, 13, b3, 9);
    c1 := InvMixByte(b0, 9, b1, 14, b2, 11, b3, 13);
    c2 := InvMixByte(b0, 13, b1, 9, b2, 14, b3, 11);
    c3 := InvMixByte(b0, 11, b1, 13, b2, 9, b3, 14);
  }

  method InvMixByte(b0: bv8, k0: bv8, b1: bv8, k1: bv8, b2: bv8, k2: bv8, b3: bv8, k3: bv8) returns (c: bv8)
    ensures c == Add4(Xor, Product(b0, k0, 8), Product(b1, k1, 8), Product(b2, k2, 8), Product(b3, k3, 8))
  {
    var x := Gmul(b0, k0);
    var y := Gmul(b1, k1);
    var z := Gmul(b2, k2);
    var w := Gmul(b3, k3);
    c := Sum4(x, y, z, w);
  }

  method MixInto(a: array<bv8>, s: array<bv8>)
    requires a.Length == 16 && s.Length == 16 && a != s
    modifies s
    ensures s[..] == MixColumns(a[..])
  {
    for col := 0 to 4
      invariant forall c :: 0 <= c < col ==> ColumnAt(s[..], c) == Mix(ColumnAt(a[..], c))
    {
      var c0, c1, c2, c3 := MixBytes(a[4 * col], a[4 * col + 1], a[4 * col + 2], a[4 * col + 3]);
      SetColumn(s, col, c0, c1, c2, c3);
    }
    IsEachColumn(Mix, a[..], s[..]);
  }

  lemma IsEachColumn<T>(f: Column<T> -> Column<T>, s: seq<T>, t: seq<T>)
    requires |s| == 16 && |t| == 16 && forall c :: 0 <= c < 4 ==> ColumnAt(t, c) == f(ColumnAt(s, c))
    ensures t == EachColumn(f, s)
  {
    forall c | 0 <= c < 4 ensures ColumnAt(t, c) == ColumnAt(EachColumn(f, s), c) {
      ColumnOfEach(f, s, c);
    }
    SameColumns(t, EachColumn(f, s));
  }

  method SetColumn<T>(s: array<T>, col: nat, c0: T, c1: T, c2: T, c3: T)
    requires s.Length == 16 && col < 4
    modifies s
    ensures ColumnAt(s[..], col) == Column(c0, c1, c2, c3)
    ensures forall c :: 0 <= c < 4 && c != col ==> ColumnAt(s[..], c) == old(ColumnAt(s[..], c))
  {
    s[4 * col], s[4 * col + 1], s[4 * col + 2], s[4 * col + 3] := c0, c1, c2, c3;
  }

  /** `InvMixColumns` in place. */
  method InvMixInPlace(s: array<bv8>)
    requires s.Length == 16
    modifies s
    ensures s[..] == InvMixColumns(old(s[..]))
  {
    for col := 0 to 4
      invariant forall c :: 0 <= c < col ==> ColumnAt(s[..], c) == InvMix(old(ColumnAt(s[..], c)))
      invariant forall c :: col <= c < 4 ==> ColumnAt(s[..], c) == old(ColumnAt(s[..], c))
    {
      var Column(b0, b1, b2, b3) := ColumnAt(s[..], col);
      var c0, c1, c2, c3 := InvMixBytes(b0, b1, b2, b3);
      SetColumn(s, col, c0, c1, c2, c3);
    }
    IsEachColumn(InvMix, old(s[..]), s[..]);
  }

  method CopyInto<T>(src: array<T>, dst: array<T>)
    requires src.Length == dst.Length
    modifies dst
    ensures dst[..] == old(src[..])
  {
    for i := 0 to src.Length
      invariant dst[..i] == old(src[..i]) && src[i..] == old(src[i..])
    {
      dst[i] := src[i];
    }
  }

  // ------------------------------------------------------------- the cipher

  /** SubBytes and ShiftRows. */
  method ConfuseInto(s: array<bv8>, a: array<bv8>)
    requires s.Length == 16 && a.Length == 16 && a != s
    modifies a
    ensures a[..] == Confuse(s[..])
  {
    var t := new bv8[16];
    SubInto(s, t);
    ShiftInto(t, a);
  }

  method Round(s: array<bv8>, rk: array<bv8>, r: nat)
    requires s.Length == 16 && rk.Length == 176 && r <= 10
    modifies s
    ensures s[..] == XorBlock(MixColumns(Confuse(old(s[..]))), RoundKey(rk[..], r))
  {
    var a := new bv8[16];
    ConfuseInto(s, a);
    MixInto(a, s);
    AddKey(s, rk, r);
  }

  method FirstKey(inp: array<bv8>, s: array<bv8>, rk: array<bv8>)
    requires inp.Length == 16 && s.Length == 16 && rk.Length == 176 && s != inp
    modifies s
    ensures s[..] == State(rk[..], inp[..], 0)
  {
    CopyInto(inp, s);
    AddKey(s, rk, 0);
    FirstState(rk[..], inp[..]);
  }

  method NextRound(s: array<bv8>, rk: array<bv8>, r: nat, ghost b: Block)
    requires s.Length == 16 && rk.Length == 176 && 1 <= r <= 9
    requires s[..] == State(rk[..], b, r - 1)
    modifies s
    ensures s[..] == State(rk[..], b, r)
  {
    Round(s, rk, r);
    NextState(rk[..], b, r);
  }

  method LastRound(s: array<bv8>, out: array<bv8>, rk: array<bv8>, ghost b: Block)
    requires s.Length == 16 && out.Length == 16 && rk.Length == 176 && out != s
    requires s[..] == State(rk[..], b, 9)
    modifies out
    ensures out[..] == Cipher(rk[..], b)
  {
    ConfuseInto(s, out);
    AddKey(out, rk, 10);
    LastState(rk[..], b);
  }

  /** `aes128_encrypt`; `out` may be `inp`. */
  method Encrypt(inp: array<bv8>, out: array<bv8>, rk: array<bv8>)
    requires inp.Length == 16 && out.Length == 16 && rk.Length == 176
    modifies out
    ensures out[..] == Cipher(rk[..], old(inp[..]))
  {
    ghost var b := inp[..];
    var s := new bv8[16];
    FirstKey(inp, s, rk);
    for r := 1 to 10
      invariant s[..] == State(rk[..], b, r - 1)
    {
      NextRound(s, rk, r, b);
    }
    LastRound(s, out, rk, b);
  }

  method InvRound(s: array<bv8>, rk: array<bv8>, r: nat)
    requires s.Length == 16 && rk.Length == 176 && r <= 10
    modifies s
    ensures var u := XorBlock(Unconfuse(old(s[..])), RoundKey(rk[..], r));
            s[..] == if r > 0 then InvMixColumns(u) else u
  {
    var t := new bv8[16];
    InvShiftInto(s, t);
    InvSubInto(t, s);
    AddKey(s, rk, r);
    if r > 0 {
      InvMixInPlace(s);
    }
  }

  /** `aes128_decrypt`; `out` may be `inp`. */
  method Decrypt(inp: array<bv8>, out: array<bv8>, rk: array<bv8>)
    requires inp.Length == 16 && out.Length == 16 && rk.Length == 176
    modifies out
    ensures out[..] == InvCipher(rk[..], old(inp[..]))
  {
    ghost var e, key := inp[..], rk[..];
    var s := new bv8[16];
    CopyInto(inp, s);
    AddKey(s, rk, 10);
    for round := 10 downto 0
      invariant s[..] == InvState(key, e, round)
    {
      InvRound(s, rk, round);
    }
    CopyInto(s, out);
  }
}
