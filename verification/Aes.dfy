/**
 * AES-128 (crypto/wpa2.c, crypto/wpa2_eapol.c; FIPS 197): the cipher and the inverse cipher as functions of
 * a block and a round-key array, and the proof that they undo each other.
 */
module Aes {
  import opened AesBytes
  import opened AesColumns
  import opened LinearMaps
  import opened RoundCipher

  type Bytes = seq<bv8>

  type Block = s: Bytes | |s| == 16 witness [0, 0, 0, 0, 0, 0, 0, 0, 0, 0, 0, 0, 0, 0, 0, 0]

  type Schedule = s: Bytes | |s| == 176 witness seq(176, i => 0)

  function SubBytes(s: Block): Block {
    seq(16, i requires 0 <= i < 16 => Sbox(s[i]))
  }

  function InvSubBytes(s: Block): Block {
    seq(16, i requires 0 <= i < 16 => Rsbox(s[i]))
  }

  /** Row `r` of the state, which is stored by columns, rotated left by `r` columns. */
  function RotatedRows<T>(t: seq<T>): (r: seq<T>)
    requires |t| == 16
    ensures |r| == 16
  {
    seq(16, i requires 0 <= i < 16 => t[(i + 4 * (i % 4)) % 16])
  }

  /** Row `r` rotated right by `r` columns. */
  function RotatedBack<T>(s: seq<T>): (r: seq<T>)
    requires |s| == 16
    ensures |r| == 16
  {
    seq(16, i requires 0 <= i < 16 => s[(i + 12 * (i % 4)) % 16])
  }

  function ShiftRows(t: Block): Block { RotatedRows(t) }

  function InvShiftRows(s: Block): Block { RotatedBack(s) }

  function ColumnAt<T>(s: seq<T>, c: nat): Column<T>
    requires 4 * c + 4 <= |s|
  {
    Column(s[4 * c], s[4 * c + 1], s[4 * c + 2], s[4 * c + 3])
  }

  function ByteAt<T>(c: Column<T>, k: nat): T {
    if k == 0 then c.b0 else if k == 1 then c.b1 else if k == 2 then c.b2 else c.b3
  }

  /** A map on columns applied to each of the four columns of a state. */
  function EachColumn<T>(f: Column<T> -> Column<T>, s: seq<T>): (r: seq<T>)
    requires |s| == 16
    ensures |r| == 16
  {
    seq(16, i requires 0 <= i < 16 => ByteAt(f(ColumnAt(s, i / 4)), i % 4))
  }

  function MixColumns(s: Block): Block { EachColumn(Mix, s) }

  function InvMixColumns(s: Block): Block { EachColumn(InvMix, s) }

  function XorBlock(s: Block, k: Block): Block {
    seq(16, i requires 0 <= i < 16 => Xor(s[i], k[i]))
  }

  function Confuse(s: Block): Block { ShiftRows(SubBytes(s)) }

  function Unconfuse(s: Block): Block { InvSubBytes(InvShiftRows(s)) }

  function AesLayers(): Layers<Block> {
    Layers(Confuse, Unconfuse, MixColumns, InvMixColumns, XorBlock)
  }

  function RoundKey(rk: Schedule, r: nat): Block
    requires r <= 10
  {
    rk[16 * r..16 * r + 16]
  }

  function Keys(rk: Schedule): (k: seq<Block>)
    ensures |k| == 11
  {
    seq(11, r requires 0 <= r < 11 => RoundKey(rk, r))
  }

  /** FIPS 197 section 5.1. */
  function Cipher(rk: Schedule, b: Block): Block {
    Encipher(AesLayers(), Keys(rk), b)
  }

  /** FIPS 197 section 5.3. */
  function InvCipher(rk: Schedule, c: Block): Block {
    Decipher(AesLayers(), Keys(rk), c)
  }

  /** The state of encryption after `r` full rounds. */
  function State(rk: Schedule, b: Block, r: nat): Block
    requires r <= 10
  {
    Rounds(AesLayers(), Keys(rk), b, r)
  }

  lemma FirstState(rk: Schedule, b: Block)
    ensures State(rk, b, 0) == XorBlock(b, RoundKey(rk, 0))
  {}

  lemma NextState(rk: Schedule, b: Block, r: nat)
    requires 1 <= r <= 9
    ensures State(rk, b, r) == XorBlock(MixColumns(Confuse(State(rk, b, r - 1))), RoundKey(rk, r))
  {}

  lemma LastState(rk: Schedule, b: Block)
    ensures Cipher(rk, b) == XorBlock(Confuse(State(rk, b, 9)), RoundKey(rk, 10))
  {}

  /** The state of decryption once rounds 10 down to `r` are undone. */
  function InvState(rk: Schedule, e: Block, r: nat): Block
    requires r <= 10
  {
    InvRounds(AesLayers(), Keys(rk), e, r)
  }

  // --------------------------------------------------- each layer and its inverse

  lemma SubBytesInverse(s: Block)
    ensures InvSubBytes(SubBytes(s)) == s && SubBytes(InvSubBytes(s)) == s
  {
    forall i | 0 <= i < |s| ensures Rsbox(Sbox(s[i])) == s[i] && Sbox(Rsbox(s[i])) == s[i] {
      TablesInverse(s[i]);
    }
  }

  lemma RotatedRowsMeaning<T>(t: seq<T>, r: nat, c: nat)
    requires |t| == 16 && r < 4 && c < 4
    ensures RotatedRows(t)[4 * c + r] == t[4 * ((c + r) % 4) + r]
  {}

  lemma RotatedRowsInverse<T>(s: seq<T>)
    requires |s| == 16
    ensures RotatedBack(RotatedRows(s)) == s && RotatedRows(RotatedBack(s)) == s
  {
    forall i | 0 <= i < 16 ensures RotatedBack(RotatedRows(s))[i] == s[i] && RotatedRows(RotatedBack(s))[i] == s[i] {
      LeftThenRight(i, (i + 4 * (i % 4)) % 16);
      RightThenLeft(i, (i + 12 * (i % 4)) % 16);
    }
  }

  lemma LeftThenRight(i: nat, j: nat)
    requires i < 16 && j == (i + 4 * (i % 4)) % 16
    ensures (j + 12 * (j % 4)) % 16 == i
  {
    var r := i % 4;
    var q := (i + 4 * r) / 16;
    assert j == i + 4 * r - 16 * q;
    assert j % 4 == r;
  }

  lemma RightThenLeft(i: nat, j: nat)
    requires i < 16 && j == (i + 12 * (i % 4)) % 16
    ensures (j + 4 * (j % 4)) % 16 == i
  {
    var r := i % 4;
    var q := (i + 12 * r) / 16;
    assert j == i + 12 * r - 16 * q;
    assert j % 4 == r;
  }

  lemma ConfuseInverse(s: Block)
    ensures Unconfuse(Confuse(s)) == s && Confuse(Unconfuse(s)) == s
  {
    RotatedRowsInverse(SubBytes(s));
    SubBytesInverse(s);
    RotatedRowsInverse(s);
    SubBytesInverse(InvShiftRows(s));
  }

  lemma ColumnOfEach<T>(f: Column<T> -> Column<T>, s: seq<T>, c: nat)
    requires |s| == 16 && c < 4
    ensures ColumnAt(EachColumn(f, s), c) == f(ColumnAt(s, c))
  {}

  lemma SameColumns<T>(s: seq<T>, t: seq<T>)
    requires |s| == 16 && |t| == 16 && forall c :: 0 <= c < 4 ==> ColumnAt(s, c) == ColumnAt(t, c)
    ensures s == t
  {
    forall i | 0 <= i < 16 ensures s[i] == t[i] {
      assert ColumnAt(s, i / 4) == ColumnAt(t, i / 4);
    }
  }

  lemma EachInverse<T>(f: Column<T> -> Column<T>, g: Column<T> -> Column<T>, s: seq<T>)
    requires |s| == 16 && forall c :: 0 <= c < 4 ==> g(f(ColumnAt(s, c))) == ColumnAt(s, c)
    ensures EachColumn(g, EachColumn(f, s)) == s
  {
    forall c | 0 <= c < 4 ensures ColumnAt(EachColumn(g, EachColumn(f, s)), c) == ColumnAt(s, c) {
      ColumnOfEach(f, s, c);
      ColumnOfEach(g, EachColumn(f, s), c);
    }
    SameColumns(EachColumn(g, EachColumn(f, s)), s);
  }

  lemma MixColumnsInverse(s: Block)
    ensures InvMixColumns(MixColumns(s)) == s && MixColumns(InvMixColumns(s)) == s
  {
    forall c | 0 <= c < 4
      ensures InvMix(Mix(ColumnAt(s, c))) == ColumnAt(s, c) && Mix(InvMix(ColumnAt(s, c))) == ColumnAt(s, c)
    {
      MixInverse(ColumnAt(s, c));
    }
    EachInverse(Mix, InvMix, s);
    EachInverse(InvMix, Mix, s);
  }

  lemma XorBlockTwice(s: Block, k: Block)
    ensures XorBlock(XorBlock(s, k), k) == s
  {
    forall i | 0 <= i < |s| ensures Xor(Xor(s[i], k[i]), k[i]) == s[i] {
      XorTwice(s[i], k[i]);
    }
  }

  lemma XorTwice(a: bv8, b: bv8)
    ensures Xor(Xor(a, b), b) == a
  {}

  lemma AesInvertible()
    ensures Invertible(AesLayers())
  {
    forall s: Block, k: Block ensures InvertsAt(AesLayers(), s, k) {
      ConfuseInverse(s);
      MixColumnsInverse(s);
      XorBlockTwice(s, k);
    }
  }

  // ------------------------------------------------------------- round trips

  /** The inverse cipher undoes the cipher and the cipher the inverse, for every block and every round-key array. */
  lemma CipherInverse(rk: Schedule, b: Block)
    ensures InvCipher(rk, Cipher(rk, b)) == b && Cipher(rk, InvCipher(rk, b)) == b
  {
    AesInvertible();
    DecipherEncipher(AesLayers(), Keys(rk), b);
    EncipherDecipher(AesLayers(), Keys(rk), b);
  }

  // --------------------------------------------------- FIPS 197 on single bytes

  /** SubBytes and ShiftRows: column `c` of row `r` comes from column `c + r`. */
  lemma ConfuseBytes(s: Block, r: nat, c: nat)
    requires r < 4 && c < 4
    ensures Confuse(s)[4 * c + r] == Sbox(s[4 * ((c + r) % 4) + r])
  {
    RotatedRowsMeaning(SubBytes(s), r, c);
  }

  /** MixColumns: each column times the matrix with the rows of 2, 3, 1, 1 (FIPS 197 section 5.1.3). */
  lemma MixColumnsBytes(s: Block, c: nat, n: nat)
    requires c < 4 && n > 1
    ensures var b0, b1, b2, b3 := s[4 * c], s[4 * c + 1], s[4 * c + 2], s[4 * c + 3];
            && MixColumns(s)[4 * c] == Add4(Xor, Product(b0, 2, n), Product(b1, 3, n), b2, b3)
            && MixColumns(s)[4 * c + 1] == Add4(Xor, b0, Product(b1, 2, n), Product(b2, 3, n), b3)
            && MixColumns(s)[4 * c + 2] == Add4(Xor, b0, b1, Product(b2, 2, n), Product(b3, 3, n))
            && MixColumns(s)[4 * c + 3] == Add4(Xor, Product(b0, 3, n), b1, b2, Product(b3, 2, n))
  {
    ColumnOfEach(Mix, s, c);
    MixMeaning(ColumnAt(s, c), n);
  }

  lemma XorBlockAt(s: Block, k: Block, i: nat)
    requires i < 16
    ensures XorBlock(s, k)[i] == s[i] ^ k[i]
  {}

  /** Encryption: in round `r` byte `i` of the state meets byte `16 r + i` of the round-key array. */
  lemma CipherBytes(rk: Schedule, b: Block, r: nat, i: nat)
    requires 1 <= r <= 9 && i < 16
    ensures State(rk, b, 0)[i] == b[i] ^ rk[i]
    ensures State(rk, b, r)[i] == MixColumns(Confuse(State(rk, b, r - 1)))[i] ^ rk[16 * r + i]
    ensures Cipher(rk, b)[i] == Confuse(State(rk, b, 9))[i] ^ rk[160 + i]
  {
    FirstState(rk, b);
    NextState(rk, b, r);
    LastState(rk, b);
    XorBlockAt(b, RoundKey(rk, 0), i);
    XorBlockAt(MixColumns(Confuse(State(rk, b, r - 1))), RoundKey(rk, r), i);
    XorBlockAt(Confuse(State(rk, b, 9)), RoundKey(rk, 10), i);
  }

  /** Decryption: the same bytes of the array, met in the opposite order. */
  lemma InvCipherBytes(rk: Schedule, e: Block, r: nat, i: nat)
    requires 1 <= r <= 9 && i < 16
    ensures InvState(rk, e, 10)[i] == e[i] ^ rk[160 + i]
    ensures MixColumns(InvState(rk, e, r))[i] == Unconfuse(InvState(rk, e, r + 1))[i] ^ rk[16 * r + i]
    ensures InvCipher(rk, e)[i] == Unconfuse(InvState(rk, e, 1))[i] ^ rk[i]
  {
    XorBlockAt(e, RoundKey(rk, 10), i);
    MixColumnsInverse(XorBlock(Unconfuse(InvState(rk, e, r + 1)), RoundKey(rk, r)));
    XorBlockAt(Unconfuse(InvState(rk, e, r + 1)), RoundKey(rk, r), i);
    XorBlockAt(Unconfuse(InvState(rk, e, 1)), RoundKey(rk, 0), i);
  }
}
