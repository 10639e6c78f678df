/** The AES-128 key schedule (`aes128_expand`; FIPS 197 section 5.2). */
module AesKeys {
  import opened AesBytes
  import opened AesColumns
  import opened LinearMaps
  import opened Aes

  /** The round constant x^(k-1). */
  function Rcon(k: nat): bv8 {
    if k <= 1 then 1 else Xt(Rcon(k - 1))
  }

  function XorWord(v: Column<bv8>, w: Column<bv8>): Column<bv8> {
    Column(Xor(v.b0, w.b0), Xor(v.b1, w.b1), Xor(v.b2, w.b2), Xor(v.b3, w.b3))
  }

  /** The rotated and substituted word, with a round constant in its first byte. */
  function Scramble(w: Column<bv8>, rcon: bv8): Column<bv8> {
    Column(Xor(Sbox(w.b1), rcon), Sbox(w.b2), Sbox(w.b3), Sbox(w.b0))
  }

  /** Word `i` of the key schedule. */
  function Word(key: Block, i: nat): Column<bv8>
    decreases i, key, 1
  {
    if i < 4 then ColumnAt(key, i) else XorWord(Word(key, i - 4), Added(key, i))
  }

  /** The previous word, scrambled at every fourth place. */
  function Added(key: Block, i: nat): Column<bv8>
    requires i >= 4
    decreases i, key, 0
  {
    if i % 4 == 0 then Scramble(Word(key, i - 1), Rcon(i / 4)) else Word(key, i - 1)
  }

  function Expanded(key: Block): Schedule {
    seq(176, k requires 0 <= k < 176 => ByteAt(Word(key, k / 4), k % 4))
  }

  lemma IsExpanded(key: Block, rk: Schedule)
    requires forall w :: 0 <= w < 44 ==> ColumnAt(rk, w) == Word(key, w)
    ensures rk == Expanded(key)
  {
    forall k | 0 <= k < 176 ensures rk[k] == ByteAt(Word(key, k / 4), k % 4) {
      assert ColumnAt(rk, k / 4) == Word(key, k / 4);
    }
  }

  /** The round constants of FIPS 197 section 5.2. */
  lemma RconValues(k: nat)
    requires k < 10
    ensures Rcon(k + 1) == [0x01, 0x02, 0x04, 0x08, 0x10, 0x20, 0x40, 0x80, 0x1b, 0x36][k]
  {
    assert Rcon(4) == 0x08 && Rcon(7) == 0x40 && Rcon(10) == 0x36;
  }

  /**
    Word `w` of a schedule, byte by byte: each byte is the one four words back plus the one in the word
    before; at the start of a round key the word before is rotated by one byte and substituted, and the
    first byte takes the round constant.
   */
  predicate FipsWord<T(==)>(add: (T, T) -> T, sub: T -> T, rcon: T, rk: seq<T>, w: nat)
    requires w >= 4 && 4 * w + 4 <= |rk|
  {
    var n := 4 * w;
    if w % 4 != 0 then
      forall k :: n <= k < n + 4 ==> rk[k] == add(rk[k - 16], rk[k - 4])
    else
      && rk[n] == add(rk[n - 16], add(sub(rk[n - 3]), rcon))
      && rk[n + 1] == add(rk[n - 15], sub(rk[n - 2]))
      && rk[n + 2] == add(rk[n - 14], sub(rk[n - 1]))
      && rk[n + 3] == add(rk[n - 13], sub(rk[n - 4]))
  }

  /** The schedule starts with the key and goes on as FIPS 197 section 5.2 says. */
  lemma ExpandedMeaning(key: Block, w: nat)
    requires 4 <= w < 44
    ensures Expanded(key)[..16] == key && FipsWord(Xor, Sbox, Rcon(w / 4), Expanded(key), w)
  {
    assert Expanded(key)[..16] == key;
    ExpandedColumn(key, w);
    ExpandedColumn(key, w - 4);
    ExpandedColumn(key, w - 1);
    ColumnsFips(Xor, Sbox, Rcon(w / 4), Expanded(key), w);
  }

  lemma ColumnsFips<T>(add: (T, T) -> T, sub: T -> T, rcon: T, rk: seq<T>, w: nat)
    requires w >= 4 && 4 * w + 4 <= |rk|
    requires var v, u := ColumnAt(rk, w - 4), ColumnAt(rk, w - 1);
             var x := if w % 4 == 0 then Column(add(sub(u.b1), rcon), sub(u.b2), sub(u.b3), sub(u.b0)) else u;
             ColumnAt(rk, w) == Column(add(v.b0, x.b0), add(v.b1, x.b1), add(v.b2, x.b2), add(v.b3, x.b3))
    ensures FipsWord(add, sub, rcon, rk, w)
  {}

  lemma ExpandedColumn(key: Block, w: nat)
    requires w < 44
    ensures ColumnAt(Expanded(key), w) == Word(key, w)
  {
    SerialColumn(Expanded(key), (i: nat) => Word(key, i), w);
  }

  lemma SerialColumn<T>(rk: seq<T>, word: nat -> Column<T>, w: nat)
    requires 4 * w + 4 <= |rk| && forall k :: 0 <= k < |rk| ==> rk[k] == ByteAt(word(k / 4), k % 4)
    ensures ColumnAt(rk, w) == word(w)
  {}

  ghost predicate WordsBelow(key: Block, rk: Bytes, n: nat) {
    4 * n <= |rk| && forall w :: 0 <= w < n ==> ColumnAt(rk, w) == Word(key, w)
  }

  /** `aes128_expand`. */
  method Expand(key: array<bv8>, rk: array<bv8>)
    requires key.Length == 16 && rk.Length == 176
    modifies rk
    ensures rk[..] == Expanded(key[..])
  {
    CopyKey(key, rk);
    var rcon: bv8 := 1;
    for w := 4 to 44
      invariant WordsBelow(key[..], rk[..], w)
      invariant rcon == Rcon((w + 3) / 4)
    {
      var t;
      t, rcon := NextWord(ColumnAt(rk[..], w - 1), w, rcon, key[..]);
      SetWord(rk, w, XorWord(ColumnAt(rk[..], w - 4), t));
    }
    IsExpanded(key[..], rk[..]);
  }

  method CopyKey(key: array<bv8>, rk: array<bv8>)
    requires key.Length == 16 && rk.Length == 176
    modifies rk
    ensures WordsBelow(key[..], rk[..], 4)
  {
    for i := 0 to 16
      invariant forall j :: 0 <= j < i ==> rk[j] == key[j]
    {
      rk[i] := key[i];
    }
  }

  /** The word that is added to the one four places back. */
  method NextWord(prev: Column<bv8>, w: nat, rcon: bv8, ghost key: Block) returns (t: Column<bv8>, rcon': bv8)
    requires 4 <= w < 44 && prev == Word(key, w - 1) && rcon == Rcon((w + 3) / 4)
    ensures t == Added(key, w) && rcon' == Rcon((w + 4) / 4)
  {
    t, rcon' := prev, rcon;
    if 4 * w % 16 == 0 {
      assert (w + 3) / 4 == w / 4 && (w + 4) / 4 == w / 4 + 1;
      t, rcon' := Scramble(prev, rcon), Xt(rcon);
    } else {
      assert (w + 3) / 4 == (w + 4) / 4;
    }
  }

  method SetWord<T>(rk: array<T>, w: nat, c: Column<T>)
    requires 4 * w + 4 <= rk.Length
    modifies rk
    ensures ColumnAt(rk[..], w) == c
    ensures forall v :: 0 <= v && 4 * v + 4 <= rk.Length && v != w ==> ColumnAt(rk[..], v) == old(ColumnAt(rk[..], v))
  {
    rk[4 * w], rk[4 * w + 1], rk[4 * w + 2], rk[4 * w + 3] := c.b0, c.b1, c.b2, c.b3;
  }
}
