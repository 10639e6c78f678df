/** The AES-128 byte operations (crypto/wpa2.c, crypto/wpa2_eapol.c; FIPS 197 sections 4 and 5). */
module AesBytes {

  /** `sbox`: each constant is a row of sixteen table entries. */
  function Sbox(x: bv8): bv8 {
    var row: bv128 :=
      (if x & 128 == 0 then
        (if x & 64 == 0 then
          (if x & 32 == 0 then
            (if x & 16 == 0 then 0x637c777b_f26b6fc5_3001672b_fed7ab76 else 0xca82c97d_fa5947f0_add4a2af_9ca472c0)
          else
            (if x & 16 == 0 then 0xb7fd9326_363ff7cc_34a5e5f1_71d83115 else 0x04c723c3_1896059a_071280e2_eb27b275))
        else
          (if x & 32 == 0 then
            (if x & 16 == 0 then 0x09832c1a_1b6e5aa0_523bd6b3_29e32f84 else 0x53d100ed_20fcb15b_6acbbe39_4a4c58cf)
          else
            (if x & 16 == 0 then 0xd0efaafb_434d3385_45f9027f_503c9fa8 else 0x51a3408f_929d38f5_bcb6da21_10fff3d2)))
      else
        (if x & 64 == 0 then
          (if x & 32 == 0 then
            (if x & 16 == 0 then 0xcd0c13ec_5f974417_c4a77e3d_645d1973 else 0x60814fdc_222a9088_46eeb814_de5e0bdb)
          else
            (if x & 16 == 0 then 0xe0323a0a_4906245c_c2d3ac62_9195e479 else 0xe7c8376d_8dd54ea9_6c56f4ea_657aae08))
        else
          (if x & 32 == 0 then
            (if x & 16 == 0 then 0xba78252e_1ca6b4c6_e8dd741f_4bbd8b8a else 0x703eb566_4803f60e_613557b9_86c11d9e)
          else
            (if x & 16 == 0 then 0xe1f89811_69d98e94_9b1e87e9_ce5528df else 0x8ca1890d_bfe64268_41992d0f_b054bb16))));
    ((row >> (120 - ((x & 15) << 3))) & 0xff) as bv8
  }

  /** `rsbox`, laid out the same way. */
  function Rsbox(x: bv8): bv8 {
    var row: bv128 :=
      (if x & 128 == 0 then
        (if x & 64 == 0 then
          (if x & 32 == 0 then
            (if x & 16 == 0 then 0x52096ad5_3036a538_bf40a39e_81f3d7fb else 0x7ce33982_9b2fff87_348e4344_c4dee9cb)
          else
            (if x & 16 == 0 then 0x547b9432_a6c2233d_ee4c950b_42fac34e else 0x082ea166_28d924b2_765ba249_6d8bd125))
        else
          (if x & 32 == 0 then
            (if x & 16 == 0 then 0x72f8f664_86689816_d4a45ccc_5d65b692 else 0x6c704850_fdedb9da_5e154657_a78d9d84)
          else
            (if x & 16 == 0 then 0x90d8ab00_8cbcd30a_f7e45805_b8b34506 else 0xd02c1e8f_ca3f0f02_c1afbd03_01138a6b)))
      else
        (if x & 64 == 0 then
          (if x & 32 == 0 then
            (if x & 16 == 0 then 0x3a911141_4f67dcea_97f2cfce_f0b4e673 else 0x96ac7422_e7ad3585_e2f937e8_1c75df6e)
          else
            (if x & 16 == 0 then 0x47f11a71_1d29c589_6fb7620e_aa18be1b else 0xfc563e4b_c6d27920_9adbc0fe_78cd5af4))
        else
          (if x & 32 == 0 then
            (if x & 16 == 0 then 0x1fdda833_8807c731_b1121059_2780ec5f else 0x60517fa9_19b54a0d_2de57a9f_93c99cef)
          else
            (if x & 16 == 0 then 0xa0e03b4d_ae2af5b0_c8ebbb3c_83539961 else 0x172b047e_ba77d626_e1691463_55210c7d))));
    ((row >> (120 - ((x & 15) << 3))) & 0xff) as bv8
  }

  /** The two tables are inverse permutations of the bytes. */
  lemma TablesInverse(x: bv8)
    ensures Rsbox(Sbox(x)) == x && Sbox(Rsbox(x)) == x
  {
    RsboxInverts(x);
    SboxInverts(x);
  }

  lemma RsboxInverts(x: bv8)
    ensures Rsbox(Sbox(x)) == x
  {}

  lemma SboxInverts(x: bv8)
    ensures Sbox(Rsbox(x)) == x
  {}

  // ------------------------------------------------------- the field GF(2^8)

  /** `xt`: multiplication by x modulo x^8 + x^4 + x^3 + x + 1. */
  function Xt(x: bv8): bv8 {
    (x << 1) ^ ((x >> 7) * 0x1b)
  }

  lemma XtLinear(a: bv8, b: bv8)
    ensures Xt(a ^ b) == Xt(a) ^ Xt(b)
  {}

  /** The product of `a` and the low `n` bits of `b` in GF(2^8), by shift and add. */
  function Product(a: bv8, b: bv8, n: nat): bv8
    decreases n, a
  {
    if n == 0 then 0 else (if b & 1 == 1 then a else 0) ^ Product(Xt(a), b >> 1, n - 1)
  }

  /** `gmul`. */
  method Gmul(a: bv8, b: bv8) returns (p: bv8)
    ensures p == Product(a, b, 8)
  {
    p := 0;
    var x, y := a, b;
    ghost var goal := Product(a, b, 8);
    ZeroXor(goal);
    for i := 0 to 8
      invariant p ^ Product(x, y, 8 - i) == goal
    {
      ghost var rest := Product(Xt(x), y >> 1, 7 - i);
      assert Product(x, y, 8 - i) == (if y & 1 == 1 then x else 0) ^ rest;
      XorStep(p, x, y, rest);
      p, x, y := GmulStep(p, x, y);
    }
    ZeroXor(p);
  }

  /** The body of the loop in `gmul`. */
  method GmulStep(p: bv8, x: bv8, y: bv8) returns (p': bv8, x': bv8, y': bv8)
    ensures p' == (if y & 1 == 1 then p ^ x else p) && x' == Xt(x) && y' == y >> 1
  {
    p', x', y' := p, x, y;
    if y' & 1 == 1 {
      p' := p' ^ x';
    }
    var hi := x' & 0x80;
    x' := x' << 1;
    if hi != 0 {
      x' := x' ^ 0x1b;
    }
    y' := y' >> 1;
    Reduce(x);
  }

  lemma ZeroXor(x: bv8)
    ensures 0 ^ x == x && x ^ 0 == x
  {}

  lemma XorStep(p: bv8, x: bv8, y: bv8, rest: bv8)
    ensures p ^ ((if y & 1 == 1 then x else 0) ^ rest) == (if y & 1 == 1 then p ^ x else p) ^ rest
  {}

  lemma Reduce(x: bv8)
    ensures Xt(x) == if x & 0x80 != 0 then (x << 1) ^ 0x1b else x << 1
  {}

  // ----------------------------------- the constants of the inverse cipher

  lemma ProductOdd(a: bv8, b: bv8, h: bv8, n: nat)
    requires n > 0 && b & 1 == 1 && b >> 1 == h
    ensures Product(a, b, n) == a ^ Product(Xt(a), h, n - 1)
  {}

  lemma ProductEven(a: bv8, b: bv8, h: bv8, n: nat)
    requires n > 0 && b & 1 == 0 && b >> 1 == h
    ensures Product(a, b, n) == Product(Xt(a), h, n - 1)
  {
    ZeroXor(Product(Xt(a), h, n - 1));
  }

  lemma {:induction false} ProductZero(a: bv8, n: nat)
    ensures Product(a, 0, n) == 0
    decreases n
  {
    if n > 0 {
      ProductZero(Xt(a), n - 1);
    }
  }

  /** Multiplying by 1, with bits to spare. */
  lemma ProductOne(a: bv8, n: nat)
    requires n > 0
    ensures Product(a, 1, n) == a
  {
    ProductOdd(a, 1, 0, n);
    ProductZero(Xt(a), n - 1);
    ZeroXor(a);
  }

  // Multiplication by the small constants, as sums of doublings.

  lemma Times2(a: bv8, n: nat)
    requires n > 1
    ensures Product(a, 2, n) == Xt(a)
  {
    ProductEven(a, 2, 1, n);
    ProductOne(Xt(a), n - 1);
  }

  lemma Times3(a: bv8, n: nat)
    requires n > 1
    ensures Product(a, 3, n) == a ^ Xt(a)
  {
    ProductOdd(a, 3, 1, n);
    ProductOne(Xt(a), n - 1);
  }

  lemma Times4(a: bv8, n: nat)
    requires n > 2
    ensures Product(a, 4, n) == Xt(Xt(a))
  {
    ProductEven(a, 4, 2, n);
    Times2(Xt(a), n - 1);
  }

  lemma Times5(a: bv8, n: nat)
    requires n > 2
    ensures Product(a, 5, n) == a ^ Xt(Xt(a))
  {
    ProductOdd(a, 5, 2, n);
    Times2(Xt(a), n - 1);
  }

  lemma Times6(a: bv8, n: nat)
    requires n > 2
    ensures Product(a, 6, n) == Xt(a) ^ Xt(Xt(a))
  {
    ProductEven(a, 6, 3, n);
    Times3(Xt(a), n - 1);
  }

  lemma Times7(a: bv8, n: nat)
    requires n > 2
    ensures Product(a, 7, n) == a ^ (Xt(a) ^ Xt(Xt(a)))
  {
    ProductOdd(a, 7, 3, n);
    Times3(Xt(a), n - 1);
  }

  lemma Times9(a: bv8, n: nat)
    requires n > 3
    ensures Product(a, 9, n) == a ^ Xt(Xt(Xt(a)))
  {
    ProductOdd(a, 9, 4, n);
    Times4(Xt(a), n - 1);
  }

  lemma Times11(a: bv8, n: nat)
    requires n > 3
    ensures Product(a, 11, n) == a ^ (Xt(a) ^ Xt(Xt(Xt(a))))
  {
    ProductOdd(a, 11, 5, n);
    Times5(Xt(a), n - 1);
  }

  lemma Times13(a: bv8, n: nat)
    requires n > 3
    ensures Product(a, 13, n) == a ^ (Xt(Xt(a)) ^ Xt(Xt(Xt(a))))
  {
    ProductOdd(a, 13, 6, n);
    Times6(Xt(a), n - 1);
  }

  lemma Times14(a: bv8, n: nat)
    requires n > 3
    ensures Product(a, 14, n) == Xt(a) ^ (Xt(Xt(a)) ^ Xt(Xt(Xt(a))))
  {
    ProductEven(a, 14, 7, n);
    Times7(Xt(a), n - 1);
  }

  // ------------------------------------------- what the substitution table is

  /** The affine map of FIPS 197 section 5.1.1, and its inverse. */
  function Affine(b: bv8): bv8 {
    b ^ ((b << 1) | (b >> 7)) ^ ((b << 2) | (b >> 6)) ^ ((b << 3) | (b >> 5)) ^ ((b << 4) | (b >> 4)) ^ 0x63
  }

  function Unaffine(b: bv8): bv8 {
    ((b << 1) | (b >> 7)) ^ ((b << 3) | (b >> 5)) ^ ((b << 6) | (b >> 2)) ^ 0x05
  }

  lemma AffineInverse(b: bv8)
    ensures Affine(Unaffine(b)) == b
  {}

  /** The table is the affine image of the inverse in GF(2^8), with 0 taken as its own inverse. */
  lemma SboxMeaning(x: bv8)
    ensures var y := Unaffine(Sbox(x));
            Sbox(x) == Affine(y) && (if x == 0 then y == 0 else Product(x, y, 8) == 1)
  {
    AffineInverse(Sbox(x));
    SboxZero();
    SboxTimes(x);
    EightTerms(x, Unaffine(Sbox(x)));
  }

  lemma SboxZero()
    ensures Unaffine(Sbox(0)) == 0
  {}

  lemma SboxTimes(x: bv8)
    ensures x != 0 ==> Sum8(x, Unaffine(Sbox(x))) == 1
  {
    if x & 0xc0 == 0 {
      if x != 0 {
        Quarter0(x);
      }
    } else if x & 0xc0 == 0x40 {
      Quarter1(x);
    } else if x & 0xc0 == 0x80 {
      Quarter2(x);
    } else {
      Quarter3(x);
    }
  }

  lemma Quarter0(x: bv8)
    requires x & 0xc0 == 0 && x != 0
    ensures Sum8(x, Unaffine(Sbox(x))) == 1
  {}

  lemma Quarter1(x: bv8)
    requires x & 0xc0 == 0x40
    ensures Sum8(x, Unaffine(Sbox(x))) == 1
  {}

  lemma Quarter2(x: bv8)
    requires x & 0xc0 == 0x80
    ensures Sum8(x, Unaffine(Sbox(x))) == 1
  {}

  lemma Quarter3(x: bv8)
    requires x & 0xc0 == 0xc0
    ensures Sum8(x, Unaffine(Sbox(x))) == 1
  {}

  // The product written out, one term at a time.

  function Term(a: bv8, b: bv8): bv8 { if b & 1 == 1 then a else 0 }
  function Sum2(a: bv8, b: bv8): bv8 { Term(a, b) ^ Term(Xt(a), b >> 1) }
  function Sum3(a: bv8, b: bv8): bv8 { Term(a, b) ^ Sum2(Xt(a), b >> 1) }
  function Sum4(a: bv8, b: bv8): bv8 { Term(a, b) ^ Sum3(Xt(a), b >> 1) }
  function Sum5(a: bv8, b: bv8): bv8 { Term(a, b) ^ Sum4(Xt(a), b >> 1) }
  function Sum6(a: bv8, b: bv8): bv8 { Term(a, b) ^ Sum5(Xt(a), b >> 1) }
  function Sum7(a: bv8, b: bv8): bv8 { Term(a, b) ^ Sum6(Xt(a), b >> 1) }
  function Sum8(a: bv8, b: bv8): bv8 { Term(a, b) ^ Sum7(Xt(a), b >> 1) }

  lemma OneTerm(a: bv8, b: bv8)
    ensures Product(a, b, 1) == Term(a, b)
  {
    assert Product(Xt(a), b >> 1, 0) == 0;
    ZeroXor(Term(a, b));
  }

  lemma TwoTerms(a: bv8, b: bv8)
    ensures Product(a, b, 2) == Sum2(a, b)
  {
    OneTerm(Xt(a), b >> 1);
  }

  lemma ThreeTerms(a: bv8, b: bv8)
    ensures Product(a, b, 3) == Sum3(a, b)
  {
    TwoTerms(Xt(a), b >> 1);
  }

  lemma FourTerms(a: bv8, b: bv8)
    ensures Product(a, b, 4) == Sum4(a, b)
  {
    ThreeTerms(Xt(a), b >> 1);
  }

  lemma FiveTerms(a: bv8, b: bv8)
    ensures Product(a, b, 5) == Sum5(a, b)
  {
    FourTerms(Xt(a), b >> 1);
  }

  lemma SixTerms(a: bv8, b: bv8)
    ensures Product(a, b, 6) == Sum6(a, b)
  {
    FiveTerms(Xt(a), b >> 1);
  }

  lemma SevenTerms(a: bv8, b: bv8)
    ensures Product(a, b, 7) == Sum7(a, b)
  {
    SixTerms(Xt(a), b >> 1);
  }

  lemma EightTerms(a: bv8, b: bv8)
    ensures Product(a, b, 8) == Sum8(a, b)
  {
    SevenTerms(Xt(a), b >> 1);
  }
}
