/** MixColumns and its inverse (crypto/wpa2.c, crypto/wpa2_eapol.c; FIPS 197 sections 5.1.3 and 5.3.3). */
module AesColumns {
  import opened AesBytes
  import opened LinearMaps

  function Xor(x: bv8, y: bv8): bv8 { x ^ y }

  function One(x: bv8): bv8 { x }

  function Three(x: bv8): bv8 { Xor(Xt(x), x) }

  /** One column of MixColumns, as in `aes128_encrypt`. */
  function Mix(c: Column<bv8>): Column<bv8> {
    Column(Add4(Xor, Xt(c.b0), Three(c.b1), c.b2, c.b3),
           Add4(Xor, c.b0, Xt(c.b1), Three(c.b2), c.b3),
           Add4(Xor, c.b0, c.b1, Xt(c.b2), Three(c.b3)),
           Add4(Xor, Three(c.b0), c.b1, c.b2, Xt(c.b3)))
  }

  /** One column of InvMixColumns, as in `aes128_decrypt`. */
  function InvMix(c: Column<bv8>): Column<bv8> {
    Column(Add4(Xor, Product(c.b0, 14, 8), Product(c.b1, 11, 8), Product(c.b2, 13, 8), Product(c.b3, 9, 8)),
           Add4(Xor, Product(c.b0, 9, 8), Product(c.b1, 14, 8), Product(c.b2, 11, 8), Product(c.b3, 13, 8)),
           Add4(Xor, Product(c.b0, 13, 8), Product(c.b1, 9, 8), Product(c.b2, 14, 8), Product(c.b3, 11, 8)),
           Add4(Xor, Product(c.b0, 11, 8), Product(c.b1, 13, 8), Product(c.b2, 9, 8), Product(c.b3, 14, 8)))
  }

  // ------------------------------------------------------------ linear maps

  function Double2(x: bv8): bv8 { Xt(Xt(x)) }
  function Double3(x: bv8): bv8 { Xt(Double2(x)) }
  function Sum13(x: bv8): bv8 { Xor(Xt(x), Double3(x)) }
  function Sum23(x: bv8): bv8 { Xor(Double2(x), Double3(x)) }
  function Nine(x: bv8): bv8 { Xor(x, Double3(x)) }
  function Eleven(x: bv8): bv8 { Xor(x, Sum13(x)) }
  function Thirteen(x: bv8): bv8 { Xor(x, Sum23(x)) }
  function Fourteen(x: bv8): bv8 { Xor(Xt(x), Sum23(x)) }

  lemma XorLaws()
    ensures Commutative(Xor)
  {
    forall x, y, z ensures SumLaws(Xor, x, y, z) {
      XorLawsAt(x, y, z);
    }
  }

  lemma XorLawsAt(x: bv8, y: bv8, z: bv8)
    ensures Xor(x, y) == Xor(y, x) && Xor(Xor(x, y), z) == Xor(x, Xor(y, z))
  {}

  lemma XtIsLinear()
    ensures Linear(Xor, Xt) && Linear(Xor, One)
  {
    forall x, y ensures Additive(Xor, Xt, x, y) && Additive(Xor, One, x, y) {
      XtLinear(x, y);
    }
  }

  lemma DoublesLinear()
    ensures Linear(Xor, Double2) && Linear(Xor, Double3)
  {
    XtIsLinear();
    LinearCompose(Xor, Xt, Xt, Double2);
    LinearCompose(Xor, Xt, Double2, Double3);
  }

  lemma ThreeLinear()
    ensures Linear(Xor, Three)
  {
    XorLaws();
    XtIsLinear();
    LinearSum(Xor, Xt, One, Three);
  }

  lemma NineLinear()
    ensures Linear(Xor, Nine)
  {
    XorLaws();
    XtIsLinear();
    DoublesLinear();
    LinearSum(Xor, One, Double3, Nine);
  }

  lemma ElevenLinear()
    ensures Linear(Xor, Eleven)
  {
    XorLaws();
    XtIsLinear();
    DoublesLinear();
    LinearSum(Xor, Xt, Double3, Sum13);
    LinearSum(Xor, One, Sum13, Eleven);
  }

  lemma ThirteenLinear()
    ensures Linear(Xor, Thirteen)
  {
    XorLaws();
    XtIsLinear();
    DoublesLinear();
    LinearSum(Xor, Double2, Double3, Sum23);
    LinearSum(Xor, One, Sum23, Thirteen);
  }

  lemma FourteenLinear()
    ensures Linear(Xor, Fourteen)
  {
    XorLaws();
    XtIsLinear();
    DoublesLinear();
    LinearSum(Xor, Double2, Double3, Sum23);
    LinearSum(Xor, Xt, Sum23, Fourteen);
  }

  // ------------------------------------------------- the two circulant matrices

  function MixRow(): Row<bv8> { Row(Xt, Three, One, One) }

  function InvRow(): Row<bv8> { Row(Fourteen, Eleven, Thirteen, Nine) }

  lemma InvMixEntry0(x: bv8)
    ensures Add4(Xor, Fourteen(Xt(x)), Eleven(One(x)), Thirteen(One(x)), Nine(Three(x))) == x
  {}

  lemma InvMixEntry1(x: bv8)
    ensures Add4(Xor, Fourteen(Three(x)), Eleven(Xt(x)), Thirteen(One(x)), Nine(One(x))) == 0
  {}

  lemma InvMixEntry2(x: bv8)
    ensures Add4(Xor, Fourteen(One(x)), Eleven(Three(x)), Thirteen(Xt(x)), Nine(One(x))) == 0
  {}

  lemma InvMixEntry3(x: bv8)
    ensures Add4(Xor, Fourteen(One(x)), Eleven(One(x)), Thirteen(Three(x)), Nine(Xt(x))) == 0
  {}

  lemma MixInvEntry0(x: bv8)
    ensures Add4(Xor, Xt(Fourteen(x)), Three(Nine(x)), One(Thirteen(x)), One(Eleven(x))) == x
  {}

  lemma MixInvEntry1(x: bv8)
    ensures Add4(Xor, Xt(Eleven(x)), Three(Fourteen(x)), One(Nine(x)), One(Thirteen(x))) == 0
  {}

  lemma MixInvEntry2(x: bv8)
    ensures Add4(Xor, Xt(Thirteen(x)), Three(Eleven(x)), One(Fourteen(x)), One(Nine(x))) == 0
  {}

  lemma MixInvEntry3(x: bv8)
    ensures Add4(Xor, Xt(Nine(x)), Three(Thirteen(x)), One(Eleven(x)), One(Fourteen(x))) == 0
  {}

  lemma XorZero(x: bv8)
    ensures ZeroLaws(Xor, 0, x)
  {}

  lemma InvMixUnit()
    ensures Unit(Xor, 0, InvRow(), MixRow())
  {
    XorLaws();
    NineLinear();
    ElevenLinear();
    ThirteenLinear();
    FourteenLinear();
    forall x ensures UnitRow(Xor, 0, InvRow(), MixRow(), x) {
      InvMixEntry0(x);
      InvMixEntry1(x);
      InvMixEntry2(x);
      InvMixEntry3(x);
    }
    forall x ensures ZeroLaws(Xor, 0, x) {
      XorZero(x);
    }
  }

  lemma MixInvUnit()
    ensures Unit(Xor, 0, MixRow(), InvRow())
  {
    XorLaws();
    XtIsLinear();
    ThreeLinear();
    forall x ensures UnitRow(Xor, 0, MixRow(), InvRow(), x) {
      MixInvEntry0(x);
      MixInvEntry1(x);
      MixInvEntry2(x);
      MixInvEntry3(x);
    }
    forall x ensures ZeroLaws(Xor, 0, x) {
      XorZero(x);
    }
  }

  lemma MixIsCirculant(c: Column<bv8>)
    ensures Mix(c) == Circulant(Xor, MixRow(), c)
  {
    XorLaws();
    RotateRows(Xor, MixRow(), c.b0, c.b1, c.b2, c.b3);
  }

  lemma InvMixIsCirculant(c: Column<bv8>)
    ensures InvMix(c) == Circulant(Xor, InvRow(), c)
  {
    XorLaws();
    RotateRows(Xor, InvRow(), c.b0, c.b1, c.b2, c.b3);
    Constants(c.b0);
    Constants(c.b1);
    Constants(c.b2);
    Constants(c.b3);
  }

  lemma Constants(x: bv8)
    ensures Product(x, 9, 8) == Nine(x) && Product(x, 11, 8) == Eleven(x)
    ensures Product(x, 13, 8) == Thirteen(x) && Product(x, 14, 8) == Fourteen(x)
  {
    IsNine(x);
    IsEleven(x);
    IsThirteen(x);
    IsFourteen(x);
  }

  lemma IsNine(x: bv8)
    ensures Product(x, 9, 8) == Nine(x)
  {
    Times9(x, 8);
  }

  lemma IsEleven(x: bv8)
    ensures Product(x, 11, 8) == Eleven(x)
  {
    Times11(x, 8);
  }

  lemma IsThirteen(x: bv8)
    ensures Product(x, 13, 8) == Thirteen(x)
  {
    Times13(x, 8);
  }

  lemma IsFourteen(x: bv8)
    ensures Product(x, 14, 8) == Fourteen(x)
  {
    Times14(x, 8);
  }

  /** The `gmul` matrix and the `xt` matrix are inverse to each other. */
  lemma MixInverse(c: Column<bv8>)
    ensures InvMix(Mix(c)) == c && Mix(InvMix(c)) == c
  {
    InvMixUnit();
    MixInvUnit();
    MixIsCirculant(c);
    MixIsCirculant(InvMix(c));
    InvMixIsCirculant(c);
    InvMixIsCirculant(Mix(c));
    CirculantInverse(Xor, 0, InvRow(), MixRow(), c);
    CirculantInverse(Xor, 0, MixRow(), InvRow(), c);
  }

  /** The `xt` expressions are the products of FIPS 197 section 5.1.3, in as many bits as hold 2 and 3. */
  lemma MixMeaning(c: Column<bv8>, n: nat)
    requires n > 1
    ensures Mix(c).b0 == Add4(Xor, Product(c.b0, 2, n), Product(c.b1, 3, n), c.b2, c.b3)
    ensures Mix(c).b1 == Add4(Xor, c.b0, Product(c.b1, 2, n), Product(c.b2, 3, n), c.b3)
    ensures Mix(c).b2 == Add4(Xor, c.b0, c.b1, Product(c.b2, 2, n), Product(c.b3, 3, n))
    ensures Mix(c).b3 == Add4(Xor, Product(c.b0, 3, n), c.b1, c.b2, Product(c.b3, 2, n))
  {
    IsTwoOrThree(c.b0, n);
    IsTwoOrThree(c.b1, n);
    IsTwoOrThree(c.b2, n);
    IsTwoOrThree(c.b3, n);
  }

  lemma IsTwoOrThree(x: bv8, n: nat)
    requires n > 1
    ensures Product(x, 2, n) == Xt(x) && Product(x, 3, n) == Three(x)
  {
    Times2(x, n);
    Times3(x, n);
  }
}
