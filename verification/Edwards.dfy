/** The curve of RFC 8032 section 5.1 and its constants (crypto/ed25519.c). */
module Edwards {
  import opened ModArith
  import opened Field25519
  import opened EdwardsCurve

  const D: int := 0x52036cee2b6ffe738cc740797779e89800700a4d4141d8ab75eb4dca135978a3
  const D2: int := 0x2406d9dc56dffce7198e80f2eef3d13000e0149a8283b156ebd69b9426b2f159
  const SQRT_MINUS_ONE: int := 0x2b8324804fc1df0b2b4d00993dfbd7a72f431806ad2fe478c4ee1b274a0ea0b0
  const BASE_X: int := 0x216936d3cd6e53fec0a4e231fdd6dc5c692cc7609525a7b2c9562d608f25d51a
  const BASE_Y: int := 0x6666666666666666666666666666666666666666666666666666666666666658
  const BASE_T: int := 0x67875f0fd78b766566ea4e8e64abe37d20f09f80775152f56dde8ab3a5b7dda3

  /** 2^252 - 3. */
  const ROOT_EXPONENT: nat := 0x0fffffff_ffffffff_ffffffff_ffffffff_ffffffff_ffffffff_ffffffff_fffffffd

  const CURVE_25519: Curve := Curve(P, D, D2, SQRT_MINUS_ONE, ROOT_EXPONENT, TWO_TO_255)

  const BASE: Pt := Pt(BASE_X, BASE_Y, 1, BASE_T)

  lemma Constants()
    ensures Proper(CURVE_25519) && P == TWO_TO_255 - 19
    ensures Cong(121666 * D, -121665, P)
    ensures Cong(5 * BASE_Y, 4, P)
    ensures 0 < BASE_X < P && BASE_X % 2 == 0
    ensures BASE_X * BASE_Y % P == BASE_T
  {}

  lemma BaseOnCurve()
    ensures OnCurve(CURVE_25519, BASE)
  {}
}
