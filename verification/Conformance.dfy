/** Where `ed25519_verify` and the verification of RFC 8032 section 5.1.7 part. */
module Conformance {
  import opened Machine
  import opened ModArith
  import opened Radix
  import opened Decode
  import opened Affine
  import opened PointEncoding
  import opened EdwardsGroup
  import opened Ladder
  import opened CurveLadder
  import opened Hashes
  import opened ScalarReduction
  import opened Ed25519
  import opened Edwards
  import EdwardsCurve
  import Primes
  import Nonresidues
  import Field25519

  /**
    Verification as RFC 8032 has it: S is below L, both encodings are canonical, and the scalar is
    SHA-512 of R, the key and the message modulo L.
   */
  ghost predicate RfcAccepts(k: Curve, base: Pt, f: BlockFunction, msg: seq<byte>, r: seq<byte>, s: seq<byte>,
                             pk: seq<byte>)
    requires k.m > 2 && k.sign > 0 && |r| == 32 && |s| == 32
  {
    && 0 <= Eval(s, 256) < L && Canonical(k, pk)
    && Meets(k, base, Eval(Hash512(f, r + pk + msg), 256) % L, r, Eval(s, 256), pk)
  }

  /** The code accepts whatever RFC 8032 does, and the same signatures when S is below L and the key canonical. */
  lemma AcceptsRfc(k: Curve, base: Pt, f: BlockFunction, msg: seq<byte>, r: seq<byte>, s: seq<byte>, pk: seq<byte>)
    requires Complete(k) && Finite(k, base) && |r| == |s| == |pk| == 32 && 2 * k.sign == Pow(256, 32)
    requires |msg| < 0x2000_0000_0000_0000
    ensures RfcAccepts(k, base, f, msg, r, s, pk)
       <==> Accepts(k, base, f, msg, r + s, pk) && Eval(s, 256) < L && Canonical(k, pk)
  {
    EvalBound(r, 256);
    EvalBound(s, 256);
    AcceptsHalves(k, base, f, msg, r, s, pk, Eval(s, 256));
    assert (r + s)[..32] == r;
    ChallengeMeaning(f, msg, r + s, pk);
  }

  // -------------------------------------------------- signatures under the neutral key

  /** The encoding of S B. */
  function MultipleBytes(k: Curve, base: Pt, s: seq<byte>): (r: seq<byte>)
    requires k.m > 2 && |s| == 32
    ensures |r| == 32
  {
    Encode(Encoding(k, ScalarMult(k, base, s)), 32, 256)
  }

  lemma EncodingRange(k: Curve, p: Pt)
    requires k.m > 2 && k.m <= k.sign
    ensures 0 <= Encoding(k, p) < 2 * k.sign
  {}

  lemma MultipleBytesValue(k: Curve, base: Pt, s: seq<byte>)
    requires Complete(k) && |s| == 32 && 2 * k.sign == Pow(256, 32)
    ensures Eval(MultipleBytes(k, base, s), 256) == Encoding(k, ScalarMult(k, base, s))
  {
    EncodingRange(k, ScalarMult(k, base, s));
    EvalEncode(Encoding(k, ScalarMult(k, base, s)), 32, 256);
  }

  /** With the neutral point for -A, the point that is compared with R is S B. */
  lemma NeutralCombination(k: Curve, base: Pt, h: int, s: seq<byte>)
    requires Complete(k) && Finite(k, base) && |s| == 32 && 0 <= h < L
    ensures Encoding(k, Combination(k, EdwardsCurve.IDENTITY, base, h, s)) == Encoding(k, ScalarMult(k, base, s))
  {
    ZeroElement(k);
    CombinationSound(k, EdwardsCurve.IDENTITY, base, h, s);
    ScalarMultCorrect(k, base, s);
    AffineSound(k, ScalarMult(k, base, s));
    NeutralMultiple(k, h);
    SumNeutral(k, AffineOf(k, ScalarMult(k, base, s)));
    EncodingExact(k, Combination(k, EdwardsCurve.IDENTITY, base, h, s), ScalarMult(k, base, s));
  }

  lemma NeutralMultiple(k: Curve, h: nat)
    requires Complete(k)
    ensures Times(k, h, ZERO) == ZERO
  {
    GroupSound(k);
    MultipleOfZero(GroupLaw(k), h);
  }

  /** Under a key that encodes y = 1, every S is accepted with R = S B, for every message. */
  lemma NeutralKeyAccepts(k: Curve, base: Pt, f: BlockFunction, msg: seq<byte>, s: seq<byte>, pk: seq<byte>)
    requires Complete(k) && Finite(k, base) && |s| == |pk| == 32 && 2 * k.sign == Pow(256, 32)
    requires EncodedY(k, pk) == 1
    ensures Accepts(k, base, f, msg, MultipleBytes(k, base, s) + s, pk)
  {
    var r := MultipleBytes(k, base, s);
    var sig := r + s;
    assert sig[..32] == r && sig[32..] == s;
    DecodesNeutral(k, pk);
    MultipleBytesValue(k, base, s);
    NeutralCombination(k, base, Challenge(f, msg, sig, pk), s);
  }

  lemma NeutralKey(k: Curve, pk: seq<byte>)
    requires EdwardsCurve.Proper(k) && k.m <= k.sign && Eval(pk, 256) == 1
    ensures EncodedY(k, pk) == 1 && Canonical(k, pk)
  {
    DivUnique(1, 0, 1, k.sign);
    DivUnique(1, 0, 1, k.m);
  }

  /** The two decisions on one signature agree. */
  ghost predicate AgreeAt(k: Curve, base: Pt, f: BlockFunction, msg: seq<byte>, r: seq<byte>, s: seq<byte>,
                          pk: seq<byte>)
    requires k.m > 2 && k.sign > 0
  {
    |r| == |s| == |pk| == 32 && Canonical(k, pk) ==>
      (Accepts(k, base, f, msg, r + s, pk) <==> RfcAccepts(k, base, f, msg, r, s, pk))
  }

  /** On canonical keys the code agrees with RFC 8032 for every R and key exactly when S is below L. */
  lemma AgreesExactly(k: Curve, base: Pt, f: BlockFunction, msg: seq<byte>, s: seq<byte>)
    requires Complete(k) && Finite(k, base) && |s| == 32 && 2 * k.sign == Pow(256, 32)
    requires |msg| < 0x2000_0000_0000_0000
    ensures (forall r, pk :: AgreeAt(k, base, f, msg, r, s, pk)) <==> Eval(s, 256) < L
  {
    EvalBound(s, 256);
    if Eval(s, 256) < L {
      forall r, pk ensures AgreeAt(k, base, f, msg, r, s, pk) {
        if |r| == |pk| == 32 {
          AcceptsRfc(k, base, f, msg, r, s, pk);
        }
      }
    } else {
      var r, pk := MultipleBytes(k, base, s), Encode(1, 32, 256);
      PowPositive(256, 31);
      EvalEncode(1, 32, 256);
      NeutralKey(k, pk);
      NeutralKeyAccepts(k, base, f, msg, s, pk);
      assert !AgreeAt(k, base, f, msg, r, s, pk);
    }
  }

  /** A key that is not canonical is accepted too, for every S. */
  lemma NoncanonicalKeyAccepted(k: Curve, base: Pt, f: BlockFunction, msg: seq<byte>, s: seq<byte>, pk: seq<byte>)
    requires Complete(k) && Finite(k, base) && |s| == |pk| == 32 && 2 * k.sign == Pow(256, 32) && k.m + 1 < k.sign
    requires Eval(pk, 256) == k.sign + 1 || Eval(pk, 256) == k.m + 1
    ensures Accepts(k, base, f, msg, MultipleBytes(k, base, s) + s, pk)
    ensures !RfcAccepts(k, base, f, msg, MultipleBytes(k, base, s), s, pk)
  {
    NoncanonicalNeutral(k, pk);
    NeutralKeyAccepts(k, base, f, msg, s, pk);
  }

  /** Agreement for Curve25519, given that 2^255 - 19 is prime. */
  lemma VerifyAgrees(f: BlockFunction, msg: seq<byte>, s: seq<byte>)
    requires Primes.Prime(Field25519.P) && |s| == 32 && |msg| < 0x2000_0000_0000_0000
    ensures (forall r, pk :: AgreeAt(CURVE_25519, BASE, f, msg, r, s, pk)) <==> Eval(s, 256) < L
  {
    Nonresidues.Curve25519Complete();
    BaseFinite();
    AgreesExactly(CURVE_25519, BASE, f, msg, s);
  }

  /** The two keys for Curve25519, given that 2^255 - 19 is prime. */
  lemma VerifyTakesNoncanonical(f: BlockFunction, msg: seq<byte>, s: seq<byte>, pk: seq<byte>)
    requires Primes.Prime(Field25519.P) && |s| == 32 && |pk| == 32
    requires Eval(pk, 256) == Field25519.TWO_TO_255 + 1 || Eval(pk, 256) == Field25519.P + 1
    ensures Accepts(CURVE_25519, BASE, f, msg, MultipleBytes(CURVE_25519, BASE, s) + s, pk)
    ensures !RfcAccepts(CURVE_25519, BASE, f, msg, MultipleBytes(CURVE_25519, BASE, s), s, pk)
  {
    Nonresidues.Curve25519Complete();
    BaseFinite();
    NoncanonicalKeyAccepted(CURVE_25519, BASE, f, msg, s, pk);
  }
}
