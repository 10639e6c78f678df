/** Signature verification (crypto/ed25519.c, `ed25519_verify`; RFC 8032 section 5.1.7). */
module Ed25519 {
  import opened Machine
  import opened ModArith
  import opened Radix
  import opened Codec25519
  import opened Points
  import opened PointCodec
  import opened Decode
  import opened Affine
  import opened PointEncoding
  import EdwardsCurve
  import opened EdwardsGroup
  import opened Edwards
  import opened Ladder
  import opened CurveLadder
  import opened Streaming
  import opened Hashes
  import opened ScalarReduction
  import opened Primes
  import opened Nonresidues
  import opened Field25519

  type Curve = EdwardsCurve.Curve
  type Pt = EdwardsCurve.Pt

  /** The digest of R, the public key and the message, as a number modulo L. */
  function Challenge(f: BlockFunction, msg: seq<byte>, sig: seq<byte>, pk: seq<byte>): int
    requires |sig| == 64
  {
    Eval(RunOf512(f, [sig[..32], pk, msg]), 256) % L
  }

  /** h * (-A) + S * B. */
  function Combination(k: Curve, negA: Pt, base: Pt, h: int, s: seq<byte>): Pt
    requires k.m > 0 && |s| == 32
  {
    EdwardsCurve.Add(k, ScalarMult(k, negA, Encode(h, 32, 256)), ScalarMult(k, base, s))
  }

  /** What `ed25519_verify` decides, for any curve and base point. */
  predicate Accepts(k: Curve, base: Pt, f: BlockFunction, msg: seq<byte>, sig: seq<byte>, pk: seq<byte>)
    requires k.m > 2 && k.sign > 0 && |sig| == 64 && |pk| == 32
  {
    match DecodeNeg(k, pk)
    case None => false
    case Some(negA) =>
      Eval(sig[..32], 256) == Encoding(k, Combination(k, negA, base, Challenge(f, msg, sig, pk), sig[32..]))
  }

  /** The bytes of a residue are the ones `reduce` produces. */
  lemma ScalarBytes(r: seq<int>, h: int)
    requires |r| == 32 && Digits(r, 256) && Eval(r, 256) == h
    ensures r == Encode(h, 32, 256)
  {
    EvalBound(r, 256);
    EvalEncode(h, 32, 256);
    EvalInjective(r, Encode(h, 32, 256), 256);
  }

  method HashToScalar(f: BlockFunction, msg: seq<byte>, sig: seq<byte>, pk: seq<byte>) returns (h: seq<byte>)
    requires |sig| == 64
    ensures h == Encode(Challenge(f, msg, sig, pk), 32, 256)
  {
    var c := new Sha512(f);
    c.Update(sig[..32]);
    c.Update(pk);
    c.Update(msg);
    ThreeChunks(sig[..32], pk, msg);
    var digest := c.Final();
    ghost var st := HashWith(f, INITIAL_512, Flatten([sig[..32], pk, msg]), 128, 16, CountedAll([sig[..32], pk, msg]));
    FoldWidth(f, INITIAL_512, Padded(Flatten([sig[..32], pk, msg]), 128, 16, CountedAll([sig[..32], pk, msg])), 128);
    DigestLength(st, 8);
    var r := new byte[64](i requires 0 <= i < 64 => digest[i]);
    assert r[..] == digest;
    Reduce(r);
    h := r[..32];
    ScalarBytes(h, Challenge(f, msg, sig, pk));
  }

  /**
    The challenge is SHA-512 of the encoding of R, the key and the message, in this order, as a little-endian
    number modulo L. The 128-bit length of a message of 2^61 bytes or more is not counted right (CounterExact).
   */
  lemma ChallengeMeaning(f: BlockFunction, msg: seq<byte>, sig: seq<byte>, pk: seq<byte>)
    requires |sig| == 64 && |pk| == 32 && |msg| < 0x2000_0000_0000_0000
    ensures Challenge(f, msg, sig, pk) == Eval(Hash512(f, sig[..32] + pk + msg), 256) % L
  {
    ThreeUpdates(f, sig[..32], pk, msg);
  }

  lemma ThreeUpdates(f: BlockFunction, a: seq<byte>, b: seq<byte>, c: seq<byte>)
    requires |a| < 0x2000_0000_0000_0000 && |b| < 0x2000_0000_0000_0000 && |c| < 0x2000_0000_0000_0000
    ensures RunOf512(f, [a, b, c]) == Hash512(f, a + b + c)
  {
    ThreeChunks(a, b, c);
    assert [] + a + b + c == a + b + c;
    NothingLost([a, b, c]);
    RunOfMessage(f, [a, b, c], a + b + c);
  }

  lemma ThreeChunks(a: seq<byte>, b: seq<byte>, c: seq<byte>)
    ensures Flatten([a, b, c]) == [] + a + b + c
    ensures CountedAll([a, b, c]) == Counted(Counted(Counted(0, |a|), |b|), |c|)
  {
    var x, y, z := [a], [a, b], [a, b, c];
    assert z[..2] == y && y[..1] == x && x[..0] == [];
    assert Flatten(z) == Flatten(y) + c && Flatten(y) == Flatten(x) + b && Flatten(x) == Flatten([]) + a;
    assert CountedAll(z) == Counted(CountedAll(y), |c|) && CountedAll(y) == Counted(CountedAll(x), |b|);
  }

  /** From `scalarmult` to the end of `ed25519_verify`. */
  method CheckSignature(q: Point, h: seq<byte>, sig: seq<byte>) returns (ok: bool)
    requires q.Valid() && q.Small() && |h| == 32 && |sig| == 64
    modifies q.x, q.y, q.z, q.t
    ensures var u, v := ScalarMult(CURVE_25519, old(q.Value()), h), ScalarMult(CURVE_25519, BASE, sig[32..]);
            ok <==> Eval(sig[..32], 256) == Encoding(CURVE_25519, EdwardsCurve.Add(CURVE_25519, u, v))
  {
    var p := new Point();
    ScalarMultiply(p, q, h);
    ScalarBase(q, sig[32..]);
    Points.Add(p, q);
    var t := new byte[32];
    ok := Matches(t, p, sig[..32]);
  }

  /** `pack` and `crypto_verify_32`. */
  method Matches(t: array<byte>, p: Point, r: seq<byte>) returns (ok: bool)
    requires t.Length == 32 && p.Valid() && p.Small() && |r| == 32
    modifies t
    ensures ok <==> Eval(r, 256) == Encoding(CURVE_25519, p.Value())
  {
    PackPoint(t, p);
    var d := Verify32(r, t[..]);
    if Eval(r, 256) == Eval(t[..], 256) {
      EvalInjective(r, t[..], 256);
    }
    ok := d == 0;
  }

  /** `ed25519_verify`. */
  method Verify(f: BlockFunction, msg: seq<byte>, sig: seq<byte>, pk: seq<byte>) returns (ok: bool)
    requires |sig| == 64 && |pk| == 32
    ensures ok <==> Accepts(CURVE_25519, BASE, f, msg, sig, pk)
  {
    var q := new Point();
    var rc := UnpackNeg(q, pk);
    if rc != 0 {
      return false;
    }
    var h := HashToScalar(f, msg, sig, pk);
    ok := CheckSignature(q, h, sig);
  }

  // ------------------------------------------------------ what acceptance means

  /** The affine point a string stands for, whether or not the string is canonical. */
  function Decoded(k: Curve, s: seq<byte>): Option<Elt>
    requires k.m > 0 && k.sign > 0
  {
    match DecodeNeg(k, s)
    case None => None
    case Some(n) => Some(Opposed(k, (n.x, n.y)))
  }

  /** The decoder's result is a finite point whose affine form is the negation of the decoded point. */
  lemma DecodedSound(k: Curve, s: seq<byte>)
    requires Complete(k) && DecodeNeg(k, s).Some?
    ensures var n, a := DecodeNeg(k, s).value, Decoded(k, s).value;
            Finite(k, n) && Element(k, AffineOf(k, n)) && Element(k, a) && Sum(k, AffineOf(k, n), a) == ZERO
  {
    var n := DecodeNeg(k, s).value;
    DecodeSound(k, s);
    DivUnique(1, 0, 1, k.m);
    AffineOfOne(k, n);
    AffineSound(k, n);
    SumInverse(k, (n.x, n.y));
  }

  /** A string is the encoding of a finite point exactly when it is canonical and stands for the point. */
  lemma EncodingOfDecoded(k: Curve, p: Pt, s: seq<byte>)
    requires Complete(k) && Finite(k, p) && 0 <= Eval(s, 256) < 2 * k.sign
    ensures Eval(s, 256) == Encoding(k, p) <==> Canonical(k, s) && Decoded(k, s) == Some(AffineOf(k, p))
  {
    EncodingOfPoint(k, p, s);
    AffineSound(k, p);
    OppositeTwice(AffineOf(k, p).0, k.m);
    if DecodeNeg(k, s).Some? {
      DecodeSound(k, s);
      OppositeTwice(DecodeNeg(k, s).value.x, k.m);
    }
  }

  /**
    The canonical strings of a point (x, y) of the curve are exactly the encodings of RFC 8032 section 5.1.2:
    the number y with the low bit of x on top.
   */
  lemma DecodedMeaning(k: Curve, s: seq<byte>, a: Elt)
    requires Complete(k) && 0 <= Eval(s, 256) < 2 * k.sign
    ensures Canonical(k, s) && Decoded(k, s) == Some(a) <==> Element(k, a) && Eval(s, 256) == a.1 + k.sign * (a.0 % 2)
  {
    if Decoded(k, s).Some? {
      DecodedSound(k, s);
    }
    if Element(k, a) {
      var p := EdwardsCurve.Pt(a.0, a.1, 1, a.0 * a.1 % k.m);
      ElementFinite(k, a);
      AffineOfOne(k, p);
      EncodingOfDecoded(k, p, s);
    }
  }

  lemma ElementFinite(k: Curve, a: Elt)
    requires Complete(k) && Element(k, a)
    ensures Finite(k, EdwardsCurve.Pt(a.0, a.1, 1, a.0 * a.1 % k.m))
  {
    DivUnique(1, 0, 1, k.m);
    ModIdem(a.0 * a.1, k.m);
    var t := a.0 * a.1 % k.m;
    CongMul(t, a.0 * a.1, t, a.0 * a.1, k.m);
    CongMul(k.d, k.d, t * t, (a.0 * a.1) * (a.0 * a.1), k.m);
    CongAdd(1, 1, k.d * (t * t), k.d * ((a.0 * a.1) * (a.0 * a.1)), k.m);
  }

  /** Any string that decodes stands for the point of its low bits, with the parity of x on top. */
  lemma DecodedCoordinates(k: Curve, s: seq<byte>)
    requires Complete(k) && 0 <= Eval(s, 256) < 2 * k.sign && Decoded(k, s).Some?
    ensures var (x, y) := Decoded(k, s).value;
            Element(k, (x, y)) && y == Eval(s, 256) % k.sign % k.m && (x != 0 ==> x % 2 == Eval(s, 256) / k.sign)
  {
    DecodedSound(k, s);
    DecodeSound(k, s);
    TwoHalves(Eval(s, 256), k.sign);
    OppositeParity(DecodeNeg(k, s).value.x, EncodedSign(k, s), k.m);
  }

  /** The point that is compared with R. */
  lemma CombinationSound(k: Curve, negA: Pt, base: Pt, h: int, s: seq<byte>)
    requires Complete(k) && Finite(k, negA) && Finite(k, base) && |s| == 32 && 0 <= h < L
    ensures Eval(s, 256) >= 0 && Finite(k, Combination(k, negA, base, h, s))
    ensures AffineOf(k, Combination(k, negA, base, h, s))
         == Sum(k, Times(k, h, AffineOf(k, negA)), Times(k, Eval(s, 256), AffineOf(k, base)))
  {
    BytePower();
    EvalEncode(h, 32, 256);
    ScalarMultCorrect(k, negA, Encode(h, 32, 256));
    ScalarMultCorrect(k, base, s);
    AddIsSum(k, ScalarMult(k, negA, Encode(h, 32, 256)), ScalarMult(k, base, s));
  }

  /** The verification equation S B = R + h A. */
  ghost predicate Equation(k: Curve, a: Elt, b: Elt, r: Elt, h: nat, s: nat)
    requires k.m > 2
  {
    Times(k, s, b) == Sum(k, r, Times(k, h, a))
  }

  /** r = h (-a) + s b exactly when r + h a = s b. */
  lemma EquationTurned(k: Curve, n: Elt, a: Elt, b: Elt, r: Elt, h: nat, s: nat)
    requires Complete(k) && Element(k, n) && Element(k, a) && Element(k, b) && Element(k, r) && Sum(k, n, a) == ZERO
    ensures r == Sum(k, Times(k, h, n), Times(k, s, b)) <==> Equation(k, a, b, r, h, s)
  {
    var w := GroupLaw(k);
    GroupSound(k);
    MultipleElement(w, h, n);
    MultipleElement(w, h, a);
    MultipleElement(w, s, b);
    MultipleDistributes(w, h, n, a);
    MultipleOfZero(w, h);
    MoveAcross(w, r, Times(k, h, n), Times(k, h, a), Times(k, s, b));
  }

  /**
    The key and R stand for curve points A and R, the encoding of R is canonical, and S B = R + h A
    in the group of the curve. Unlike RFC 8032, the key may be any string that decodes, and S any number.
   */
  ghost predicate Meets(k: Curve, base: Pt, h: nat, r: seq<byte>, s: nat, pk: seq<byte>)
    requires k.m > 2 && k.sign > 0
  {
    && Decoded(k, pk).Some? && Decoded(k, r).Some? && Canonical(k, r)
    && Equation(k, Decoded(k, pk).value, AffineOf(k, base), Decoded(k, r).value, h, s)
  }

  /** A signature is accepted exactly when it meets the verification equation. */
  lemma AcceptsMeaning(k: Curve, base: Pt, f: BlockFunction, msg: seq<byte>, sig: seq<byte>, pk: seq<byte>,
                       h: nat, r: seq<byte>, s: nat)
    requires Complete(k) && Finite(k, base) && |sig| == 64 && |pk| == 32 && Eval(r, 256) < 2 * k.sign
    requires h == Challenge(f, msg, sig, pk) && r == sig[..32] && s == Eval(sig[32..], 256)
    ensures Accepts(k, base, f, msg, sig, pk) <==> Meets(k, base, h, r, s, pk)
  {
    EvalBound(r, 256);
    if DecodeNeg(k, pk).Some? {
      var n := DecodeNeg(k, pk).value;
      DecodedSound(k, pk);
      AffineSound(k, base);
      CombinationSound(k, n, base, h, sig[32..]);
      EncodingOfDecoded(k, Combination(k, n, base, h, sig[32..]), r);
      if Decoded(k, r).Some? {
        DecodedSound(k, r);
        EquationTurned(k, AffineOf(k, n), Decoded(k, pk).value, AffineOf(k, base), Decoded(k, r).value, h, s);
      }
    }
  }

  /**
    `ed25519_verify` decides the verification equation, provided 2^255 - 19 is prime; for messages below 2^61 bytes
    its scalar is SHA-512 of R, the key and the message modulo L.
   */
  lemma VerifyMeaning(f: BlockFunction, msg: seq<byte>, sig: seq<byte>, pk: seq<byte>, h: nat)
    requires Prime(P) && |sig| == 64 && |pk| == 32
    requires h == if |msg| < 0x2000_0000_0000_0000 then Eval(Hash512(f, sig[..32] + pk + msg), 256) % L
                  else Challenge(f, msg, sig, pk)
    ensures Eval(sig[32..], 256) >= 0
    ensures Accepts(CURVE_25519, BASE, f, msg, sig, pk)
       <==> Meets(CURVE_25519, BASE, h, sig[..32], Eval(sig[32..], 256), pk)
  {
    Curve25519Complete();
    BaseFinite();
    EvalBound(sig[..32], 256);
    EvalBound(sig[32..], 256);
    if |msg| < 0x2000_0000_0000_0000 {
      ChallengeMeaning(f, msg, sig, pk);
    }
    AcceptsMeaning(CURVE_25519, BASE, f, msg, sig, pk, h, sig[..32], Eval(sig[32..], 256));
  }

  lemma BaseFinite()
    ensures Finite(CURVE_25519, BASE) && CURVE_25519.m > 2 && 2 * CURVE_25519.sign == Pow(256, 32)
  {
    BaseOnCurve();
    BytePower();
  }

  /**
    Without the bound S < L of RFC 8032, signatures come in families: if `l` times the base point is zero,
    acceptance depends on S modulo `l` only.
   */
  lemma Malleable(k: Curve, base: Pt, f: BlockFunction, msg: seq<byte>, r: seq<byte>, s: seq<byte>, s': seq<byte>,
                  pk: seq<byte>, l: nat, c: nat)
    requires Complete(k) && Finite(k, base) && |r| == |s| == |s'| == 32 && |pk| == 32 && Eval(r, 256) < 2 * k.sign
    requires Times(k, l, AffineOf(k, base)) == ZERO && Eval(s', 256) == Eval(s, 256) + c * l
    ensures Accepts(k, base, f, msg, r + s, pk) <==> Accepts(k, base, f, msg, r + s', pk)
  {
    EvalBound(s, 256);
    EvalBound(s', 256);
    SameChallenge(f, msg, r, s, s', pk);
    AcceptsHalves(k, base, f, msg, r, s, pk, Eval(s, 256));
    AcceptsHalves(k, base, f, msg, r, s', pk, Eval(s', 256));
    MeetsPeriodic(k, base, Challenge(f, msg, r + s, pk), r, Eval(s, 256), Eval(s', 256), c, l, pk);
  }

  lemma SameChallenge(f: BlockFunction, msg: seq<byte>, r: seq<byte>, s: seq<byte>, s': seq<byte>, pk: seq<byte>)
    requires |r| == |s| == |s'| == 32
    ensures Challenge(f, msg, r + s, pk) == Challenge(f, msg, r + s', pk)
  {
    assert (r + s)[..32] == r == (r + s')[..32];
  }

  lemma AcceptsHalves(k: Curve, base: Pt, f: BlockFunction, msg: seq<byte>, r: seq<byte>, s: seq<byte>, pk: seq<byte>,
                      n: nat)
    requires Complete(k) && Finite(k, base) && |r| == |s| == 32 && |pk| == 32 && Eval(r, 256) < 2 * k.sign
    requires n == Eval(s, 256)
    ensures Accepts(k, base, f, msg, r + s, pk) <==> Meets(k, base, Challenge(f, msg, r + s, pk), r, n, pk)
  {
    var sig := r + s;
    assert sig[..32] == r && sig[32..] == s;
    AcceptsMeaning(k, base, f, msg, sig, pk, Challenge(f, msg, sig, pk), r, n);
  }

  lemma MeetsPeriodic(k: Curve, base: Pt, h: nat, r: seq<byte>, n: nat, n': nat, c: nat, l: nat, pk: seq<byte>)
    requires Complete(k) && Finite(k, base) && Times(k, l, AffineOf(k, base)) == ZERO && n' == n + c * l
    ensures Meets(k, base, h, r, n, pk) <==> Meets(k, base, h, r, n', pk)
  {
    TimesPeriodic(k, base, n, c, l);
  }

  lemma TimesPeriodic(k: Curve, base: Pt, n: nat, c: nat, l: nat)
    requires Complete(k) && Finite(k, base) && Times(k, l, AffineOf(k, base)) == ZERO
    ensures Times(k, n + c * l, AffineOf(k, base)) == Times(k, n, AffineOf(k, base))
  {
    GroupSound(k);
    AffineSound(k, base);
    MultiplePeriodic(GroupLaw(k), n, c, l, AffineOf(k, base));
  }
}
