/** The ladder of crypto/ed25519.c on points of a curve. */
module CurveLadder {
  import opened Machine
  import opened ModArith
  import opened Radix
  import opened EdwardsCurve
  import opened Affine
  import opened PointEncoding
  import opened EdwardsGroup
  import opened Ladder

  function Adder(k: Curve): (Pt, Pt) -> Pt
    requires k.m > 0
  {
    (p, q) => Add(k, p, q)
  }

  function CurveClimb(k: Curve, q: Pt, s: seq<byte>, i: nat): (Pt, Pt)
    requires k.m > 0 && |s| == 32 && i <= 256
  {
    Climb(Adder(k), IDENTITY, q, s, i)
  }

  function ScalarMult(k: Curve, q: Pt, s: seq<byte>): Pt
    requires k.m > 0 && |s| == 32
  {
    CurveClimb(k, q, s, 0).0
  }

  // ------------------------------------------- the ladder stays on the curve

  /** Curve points under no law at all, to say only that addition keeps them. */
  ghost function Membership(k: Curve): Law<Pt, bool>
    requires k.m > 0
  {
    Law(Adder(k), IDENTITY, p => OnCurve(k, p), p => true, (a, b) => true, true, a => true)
  }

  /** In every iteration of every run both ladder points are on the curve. */
  lemma LadderOnCurve(k: Curve, q: Pt, s: seq<byte>, i: nat)
    requires Proper(k) && |s| == 32 && i <= 256 && OnCurve(k, q)
    ensures OnCurve(k, CurveClimb(k, q, s, i).0) && OnCurve(k, CurveClimb(k, q, s, i).1)
  {
    var w := Membership(k);
    IdentityOnCurve(k);
    forall u, v
      ensures AddsAt(w, u, v)
    {
      if OnCurve(k, u) && OnCurve(k, v) {
        AddOnCurve(k, u, v);
      }
    }
    ClimbGood(w, q, s, i);
  }

  // ------------------------------------------ the ladder and the group of points

  /** Finite points stand for their affine points, and addition for the sum of affine points. */
  ghost function GroupLaw(k: Curve): Law<Pt, Elt>
    requires k.m > 2
  {
    Law(Adder(k), IDENTITY, p => Finite(k, p), p => AffineOf(k, p), (a, b) => Sum(k, a, b), ZERO, a => Element(k, a))
  }

  /** `n` times an affine point. */
  ghost function Times(k: Curve, n: nat, a: Elt): Elt
    requires k.m > 2
  {
    Multiple(GroupLaw(k), n, a)
  }

  /** The affine points form a commutative monoid; `SumInverse` makes it a group. */
  lemma GroupSound(k: Curve)
    requires Complete(k)
    ensures CommutativeMonoid(GroupLaw(k))
  {
    var w := GroupLaw(k);
    ZeroElement(k);
    forall a, b
      ensures CommutesAt(w, a, b)
    {
      if Element(k, a) && Element(k, b) {
        SumClosed(k, a, b);
        SumCommutes(k, a, b);
      }
    }
    forall a, b, c
      ensures AssociatesAt(w, a, b, c)
    {
      if Element(k, a) && Element(k, b) && Element(k, c) {
        SumAssociates(k, a, b, c);
      }
    }
    forall a
      ensures NeutralAt(w, a)
    {
      if Element(k, a) {
        SumNeutral(k, a);
      }
    }
  }

  lemma ZeroElement(k: Curve)
    requires Proper(k)
    ensures Element(k, ZERO) && Finite(k, IDENTITY) && AffineOf(k, IDENTITY) == ZERO
  {
    IdentityOnCurve(k);
    DivUnique(1, 0, 1, k.m);
    AffineOfOne(k, IDENTITY);
  }

  /** The addition of extended points computes the group operation. */
  lemma GroupInterprets(k: Curve)
    requires Complete(k)
    ensures Interprets(GroupLaw(k))
  {
    var w := GroupLaw(k);
    ZeroElement(k);
    forall u, v
      ensures AddsAt(w, u, v)
    {
      if Finite(k, u) && Finite(k, v) {
        AddIsSum(k, u, v);
        AffineSound(k, u);
      }
    }
  }

  /** In no iteration of any run is a ladder point at infinity, and both differ by the base. */
  lemma LadderFinite(k: Curve, q: Pt, s: seq<byte>, i: nat)
    requires Complete(k) && |s| == 32 && i <= 256 && Finite(k, q)
    ensures Finite(k, CurveClimb(k, q, s, i).0) && Finite(k, CurveClimb(k, q, s, i).1)
    ensures AffineOf(k, CurveClimb(k, q, s, i).1) == Sum(k, AffineOf(k, q), AffineOf(k, CurveClimb(k, q, s, i).0))
  {
    GroupSound(k);
    GroupInterprets(k);
    ClimbGood(GroupLaw(k), q, s, i);
    ClimbDifference(GroupLaw(k), q, s, i);
  }

  /** `scalarmult` computes scalar multiplication in the group of affine points. */
  lemma ScalarMultCorrect(k: Curve, q: Pt, s: seq<byte>)
    requires Complete(k) && |s| == 32 && Finite(k, q)
    ensures Eval(s, 256) >= 0 && Finite(k, ScalarMult(k, q, s))
    ensures AffineOf(k, ScalarMult(k, q, s)) == Times(k, Eval(s, 256), AffineOf(k, q))
  {
    GroupSound(k);
    GroupInterprets(k);
    ClimbCorrect(GroupLaw(k), q, s);
    LadderFinite(k, q, s, 0);
  }
}
