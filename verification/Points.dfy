/** Points as four limb arrays, with the in-place addition and exchange of crypto/ed25519.c. */
module Points {
  import opened Machine
  import opened Field25519
  import opened Codec25519
  import opened Powers25519
  import EdwardsCurve
  import Edwards
  import opened Ladder
  import opened CurveLadder

  const D2_LIMBS: seq<i64> := [
    0xf159, 0x26b2, 0x9b94, 0xebd6, 0xb156, 0x8283, 0x149a, 0x00e0, 0xd130, 0xeef3, 0x80f2, 0x198e, 0xfce7, 0x56df,
    0xd9dc, 0x2406]

  /** `gf p[4]`: the coordinates X, Y, Z and T. */
  class Point {
    const x: array<i64>
    const y: array<i64>
    const z: array<i64>
    const t: array<i64>

    ghost predicate Valid() {
      && x.Length == y.Length == z.Length == t.Length == 16
      && x != y && x != z && x != t && y != z && y != t && z != t
    }

    ghost function Repr(): set<object> { {x, y, z, t} }

    ghost function Limbs(): (seq<i64>, seq<i64>, seq<i64>, seq<i64>)
      reads x, y, z, t
    {
      (x[..], y[..], z[..], t[..])
    }

    /** The residues the limbs stand for. */
    ghost function Value(): EdwardsCurve.Pt
      reads x, y, z, t
    {
      EdwardsCurve.Pt(F(x[..]), F(y[..]), F(z[..]), F(t[..]))
    }

    /** Small enough to enter another addition. */
    ghost predicate Small()
      reads x, y, z, t
    {
      Within(x[..], 65573) && Within(y[..], 65573) && Within(z[..], 65573) && Within(t[..], 65573)
    }

    constructor ()
      ensures Valid() && fresh(Repr())
    {
      x := new i64[16];
      y := new i64[16];
      z := new i64[16];
      t := new i64[16];
    }
  }

  ghost predicate Separate(p: Point, q: Point) {
    p.Repr() !! q.Repr()
  }

  lemma D2Value()
    ensures |D2_LIMBS| == 16 && F(D2_LIMBS) == Edwards.D2 && Within(D2_LIMBS, 65536)
  {
    LimbsValue(D2_LIMBS);
  }

  /** The first two lines of `add`. */
  method CrossTerms(p: Point, q: Point) returns (a: array<i64>, b: array<i64>)
    requires p.Valid() && q.Valid() && p.Small() && q.Small()
    ensures fresh(a) && fresh(b) && a != b && a.Length == b.Length == 16
    ensures Within(a[..], 65573) && Within(b[..], 65573)
    ensures F(a[..]) == EdwardsCurve.Times(EdwardsCurve.Minus(F(p.y[..]), F(p.x[..]), P),
                                           EdwardsCurve.Minus(F(q.y[..]), F(q.x[..]), P), P)
    ensures F(b[..]) == EdwardsCurve.Times(EdwardsCurve.Plus(F(p.x[..]), F(p.y[..]), P),
                                           EdwardsCurve.Plus(F(q.x[..]), F(q.y[..]), P), P)
  {
    a := DifferenceProduct(p.y, p.x, q.y, q.x);
    b := SumProduct(p.x, p.y, q.x, q.y);
  }

  method DifferenceProduct(u: array<i64>, v: array<i64>, w: array<i64>, x: array<i64>) returns (a: array<i64>)
    requires u.Length == v.Length == w.Length == x.Length == 16
    requires Within(u[..], 65573) && Within(v[..], 65573) && Within(w[..], 65573) && Within(x[..], 65573)
    ensures fresh(a) && a.Length == 16 && Within(a[..], 65573)
    ensures F(a[..]) == EdwardsCurve.Times(EdwardsCurve.Minus(F(u[..]), F(v[..]), P),
                                           EdwardsCurve.Minus(F(w[..]), F(x[..]), P), P)
  {
    a := new i64[16];
    var t := new i64[16];
    Z(a, u, v, 65573, 65573);
    Z(t, w, x, 65573, 65573);
    M(a, a, t);
  }

  method SumProduct(u: array<i64>, v: array<i64>, w: array<i64>, x: array<i64>) returns (b: array<i64>)
    requires u.Length == v.Length == w.Length == x.Length == 16
    requires Within(u[..], 65573) && Within(v[..], 65573) && Within(w[..], 65573) && Within(x[..], 65573)
    ensures fresh(b) && b.Length == 16 && Within(b[..], 65573)
    ensures F(b[..]) == EdwardsCurve.Times(EdwardsCurve.Plus(F(u[..]), F(v[..]), P),
                                           EdwardsCurve.Plus(F(w[..]), F(x[..]), P), P)
  {
    b := new i64[16];
    var t := new i64[16];
    A(b, u, v, 65573, 65573);
    A(t, w, x, 65573, 65573);
    M(b, b, t);
  }

  /** The next two lines of `add`. */
  method DiagonalTerms(p: Point, q: Point) returns (c: array<i64>, d: array<i64>)
    requires p.Valid() && q.Valid() && p.Small() && q.Small()
    ensures fresh(c) && fresh(d) && c != d && c.Length == d.Length == 16
    ensures Within(c[..], 65573) && Within(d[..], 131146)
    ensures F(c[..]) == EdwardsCurve.Times(EdwardsCurve.Times(F(p.t[..]), F(q.t[..]), P), Edwards.D2, P)
    ensures var zz := EdwardsCurve.Times(F(p.z[..]), F(q.z[..]), P); F(d[..]) == EdwardsCurve.Plus(zz, zz, P)
  {
    c, d := new i64[16], new i64[16];
    var k := new i64[16](i requires 0 <= i < 16 => D2_LIMBS[i]);
    assert k[..] == D2_LIMBS;
    D2Value();
    M(c, p.t, q.t);
    M(c, c, k);
    M(d, p.z, q.z);
    A(d, d, d, 65573, 65573);
  }

  /** The last but one line of `add`. */
  method SumsAndDifferences(a: array<i64>, b: array<i64>, c: array<i64>, d: array<i64>)
    returns (e: array<i64>, f: array<i64>, g: array<i64>, h: array<i64>)
    requires a.Length == b.Length == c.Length == d.Length == 16
    requires Within(a[..], 65573) && Within(b[..], 65573) && Within(c[..], 65573) && Within(d[..], 131146)
    ensures fresh({e, f, g, h}) && e.Length == f.Length == g.Length == h.Length == 16
    ensures Within(e[..], 196719) && Within(f[..], 196719) && Within(g[..], 196719) && Within(h[..], 196719)
    ensures F(e[..]) == EdwardsCurve.Minus(F(b[..]), F(a[..]), P)
    ensures F(f[..]) == EdwardsCurve.Minus(F(d[..]), F(c[..]), P)
    ensures F(g[..]) == EdwardsCurve.Plus(F(d[..]), F(c[..]), P) && F(h[..]) == EdwardsCurve.Plus(F(b[..]), F(a[..]), P)
  {
    e, h := DifferenceAndSum(b, a, 65573, 131146);
    f, g := DifferenceAndSum(d, c, 131146, 65573);
  }

  method DifferenceAndSum(u: array<i64>, v: array<i64>, ghost bu: nat, ghost bv: nat)
    returns (dif: array<i64>, sum: array<i64>)
    requires u.Length == v.Length == 16 && bu + bv == 196719 && Within(u[..], bu) && Within(v[..], bv)
    ensures fresh(dif) && fresh(sum) && dif != sum && dif.Length == sum.Length == 16
    ensures Within(dif[..], 196719) && Within(sum[..], 196719)
    ensures F(dif[..]) == EdwardsCurve.Minus(F(u[..]), F(v[..]), P)
    ensures F(sum[..]) == EdwardsCurve.Plus(F(u[..]), F(v[..]), P)
  {
    dif, sum := new i64[16], new i64[16];
    Z(dif, u, v, bu, bv);
    A(sum, u, v, bu, bv);
  }

  /** The last line of `add`. */
  method Products(p: Point, e: array<i64>, f: array<i64>, g: array<i64>, h: array<i64>)
    requires p.Valid() && p.Repr() !! {e, f, g, h} && e.Length == f.Length == g.Length == h.Length == 16
    requires Within(e[..], 0x4_0000) && Within(f[..], 0x4_0000) && Within(g[..], 0x4_0000) && Within(h[..], 0x4_0000)
    modifies p.x, p.y, p.z, p.t
    ensures p.Value() == EdwardsCurve.Pt(EdwardsCurve.Times(old(F(e[..])), old(F(f[..])), P),
                                         EdwardsCurve.Times(old(F(h[..])), old(F(g[..])), P),
                                         EdwardsCurve.Times(old(F(g[..])), old(F(f[..])), P),
                                         EdwardsCurve.Times(old(F(e[..])), old(F(h[..])), P))
    ensures p.Small()
  {
    M(p.x, e, f);
    M(p.y, h, g);
    M(p.z, g, f);
    M(p.t, e, h);
  }

  /** `add`: `p += q`; the two may be the same point. */
  method Add(p: Point, q: Point)
    requires p.Valid() && q.Valid() && p.Small() && q.Small() && (p == q || Separate(p, q))
    modifies p.x, p.y, p.z, p.t
    ensures p.Value() == EdwardsCurve.Add(Edwards.CURVE_25519, old(p.Value()), old(q.Value()))
    ensures p.Small()
  {
    var a, b := CrossTerms(p, q);
    var c, d := DiagonalTerms(p, q);
    EdwardsCurve.AddSteps(Edwards.CURVE_25519, p.Value(), q.Value(), F(a[..]), F(b[..]), F(c[..]), F(d[..]), P);
    var e, f, g, h := SumsAndDifferences(a, b, c, d);
    Products(p, e, f, g, h);
  }

  /** `cswap`. */
  method CSwap(p: Point, q: Point, b: int)
    requires p.Valid() && q.Valid() && Separate(p, q) && (b == 0 || b == 1)
    modifies p.x, p.y, p.z, p.t, q.x, q.y, q.z, q.t
    ensures b == 1 ==> p.Limbs() == old(q.Limbs()) && q.Limbs() == old(p.Limbs())
    ensures b == 0 ==> p.Limbs() == old(p.Limbs()) && q.Limbs() == old(q.Limbs())
    ensures b == 1 ==> p.Value() == old(q.Value()) && q.Value() == old(p.Value())
    ensures b == 0 ==> p.Value() == old(p.Value()) && q.Value() == old(q.Value())
    ensures old(p.Small() && q.Small()) ==> p.Small() && q.Small()
  {
    Sel(p.x, q.x, b);
    Sel(p.y, q.y, b);
    Sel(p.z, q.z, b);
    Sel(p.t, q.t, b);
  }

  /** Limbs of a small constant. */
  lemma ConstantLimbs(s: seq<int>, c: int)
    requires |s| == 16 && s[0] == c && 0 <= c <= 1 && forall k :: 1 <= k < 16 ==> s[k] == 0
    ensures F(s) == c && Within(s, c)
  {
    LimbsValue(s);
  }

  method Constant(c: int) returns (r: array<i64>)
    requires 0 <= c <= 1
    ensures fresh(r) && r.Length == 16 && F(r[..]) == c && Within(r[..], c)
  {
    r := new i64[16](i => if i == 0 then c else 0);
    ConstantLimbs(r[..], c);
  }

  /** The point at which the ladder starts. */
  method SetIdentity(p: Point)
    requires p.Valid()
    modifies p.x, p.y, p.z, p.t
    ensures p.Value() == EdwardsCurve.IDENTITY && p.Small()
  {
    var gf0 := Constant(0);
    var gf1 := Constant(1);
    Set(p.x, gf0);
    Set(p.y, gf1);
    Set(p.z, gf1);
    Set(p.t, gf0);
  }

  /** One iteration of `scalarmult`. */
  method LadderStep(p: Point, q: Point, b: int)
    requires p.Valid() && q.Valid() && Separate(p, q) && p.Small() && q.Small() && (b == 0 || b == 1)
    modifies p.x, p.y, p.z, p.t, q.x, q.y, q.z, q.t
    ensures (p.Value(), q.Value()) == Step(Adder(Edwards.CURVE_25519), (old(p.Value()), old(q.Value())), b)
    ensures p.Small() && q.Small()
  {
    CSwap(p, q, b);
    Add(q, p);
    Add(p, p);
    CSwap(p, q, b);
  }

  /** `scalarmult`: `p = s * q`, destroying `q`. */
  method ScalarMultiply(p: Point, q: Point, s: seq<byte>)
    requires p.Valid() && q.Valid() && Separate(p, q) && q.Small() && |s| == 32
    modifies p.x, p.y, p.z, p.t, q.x, q.y, q.z, q.t
    ensures p.Value() == ScalarMult(Edwards.CURVE_25519, old(q.Value()), s)
    ensures p.Small() && q.Small()
  {
    ghost var base := q.Value();
    SetIdentity(p);
    for i := 256 downto 0
      invariant p.Small() && q.Small()
      invariant (p.Value(), q.Value()) == CurveClimb(Edwards.CURVE_25519, base, s, i)
    {
      var b := Bit(s, i);
      LadderStep(p, q, b);
    }
  }
}
