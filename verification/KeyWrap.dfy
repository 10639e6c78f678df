/**
 * The wrapping process of RFC 3394 section 2.2 over any invertible pair transformation, any self-inverse
 * way of mixing in the step counter, and any number of registers.
 */
module KeyWrap {

  /** The integrity register and the key registers. */
  datatype Registers<H> = Registers(a: H, r: seq<H>)

  /** The block transformation, its inverse, and the counter mixed into the integrity register. */
  datatype Wrapping<!H> = Wrapping(enc: (H, H) -> (H, H), dec: (H, H) -> (H, H), tweak: (H, nat) -> H)

  predicate InverseAt<H(==)>(w: Wrapping<H>, x: H, y: H, t: nat) {
    && (var (p, q) := w.enc(x, y); w.dec(p, q) == (x, y))
    && (var (p, q) := w.dec(x, y); w.enc(p, q) == (x, y))
    && w.tweak(w.tweak(x, t), t) == x
  }

  ghost predicate Inverse<H(!new)>(w: Wrapping<H>) {
    forall x, y, t :: InverseAt(w, x, y, t)
  }

  /** Step `t`, which is `n*j + i` for round `j` and register `i`. */
  function WrapStep<H>(w: Wrapping<H>, s: Registers<H>, t: nat): (s': Registers<H>)
    requires t >= 1 && s.r != []
    ensures |s'.r| == |s.r|
  {
    var i := (t - 1) % |s.r|;
    var (p, q) := w.enc(s.a, s.r[i]);
    Registers(w.tweak(p, t), s.r[i := q])
  }

  function UnwrapStep<H>(w: Wrapping<H>, s: Registers<H>, t: nat): (s': Registers<H>)
    requires t >= 1 && s.r != []
    ensures |s'.r| == |s.r|
  {
    var i := (t - 1) % |s.r|;
    var (p, q) := w.dec(w.tweak(s.a, t), s.r[i]);
    Registers(p, s.r[i := q])
  }

  /** The registers after steps 1 to `t`. */
  function WrapSteps<H>(w: Wrapping<H>, s: Registers<H>, t: nat): (s': Registers<H>)
    requires s.r != []
    ensures |s'.r| == |s.r|
  {
    if t == 0 then s else WrapStep(w, WrapSteps(w, s, t - 1), t)
  }

  /** The registers after undoing steps `t` down to 1. */
  function UnwrapSteps<H>(w: Wrapping<H>, s: Registers<H>, t: nat): (s': Registers<H>)
    requires s.r != []
    ensures |s'.r| == |s.r|
    decreases t
  {
    if t == 0 then s else UnwrapSteps(w, UnwrapStep(w, s, t), t - 1)
  }

  lemma StepInverse<H(!new)>(w: Wrapping<H>, s: Registers<H>, t: nat)
    requires Inverse(w) && t >= 1 && s.r != []
    ensures UnwrapStep(w, WrapStep(w, s, t), t) == s && WrapStep(w, UnwrapStep(w, s, t), t) == s
  {
    var i := (t - 1) % |s.r|;
    assert InverseAt(w, s.a, s.r[i], t);
    assert InverseAt(w, w.enc(s.a, s.r[i]).0, s.r[i], t);
    assert InverseAt(w, w.tweak(s.a, t), s.r[i], t);
  }

  lemma {:induction false} UnwrapWrapSteps<H(!new)>(w: Wrapping<H>, s: Registers<H>, t: nat)
    requires Inverse(w) && s.r != []
    ensures UnwrapSteps(w, WrapSteps(w, s, t), t) == s
  {
    if t > 0 {
      StepInverse(w, WrapSteps(w, s, t - 1), t);
      UnwrapWrapSteps(w, s, t - 1);
    }
  }

  lemma {:induction false} WrapUnwrapSteps<H(!new)>(w: Wrapping<H>, s: Registers<H>, t: nat)
    requires Inverse(w) && s.r != []
    ensures WrapSteps(w, UnwrapSteps(w, s, t), t) == s
    decreases t
  {
    if t > 0 {
      WrapUnwrapSteps(w, UnwrapStep(w, s, t), t - 1);
      StepInverse(w, s, t);
    }
  }

  /** RFC 3394 section 2.2.1. */
  function Wrap<H>(w: Wrapping<H>, iv: H, key: seq<H>): (c: Registers<H>)
    requires key != []
    ensures |c.r| == |key|
  {
    WrapSteps(w, Registers(iv, key), 6 * |key|)
  }

  /** RFC 3394 section 2.2.2: the recovered key data, and whether the integrity register came back as `iv`. */
  function Unwrap<H(==)>(w: Wrapping<H>, iv: H, c: Registers<H>): (r: (bool, seq<H>))
    requires c.r != []
    ensures |r.1| == |c.r|
  {
    var s := UnwrapSteps(w, c, 6 * |c.r|);
    (s.a == iv, s.r)
  }

  /** Unwrapping accepts `c` with key data `key` exactly when `c` is the wrapping of `key`. */
  lemma UnwrapExact<H(!new)>(w: Wrapping<H>, iv: H, key: seq<H>, c: Registers<H>)
    requires Inverse(w) && key != [] && c.r != []
    ensures Unwrap(w, iv, c) == (true, key) <==> c == Wrap(w, iv, key)
  {
    if c == Wrap(w, iv, key) {
      UnwrapWrapSteps(w, Registers(iv, key), 6 * |key|);
    }
    if Unwrap(w, iv, c) == (true, key) {
      WrapUnwrapSteps(w, c, 6 * |key|);
      assert UnwrapSteps(w, c, 6 * |key|) == Registers(iv, key);
    }
  }
}
