/**
 * An iterated cipher whose last round omits the mixing layer, over any invertible layers, any number of
 * rounds and any round keys; and its inverse, which runs the inverse layers in the order of FIPS 197 section 5.3.
 */
module RoundCipher {

  datatype Layers<!S> = Layers(perm: S -> S, unperm: S -> S, mix: S -> S, unmix: S -> S, add: (S, S) -> S)

  predicate InvertsAt<S(==)>(c: Layers<S>, s: S, k: S) {
    && c.unperm(c.perm(s)) == s && c.perm(c.unperm(s)) == s
    && c.unmix(c.mix(s)) == s && c.mix(c.unmix(s)) == s
    && c.add(c.add(s, k), k) == s
  }

  ghost predicate Invertible<S(!new)>(c: Layers<S>) {
    forall s, k :: InvertsAt(c, s, k)
  }

  /** The state after the initial key and `r` rounds. */
  function Rounds<S>(c: Layers<S>, keys: seq<S>, b: S, r: nat): S
    requires r < |keys|
  {
    if r == 0 then c.add(b, keys[0]) else c.add(c.mix(c.perm(Rounds(c, keys, b, r - 1))), keys[r])
  }

  function Encipher<S>(c: Layers<S>, keys: seq<S>, b: S): S
    requires |keys| >= 2
  {
    c.add(c.perm(Rounds(c, keys, b, |keys| - 2)), keys[|keys| - 1])
  }

  /** The state once the last key and the inverse rounds down to `r` are undone. */
  function InvRounds<S>(c: Layers<S>, keys: seq<S>, e: S, r: nat): S
    requires |keys| >= 2 && r < |keys|
    decreases |keys| - r
  {
    if r == |keys| - 1 then c.add(e, keys[r])
    else
      var s := c.add(c.unperm(InvRounds(c, keys, e, r + 1)), keys[r]);
      if r > 0 then c.unmix(s) else s
  }

  function Decipher<S>(c: Layers<S>, keys: seq<S>, e: S): S
    requires |keys| >= 2
  {
    InvRounds(c, keys, e, 0)
  }

  /** Deciphering retraces the rounds of enciphering. */
  lemma {:induction false} Retrace<S(!new)>(c: Layers<S>, keys: seq<S>, b: S, r: nat)
    requires Invertible(c) && r + 2 <= |keys|
    ensures InvRounds(c, keys, Encipher(c, keys, b), r + 1) == c.perm(Rounds(c, keys, b, r))
    decreases |keys| - r
  {
    var t := c.perm(Rounds(c, keys, b, r));
    if r + 2 == |keys| {
      assert InvertsAt(c, t, keys[r + 1]);
    } else {
      Retrace(c, keys, b, r + 1);
      assert InvertsAt(c, Rounds(c, keys, b, r + 1), keys[r + 1]);
      assert InvertsAt(c, c.mix(t), keys[r + 1]);
      assert InvertsAt(c, t, keys[r + 1]);
    }
  }

  lemma DecipherEncipher<S(!new)>(c: Layers<S>, keys: seq<S>, b: S)
    requires Invertible(c) && |keys| >= 2
    ensures Decipher(c, keys, Encipher(c, keys, b)) == b
  {
    Retrace(c, keys, b, 0);
    assert InvertsAt(c, Rounds(c, keys, b, 0), keys[0]);
    assert InvertsAt(c, b, keys[0]);
  }

  /** Enciphering retraces the inverse rounds. */
  lemma {:induction false} InvRetrace<S(!new)>(c: Layers<S>, keys: seq<S>, e: S, r: nat)
    requires Invertible(c) && r + 2 <= |keys|
    ensures Rounds(c, keys, Decipher(c, keys, e), r) == c.unperm(InvRounds(c, keys, e, r + 1))
  {
    var u := c.unperm(InvRounds(c, keys, e, r + 1));
    assert InvertsAt(c, u, keys[r]);
    if r > 0 {
      InvRetrace(c, keys, e, r - 1);
      assert InvertsAt(c, InvRounds(c, keys, e, r), keys[r]);
      assert InvertsAt(c, c.add(u, keys[r]), keys[r]);
    }
  }

  lemma EncipherDecipher<S(!new)>(c: Layers<S>, keys: seq<S>, e: S)
    requires Invertible(c) && |keys| >= 2
    ensures Encipher(c, keys, Decipher(c, keys, e)) == e
  {
    var n := |keys| - 1;
    InvRetrace(c, keys, e, n - 1);
    assert InvertsAt(c, InvRounds(c, keys, e, n), keys[n]);
    assert InvertsAt(c, e, keys[n]);
  }
}
