/** Four-term sums and linear maps over any commutative semigroup. */
module LinearMaps {

  predicate SumLaws<F(==)>(add: (F, F) -> F, x: F, y: F, z: F) {
    add(x, y) == add(y, x) && add(add(x, y), z) == add(x, add(y, z))
  }

  ghost predicate Commutative<F(!new)>(add: (F, F) -> F) {
    forall x, y, z :: SumLaws(add, x, y, z)
  }

  predicate Additive<F(==)>(add: (F, F) -> F, f: F -> F, x: F, y: F) {
    f(add(x, y)) == add(f(x), f(y))
  }

  ghost predicate Linear<F(!new)>(add: (F, F) -> F, f: F -> F) {
    forall x, y :: Additive(add, f, x, y)
  }

  function Add4<F>(add: (F, F) -> F, a: F, b: F, c: F, d: F): F {
    add(add(add(a, b), c), d)
  }

  lemma Interchange<F(!new)>(add: (F, F) -> F, a: F, b: F, c: F, d: F)
    requires Commutative(add)
    ensures add(add(a, b), add(c, d)) == add(add(a, c), add(b, d))
  {
    assert SumLaws(add, a, b, add(c, d)) && SumLaws(add, a, c, add(b, d));
    assert SumLaws(add, b, c, d) && SumLaws(add, c, b, d);
  }

  lemma AddRows<F(!new)>(add: (F, F) -> F, a: F, b: F, c: F, d: F, a': F, b': F, c': F, d': F)
    requires Commutative(add)
    ensures add(Add4(add, a, b, c, d), Add4(add, a', b', c', d'))
            == Add4(add, add(a, a'), add(b, b'), add(c, c'), add(d, d'))
  {
    Interchange(add, add(add(a, b), c), d, add(add(a', b'), c'), d');
    Interchange(add, add(a, b), c, add(a', b'), c');
    Interchange(add, a, b, a', b');
  }

  /** A four-by-four table has the same sum by rows and by columns. */
  lemma Transpose<F(!new)>(add: (F, F) -> F, a0: F, a1: F, a2: F, a3: F, b0: F, b1: F, b2: F, b3: F,
                           c0: F, c1: F, c2: F, c3: F, d0: F, d1: F, d2: F, d3: F)
    requires Commutative(add)
    ensures Add4(add, Add4(add, a0, a1, a2, a3), Add4(add, b0, b1, b2, b3),
                      Add4(add, c0, c1, c2, c3), Add4(add, d0, d1, d2, d3))
         == Add4(add, Add4(add, a0, b0, c0, d0), Add4(add, a1, b1, c1, d1),
                      Add4(add, a2, b2, c2, d2), Add4(add, a3, b3, c3, d3))
  {
    AddRows(add, a0, a1, a2, a3, b0, b1, b2, b3);
    AddRows(add, add(a0, b0), add(a1, b1), add(a2, b2), add(a3, b3), c0, c1, c2, c3);
    AddRows(add, add(add(a0, b0), c0), add(add(a1, b1), c1), add(add(a2, b2), c2), add(add(a3, b3), c3), d0, d1, d2,
            d3);
  }

  lemma Linear4<F(!new)>(add: (F, F) -> F, f: F -> F, a: F, b: F, c: F, d: F)
    requires Linear(add, f)
    ensures f(Add4(add, a, b, c, d)) == Add4(add, f(a), f(b), f(c), f(d))
  {
    assert Additive(add, f, a, b) && Additive(add, f, add(a, b), c) && Additive(add, f, add(add(a, b), c), d);
  }

  /** A pointwise sum of linear maps is linear. */
  lemma LinearSum<F(!new)>(add: (F, F) -> F, f: F -> F, g: F -> F, h: F -> F)
    requires Commutative(add) && Linear(add, f) && Linear(add, g)
    requires forall x :: h(x) == add(f(x), g(x))
    ensures Linear(add, h)
  {
    forall x, y ensures Additive(add, h, x, y) {
      assert Additive(add, f, x, y) && Additive(add, g, x, y);
      Interchange(add, f(x), f(y), g(x), g(y));
    }
  }

  /** A composition of linear maps is linear. */
  lemma LinearCompose<F(!new)>(add: (F, F) -> F, f: F -> F, g: F -> F, h: F -> F)
    requires Linear(add, f) && Linear(add, g)
    requires forall x :: h(x) == f(g(x))
    ensures Linear(add, h)
  {
    forall x, y ensures Additive(add, h, x, y) {
      assert Additive(add, g, x, y) && Additive(add, f, g(x), g(y));
    }
  }

  /** A row of a matrix of maps. */
  datatype Row<!F> = Row(f0: F -> F, f1: F -> F, f2: F -> F, f3: F -> F)

  function Apply<F>(add: (F, F) -> F, r: Row<F>, a: F, b: F, c: F, d: F): F {
    Add4(add, r.f0(a), r.f1(b), r.f2(c), r.f3(d))
  }

  ghost predicate LinearRow<F(!new)>(add: (F, F) -> F, r: Row<F>) {
    Linear(add, r.f0) && Linear(add, r.f1) && Linear(add, r.f2) && Linear(add, r.f3)
  }

  /** Applying a row to the images under four rows, collected by argument. */
  lemma ApplyCompose<F(!new)>(add: (F, F) -> F, g: Row<F>, r0: Row<F>, r1: Row<F>, r2: Row<F>, r3: Row<F>, a: F, b: F,
                       c: F, d: F)
    requires Commutative(add) && LinearRow(add, g)
    ensures Apply(add, g, Apply(add, r0, a, b, c, d), Apply(add, r1, a, b, c, d),
                          Apply(add, r2, a, b, c, d), Apply(add, r3, a, b, c, d))
         == Add4(add, Apply(add, g, r0.f0(a), r1.f0(a), r2.f0(a), r3.f0(a)),
                      Apply(add, g, r0.f1(b), r1.f1(b), r2.f1(b), r3.f1(b)),
                      Apply(add, g, r0.f2(c), r1.f2(c), r2.f2(c), r3.f2(c)),
                      Apply(add, g, r0.f3(d), r1.f3(d), r2.f3(d), r3.f3(d)))
  {
    Linear4(add, g.f0, r0.f0(a), r0.f1(b), r0.f2(c), r0.f3(d));
    Linear4(add, g.f1, r1.f0(a), r1.f1(b), r1.f2(c), r1.f3(d));
    Linear4(add, g.f2, r2.f0(a), r2.f1(b), r2.f2(c), r2.f3(d));
    Linear4(add, g.f3, r3.f0(a), r3.f1(b), r3.f2(c), r3.f3(d));
    Transpose(add, g.f0(r0.f0(a)), g.f0(r0.f1(b)), g.f0(r0.f2(c)), g.f0(r0.f3(d)),
                   g.f1(r1.f0(a)), g.f1(r1.f1(b)), g.f1(r1.f2(c)), g.f1(r1.f3(d)),
                   g.f2(r2.f0(a)), g.f2(r2.f1(b)), g.f2(r2.f2(c)), g.f2(r2.f3(d)),
                   g.f3(r3.f0(a)), g.f3(r3.f1(b)), g.f3(r3.f2(c)), g.f3(r3.f3(d)));
  }

  datatype Column<F> = Column(b0: F, b1: F, b2: F, b3: F)

  /** The image of a column under the circulant matrix whose first row is `m`. */
  function Circulant<F>(add: (F, F) -> F, m: Row<F>, c: Column<F>): Column<F> {
    Column(Apply(add, m, c.b0, c.b1, c.b2, c.b3), Apply(add, m, c.b1, c.b2, c.b3, c.b0),
           Apply(add, m, c.b2, c.b3, c.b0, c.b1), Apply(add, m, c.b3, c.b0, c.b1, c.b2))
  }

  lemma Rotate4<F(!new)>(add: (F, F) -> F, a: F, b: F, c: F, d: F)
    requires Commutative(add)
    ensures Add4(add, a, b, c, d) == Add4(add, b, c, d, a)
  {
    assert SumLaws(add, a, b, c) && SumLaws(add, a, add(b, c), d) && SumLaws(add, a, add(add(b, c), d), d);
  }

  /** The other rows of the circulant matrix. */
  function Down1<F>(m: Row<F>): Row<F> { Row(m.f3, m.f0, m.f1, m.f2) }
  function Down2<F>(m: Row<F>): Row<F> { Row(m.f2, m.f3, m.f0, m.f1) }
  function Down3<F>(m: Row<F>): Row<F> { Row(m.f1, m.f2, m.f3, m.f0) }

  lemma RotateRows<F(!new)>(add: (F, F) -> F, m: Row<F>, a: F, b: F, c: F, d: F)
    requires Commutative(add)
    ensures Apply(add, m, b, c, d, a) == Apply(add, Down1(m), a, b, c, d)
    ensures Apply(add, m, c, d, a, b) == Apply(add, Down2(m), a, b, c, d)
    ensures Apply(add, m, d, a, b, c) == Apply(add, Down3(m), a, b, c, d)
  {
    Rotate4(add, m.f3(a), m.f0(b), m.f1(c), m.f2(d));
    Rotate4(add, m.f2(a), m.f3(b), m.f0(c), m.f1(d));
    Rotate4(add, m.f3(b), m.f0(c), m.f1(d), m.f2(a));
    Rotate4(add, m.f0(d), m.f1(a), m.f2(b), m.f3(c));
  }

  predicate ZeroLaws<F(==)>(add: (F, F) -> F, zero: F, x: F) {
    add(x, zero) == x && add(zero, x) == x
  }

  /** The first row of the product of two circulant matrices, at `x`: the identity, then zeros. */
  predicate UnitRow<F(==)>(add: (F, F) -> F, zero: F, g: Row<F>, m: Row<F>, x: F) {
    && Apply(add, g, m.f0(x), m.f3(x), m.f2(x), m.f1(x)) == x
    && Apply(add, g, m.f1(x), m.f0(x), m.f3(x), m.f2(x)) == zero
    && Apply(add, g, m.f2(x), m.f1(x), m.f0(x), m.f3(x)) == zero
    && Apply(add, g, m.f3(x), m.f2(x), m.f1(x), m.f0(x)) == zero
  }

  ghost predicate Unit<F(!new)>(add: (F, F) -> F, zero: F, g: Row<F>, m: Row<F>) {
    && Commutative(add) && LinearRow(add, g)
    && (forall x :: UnitRow(add, zero, g, m, x))
    && (forall x :: ZeroLaws(add, zero, x))
  }

  lemma FirstRow<F(!new)>(add: (F, F) -> F, zero: F, g: Row<F>, m: Row<F>, a: F, b: F, c: F, d: F)
    requires Unit(add, zero, g, m)
    ensures Apply(add, g, Apply(add, m, a, b, c, d), Apply(add, m, b, c, d, a),
                          Apply(add, m, c, d, a, b), Apply(add, m, d, a, b, c)) == a
  {
    RotateRows(add, m, a, b, c, d);
    ApplyCompose(add, g, m, Down1(m), Down2(m), Down3(m), a, b, c, d);
    assert UnitRow(add, zero, g, m, a) && UnitRow(add, zero, g, m, b) && UnitRow(add, zero, g, m, c);
    assert UnitRow(add, zero, g, m, d);
    assert ZeroLaws(add, zero, a);
  }

  /** Circulant matrices whose product is the identity undo each other on every column. */
  lemma CirculantInverse<F(!new)>(add: (F, F) -> F, zero: F, g: Row<F>, m: Row<F>, c: Column<F>)
    requires Unit(add, zero, g, m)
    ensures Circulant(add, g, Circulant(add, m, c)) == c
  {
    FirstRow(add, zero, g, m, c.b0, c.b1, c.b2, c.b3);
    FirstRow(add, zero, g, m, c.b1, c.b2, c.b3, c.b0);
    FirstRow(add, zero, g, m, c.b2, c.b3, c.b0, c.b1);
    FirstRow(add, zero, g, m, c.b3, c.b0, c.b1, c.b2);
  }
}
