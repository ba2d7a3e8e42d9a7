/** A field as a bundle of operations, with its laws as a hypothesis. */
module FieldAlgebra {

  type Elem(==, !new)

  datatype Field = Field(
    zero: Elem,
    one: Elem,
    add: (Elem, Elem) -> Elem,
    mul: (Elem, Elem) -> Elem,
    neg: Elem -> Elem,
    inverse: Elem -> Elem
  )

  function Sub(f: Field, a: Elem, b: Elem): Elem {
    f.add(a, f.neg(b))
  }

  // Each law is named at a point, so that proofs say where they use it.
  ghost predicate AddComm(f: Field, a: Elem, b: Elem) { f.add(a, b) == f.add(b, a) }
  ghost predicate AddAssoc(f: Field, a: Elem, b: Elem, c: Elem) { f.add(f.add(a, b), c) == f.add(a, f.add(b, c)) }
  ghost predicate AddUnit(f: Field, a: Elem) { f.add(a, f.zero) == a && f.add(a, f.neg(a)) == f.zero }
  ghost predicate MulComm(f: Field, a: Elem, b: Elem) { f.mul(a, b) == f.mul(b, a) }
  ghost predicate MulAssoc(f: Field, a: Elem, b: Elem, c: Elem) { f.mul(f.mul(a, b), c) == f.mul(a, f.mul(b, c)) }
  ghost predicate MulUnit(f: Field, a: Elem) {
    f.mul(a, f.one) == a && (a != f.zero ==> f.mul(a, f.inverse(a)) == f.one)
  }
  ghost predicate Distributes(f: Field, a: Elem, b: Elem, c: Elem) {
    f.mul(a, f.add(b, c)) == f.add(f.mul(a, b), f.mul(a, c))
  }

  ghost predicate Laws(f: Field) {
    f.one != f.zero &&
    (forall a, b {:trigger AddComm(f, a, b)} :: AddComm(f, a, b)) &&
    (forall a, b, c {:trigger AddAssoc(f, a, b, c)} :: AddAssoc(f, a, b, c)) &&
    (forall a {:trigger AddUnit(f, a)} :: AddUnit(f, a)) &&
    (forall a, b {:trigger MulComm(f, a, b)} :: MulComm(f, a, b)) &&
    (forall a, b, c {:trigger MulAssoc(f, a, b, c)} :: MulAssoc(f, a, b, c)) &&
    (forall a {:trigger MulUnit(f, a)} :: MulUnit(f, a)) &&
    forall a, b, c {:trigger Distributes(f, a, b, c)} :: Distributes(f, a, b, c)
  }

  lemma Cancel(f: Field, a: Elem, b: Elem)
    requires Laws(f)
    ensures f.add(f.add(a, b), f.neg(b)) == a
    ensures f.add(Sub(f, a, b), b) == a
  {
    assert AddAssoc(f, a, b, f.neg(b)) && AddUnit(f, b) && AddUnit(f, a);
    assert AddAssoc(f, a, f.neg(b), b) && AddComm(f, f.neg(b), b);
  }

  lemma ZeroAdds(f: Field, a: Elem)
    requires Laws(f)
    ensures f.add(f.zero, a) == a && f.add(a, f.zero) == a && Sub(f, a, a) == f.zero
  {
    assert AddComm(f, f.zero, a) && AddUnit(f, a);
  }

  lemma ZeroMuls(f: Field, a: Elem)
    requires Laws(f)
    ensures f.mul(a, f.zero) == f.zero && f.mul(f.zero, a) == f.zero
  {
    var m := f.mul(a, f.zero);
    assert Distributes(f, a, f.zero, f.zero) && AddUnit(f, f.zero);
    assert f.add(m, m) == m;
    Cancel(f, m, m);
    ZeroAdds(f, m);
    assert MulComm(f, a, f.zero);
  }

  lemma OneMuls(f: Field, a: Elem)
    requires Laws(f)
    ensures f.mul(a, f.one) == a && f.mul(f.one, a) == a && f.inverse(f.one) == f.one
  {
    assert MulUnit(f, a) && MulComm(f, f.one, a);
    assert MulUnit(f, f.one) && MulUnit(f, f.inverse(f.one)) && MulComm(f, f.one, f.inverse(f.one));
  }

  lemma NegIsUnique(f: Field, a: Elem, b: Elem)
    requires Laws(f) && f.add(a, b) == f.zero
    ensures b == f.neg(a)
  {
    assert AddComm(f, a, b);
    Cancel(f, b, a);
    ZeroAdds(f, f.neg(a));
  }

  lemma NegMuls(f: Field, a: Elem, b: Elem)
    requires Laws(f)
    ensures f.mul(a, f.neg(b)) == f.neg(f.mul(a, b)) && f.mul(f.neg(b), a) == f.neg(f.mul(a, b))
  {
    assert Distributes(f, a, b, f.neg(b)) && AddUnit(f, b) && MulComm(f, f.neg(b), a);
    ZeroMuls(f, a);
    NegIsUnique(f, f.mul(a, b), f.mul(a, f.neg(b)));
  }

  /** (a + b) + (c + d) == (a + c) + (b + d) */
  lemma Exchange(f: Field, a: Elem, b: Elem, c: Elem, d: Elem)
    requires Laws(f)
    ensures f.add(f.add(a, b), f.add(c, d)) == f.add(f.add(a, c), f.add(b, d))
  {
    assert AddAssoc(f, a, b, f.add(c, d)) && AddAssoc(f, b, c, d) && AddComm(f, b, c) && AddAssoc(f, c, b, d);
    assert AddAssoc(f, a, c, f.add(b, d));
  }

  lemma ProductIsNonZero(f: Field, a: Elem, b: Elem)
    requires Laws(f) && a != f.zero && b != f.zero
    ensures f.mul(a, b) != f.zero && f.inverse(b) != f.zero
  {
    assert MulUnit(f, b) && MulUnit(f, a) && MulAssoc(f, a, b, f.inverse(b));
    ZeroMuls(f, f.inverse(b));
    ZeroMuls(f, b);
  }
}
