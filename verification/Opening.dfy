/** Opening a committed polynomial at a point, and checking the opening. */
module Opening {
  import opened FieldAlgebra
  import opened Polynomials

  type Point(==, !new)

  /** Number of generators, and the commitment: a deterministic function of the coefficient list. */
  datatype Committer = Committer(capacity: nat, commit: Poly -> Point)

  datatype Outcome<T> = Ok(value: T) | DegreeTooHigh | InvalidEvaluation

  datatype OpeningProof = OpeningProof(
    quotientCommitment: Point,
    finalCommitment: Point,
    scalars: Poly,
    point: Elem,
    value: Elem
  )

  function Commit(g: Committer, p: Poly): (r: Outcome<Point>)
    ensures !r.InvalidEvaluation? && (r.DegreeTooHigh? <==> |p| > g.capacity)
  {
    if |p| > g.capacity then DegreeTooHigh else Ok(g.commit(p))
  }

  // ----- q(x) (x - z) + v

  function LiftCoeff(f: Field, q: Poly, z: Elem, v: Elem, i: nat): Elem {
    Sub(f, if i == 0 then v else Coeff(f, q, i - 1), f.mul(z, Coeff(f, q, i)))
  }

  /** Coefficients of q(x) (x - z) + v. */
  function Lift(f: Field, q: Poly, z: Elem, v: Elem): (r: Poly)
    ensures |r| == |q| + 1
  {
    seq(|q| + 1, (i: nat) => LiftCoeff(f, q, z, v, i))
  }

  method ReconstructPolynomialFromQuotient(f: Field, q: Poly, z: Elem, v: Elem) returns (p: Poly)
    requires Laws(f)
    ensures p == Lift(f, q, z, v)
  {
    var head := if q == [] then f.zero else q[0];
    p := [f.add(f.mul(f.neg(z), head), v)];
    NegMuls(f, head, z);
    assert MulComm(f, head, z) && AddComm(f, f.neg(f.mul(head, z)), v);
    assert Lift(f, q, z, v)[0] == Sub(f, v, f.mul(z, head));
    for i := 1 to |q| + 1
      invariant p == Lift(f, q, z, v)[..i]
    {
      var previous := q[i - 1];
      var next := if i < |q| then q[i] else f.zero;
      p := p + [Sub(f, previous, f.mul(z, next))];
      assert Lift(f, q, z, v)[i] == p[i];
    }
  }

  /** (v - z q0) + x (e (x - z) + q0) == (q0 + x e)(x - z) + v */
  lemma HornerStep(f: Field, v: Elem, z: Elem, q0: Elem, x: Elem, e: Elem)
    requires Laws(f)
    ensures f.add(Sub(f, v, f.mul(z, q0)), f.mul(x, f.add(f.mul(e, Sub(f, x, z)), q0)))
         == f.add(f.mul(f.add(q0, f.mul(x, e)), Sub(f, x, z)), v)
  {
    var w := Sub(f, x, z);
    var b, c, d := f.neg(f.mul(z, q0)), f.mul(x, f.mul(e, w)), f.mul(x, q0);
    assert f.mul(x, f.add(f.mul(e, w), q0)) == f.add(c, d) by {
      assert Distributes(f, x, f.mul(e, w), q0);
    }
    assert f.mul(q0, w) == f.add(d, b) by {
      assert Distributes(f, q0, x, f.neg(z)) && MulComm(f, q0, x) && MulComm(f, q0, z);
      NegMuls(f, q0, z);
    }
    assert f.mul(f.add(q0, f.mul(x, e)), w) == f.add(f.add(d, b), c) by {
      assert MulComm(f, f.add(q0, f.mul(x, e)), w) && Distributes(f, w, q0, f.mul(x, e));
      assert MulComm(f, w, q0) && MulComm(f, w, f.mul(x, e)) && MulAssoc(f, x, e, w);
    }
    assert f.add(f.add(v, b), f.add(c, d)) == f.add(f.add(f.add(d, b), c), v) by {
      assert AddComm(f, c, d) && AddComm(f, v, b);
      Exchange(f, b, v, d, c);
      assert AddComm(f, b, d) && AddComm(f, v, c) && AddAssoc(f, f.add(d, b), c, v);
    }
  }

  lemma LiftTail(f: Field, q: Poly, z: Elem, v: Elem)
    requires q != []
    ensures Lift(f, q, z, v)[1..] == Lift(f, q[1..], z, q[0])
  {
    forall i | 0 <= i < |q|
      ensures Lift(f, q, z, v)[1..][i] == Lift(f, q[1..], z, q[0])[i]
    {
      assert Lift(f, q, z, v)[1..][i] == Lift(f, q, z, v)[i + 1];
      assert Coeff(f, q, i + 1) == Coeff(f, q[1..], i);
      assert i > 0 ==> Coeff(f, q, i) == Coeff(f, q[1..], i - 1);
    }
  }

  /** The reconstruction is q(x) (x - z) + v for every q, z and v, the empty q included. */
  lemma {:induction false} EvalLift(f: Field, q: Poly, z: Elem, v: Elem, x: Elem)
    requires Laws(f)
    ensures Eval(f, Lift(f, q, z, v), x) == f.add(f.mul(Eval(f, q, x), Sub(f, x, z)), v)
    decreases |q|
  {
    var p := Lift(f, q, z, v);
    if q == [] {
      ZeroMuls(f, z);
      ZeroMuls(f, x);
      ZeroMuls(f, Sub(f, x, z));
      ZeroAdds(f, f.zero);
      ZeroAdds(f, v);
      Cancel(f, v, f.zero);
      assert p[1..] == [];
      ZeroAdds(f, p[0]);
    } else {
      LiftTail(f, q, z, v);
      assert p[0] == Sub(f, v, f.mul(z, q[0]));
      EvalLift(f, q[1..], z, q[0], x);
      HornerStep(f, v, z, q[0], x, Eval(f, q[1..], x));
    }
  }

  lemma LiftAtPoint(f: Field, q: Poly, z: Elem, v: Elem)
    requires Laws(f)
    ensures Eval(f, Lift(f, q, z, v), z) == v
  {
    EvalLift(f, q, z, v, z);
    ZeroAdds(f, z);
    ZeroMuls(f, Eval(f, q, z));
    ZeroAdds(f, v);
  }

  /** The quotient's coefficients are the values of the suffixes of p at the point. */
  lemma {:induction false} QuotientCoefficients(f: Field, q: Poly, z: Elem, v: Elem, i: nat)
    requires Laws(f) && i < |q|
    ensures q[i] == Eval(f, Lift(f, q, z, v)[i + 1..], z)
    decreases i
  {
    LiftTail(f, q, z, v);
    if i == 0 {
      LiftAtPoint(f, q[1..], z, q[0]);
    } else {
      QuotientCoefficients(f, q[1..], z, q[0], i - 1);
      assert Lift(f, q, z, v)[i + 1..] == Lift(f, q, z, v)[1..][i..];
    }
  }

  // ----- verifying

  predicate CommitmentsMatch(g: Committer, proof: OpeningProof) {
    g.commit(proof.scalars) == proof.finalCommitment && g.commit(proof.scalars) == proof.quotientCommitment
  }

  ghost predicate Accepts(f: Field, g: Committer, commitment: Point, proof: OpeningProof) {
    |proof.scalars| <= g.capacity && CommitmentsMatch(g, proof) &&
    exists p :: TrimsTo(f, Lift(f, proof.scalars, proof.point, proof.value), p) && Commit(g, p) == Ok(commitment)
  }

  /** The scalars, or after matching commitments the trimmed reconstruction, outnumber the generators. */
  ghost predicate DoesNotFit(f: Field, g: Committer, proof: OpeningProof) {
    |proof.scalars| > g.capacity ||
    (CommitmentsMatch(g, proof) &&
     exists p :: TrimsTo(f, Lift(f, proof.scalars, proof.point, proof.value), p) && |p| > g.capacity)
  }

  method VerifyIpaProof(f: Field, g: Committer, commitment: Point, proof: OpeningProof) returns (r: Outcome<bool>)
    requires Laws(f)
    ensures !r.InvalidEvaluation?
    ensures r == Ok(true) <==> Accepts(f, g, commitment, proof)
    ensures r.DegreeTooHigh? <==> DoesNotFit(f, g, proof)
    ensures r == Ok(true) ==> |proof.scalars| <= g.capacity
    ensures r == Ok(true) ==> proof.finalCommitment == g.commit(proof.scalars)
    ensures r == Ok(true) ==> proof.quotientCommitment == g.commit(proof.scalars)
    ensures |proof.scalars| <= g.capacity && proof.finalCommitment != g.commit(proof.scalars) ==> r == Ok(false)
    ensures |proof.scalars| <= g.capacity && proof.quotientCommitment != g.commit(proof.scalars) ==> r == Ok(false)
  {
    if |proof.scalars| > g.capacity {
      return DegreeTooHigh;
    }
    var reconstructed := g.commit(proof.scalars);
    if reconstructed != proof.finalCommitment || reconstructed != proof.quotientCommitment {
      return Ok(false);
    }
    var coefficients := ReconstructPolynomialFromQuotient(f, proof.scalars, proof.point, proof.value);
    var p := FromCoefficients(f, coefficients);
    forall q | TrimsTo(f, coefficients, q)
      ensures q == p
    {
      TrimIsUnique(f, coefficients, p, q);
    }
    if |p| > g.capacity {
      return DegreeTooHigh;
    }
    return Ok(g.commit(p) == commitment);
  }

  lemma TrimIsUnique(f: Field, p: Poly, q: Poly, r: Poly)
    requires TrimsTo(f, p, q) && TrimsTo(f, p, r)
    ensures q == r
  {
    TrimKeepsCoeffs(f, p, q);
    TrimKeepsCoeffs(f, p, r);
    forall k
      ensures Coeff(f, q, k) == Coeff(f, r, k)
    {
      assert Coeff(f, p, k) == Coeff(f, q, k) && Coeff(f, p, k) == Coeff(f, r, k);
    }
    TrimmedUnique(f, q, r);
  }

  ghost predicate Collides(g: Committer, p: Poly, q: Poly) {
    q != p && |q| <= g.capacity && g.commit(q) == g.commit(p)
  }

  /** Soundness without idealising the commitment: an accepted opening of a committed polynomial either tells the
      truth, with a quotient valid at every x, or exhibits two polynomials with one commitment. */
  lemma AcceptedIsTrueOrCollides(f: Field, g: Committer, p: Poly, proof: OpeningProof) returns (other: Poly)
    requires Laws(f) && Trimmed(f, p) && Accepts(f, g, g.commit(p), proof)
    ensures Collides(g, p, other) || (Eval(f, p, proof.point) == proof.value &&
      forall x :: Eval(f, p, x) == f.add(f.mul(Eval(f, proof.scalars, x), Sub(f, x, proof.point)), proof.value))
  {
    var lifted := Lift(f, proof.scalars, proof.point, proof.value);
    other :| TrimsTo(f, lifted, other) && Commit(g, other) == Ok(g.commit(p));
    if other == p {
      TrimKeepsCoeffs(f, lifted, p);
      forall x
        ensures Eval(f, p, x) == Eval(f, lifted, x)
      {
        EvalSame(f, lifted, p, x);
      }
      LiftAtPoint(f, proof.scalars, proof.point, proof.value);
      forall x
        ensures Eval(f, p, x) == f.add(f.mul(Eval(f, proof.scalars, x), Sub(f, x, proof.point)), proof.value)
      {
        EvalLift(f, proof.scalars, proof.point, proof.value, x);
      }
    }
  }

  // ----- opening

  /** The true quotient of p minus its value at z by x - z: coefficient i is the value at z of what p is beyond i. */
  function Quotient(f: Field, p: Poly, z: Elem): (r: Poly)
    requires p != []
    ensures |r| == |p| - 1 && forall i | 0 <= i < |r| :: r[i] == Eval(f, p[i + 1..], z)
  {
    seq(|p| - 1, (i: nat) requires i < |p| - 1 => Eval(f, p[i + 1..], z))
  }

  /** Synthetic division: p is q(x) (x - z) + p(z). */
  lemma QuotientLifts(f: Field, p: Poly, z: Elem)
    requires Laws(f) && p != []
    ensures Lift(f, Quotient(f, p, z), z, Eval(f, p, z)) == p
  {
    var q := Quotient(f, p, z);
    forall i | 0 <= i < |p|
      ensures LiftCoeff(f, q, z, Eval(f, p, z), i) == p[i]
    {
      assert p[0..] == p && p[i..][1..] == p[i + 1..];
      assert Coeff(f, q, i) == Eval(f, p[i + 1..], z);
      Cancel(f, p[i], f.mul(z, Eval(f, p[i + 1..], z)));
    }
  }

  /** What `Open` returns: of the true quotient only the non-zero coefficients are sent. */
  ghost predicate Opened(f: Field, g: Committer, p: Poly, z: Elem, v: Elem, proof: OpeningProof)
    requires p != []
  {
    v == Eval(f, p, z) &&
    var sent := NonZeros(f, Quotient(f, p, z));
    |sent| <= g.capacity && proof == OpeningProof(g.commit(sent), g.commit(sent), sent, z, v)
  }

  method Open(f: Field, g: Committer, p: Poly, z: Elem, v: Elem) returns (r: Outcome<OpeningProof>)
    requires Laws(f) && p != [] && Trimmed(f, p)
    ensures r.InvalidEvaluation? <==> Eval(f, p, z) != v
    ensures r.DegreeTooHigh? <==> Eval(f, p, z) == v && |NonZeros(f, Quotient(f, p, z))| > g.capacity
    ensures r.Ok? ==> Opened(f, g, p, z, v, r.value)
    ensures |p| <= g.capacity + 1 ==> !r.DegreeTooHigh?
  {
    if Eval(f, p, z) != v {
      return InvalidEvaluation;
    }
    var quotient := ComputeQuotientPolynomial(f, p, z, v);
    if |quotient| > g.capacity {
      return DegreeTooHigh;
    }
    r := Ok(OpeningProof(g.commit(quotient), g.commit(quotient), quotient, z, v));
  }

  method ComputeQuotientPolynomial(f: Field, p: Poly, z: Elem, v: Elem) returns (quotient: Poly)
    requires Laws(f) && p != [] && Trimmed(f, p) && Eval(f, p, z) == v
    ensures quotient == NonZeros(f, Quotient(f, p, z))
  {
    var shifted := p[0 := Sub(f, p[0], v)];
    var numerator := FromCoefficients(f, shifted);
    var denominator := [f.neg(z), f.one];
    quotient := PolynomialDivision(f, numerator, denominator);
    ghost var full, rest :| Divides(f, numerator, denominator, full, rest) && quotient == NonZeros(f, full);
    NumeratorVanishes(f, p, z, v, numerator);
    DividesIsLift(f, numerator, z, full, rest);
    UnshiftLift(f, p, z, v, numerator, full);
    forall i | 0 <= i < |full|
      ensures full[i] == Quotient(f, p, z)[i]
    {
      QuotientCoefficients(f, full, z, v, i);
    }
    assert full == Quotient(f, p, z);
  }

  lemma NumeratorVanishes(f: Field, p: Poly, z: Elem, v: Elem, numerator: Poly)
    requires Laws(f) && p != [] && Eval(f, p, z) == v && TrimsTo(f, p[0 := Sub(f, p[0], v)], numerator)
    ensures Eval(f, numerator, z) == f.zero
  {
    var shifted := p[0 := Sub(f, p[0], v)];
    TrimKeepsCoeffs(f, shifted, numerator);
    EvalSame(f, shifted, numerator, z);
    assert shifted[1..] == p[1..];
    var t := f.mul(z, Eval(f, p[1..], z));
    assert AddAssoc(f, p[0], f.neg(v), t) && AddComm(f, f.neg(v), t) && AddAssoc(f, p[0], t, f.neg(v));
    assert AddUnit(f, v);
  }

  /** The product with x - z, coefficient by coefficient. */
  lemma {:induction false} LinearProduct(f: Field, q: Poly, z: Elem, k: int, n: nat)
    requires Laws(f) && n <= |q|
    ensures Convolved(f, q, [f.neg(z), f.one], k, n)
         == f.add(if 1 <= k <= n then q[k - 1] else f.zero, if 0 <= k < n then f.neg(f.mul(z, q[k])) else f.zero)
    decreases n
  {
    ZeroAdds(f, f.zero);
    if n > 0 {
      LinearProduct(f, q, z, k, n - 1);
      var last := q[n - 1];
      ZeroMuls(f, last);
      OneMuls(f, last);
      NegMuls(f, last, z);
      assert MulComm(f, last, z);
      ZeroAdds(f, last);
      ZeroAdds(f, f.neg(f.mul(z, last)));
      ZeroAdds(f, Convolved(f, q, [f.neg(z), f.one], k, n - 1));
      if k == n - 1 && k > 0 {
        ZeroAdds(f, q[k - 1]);
      }
    }
  }

  /** Dividing by x - z a polynomial that vanishes at z leaves no remainder. */
  lemma DividesIsLift(f: Field, numerator: Poly, z: Elem, full: Poly, rest: Poly)
    requires Laws(f) && Eval(f, numerator, z) == f.zero
    requires Divides(f, numerator, [f.neg(z), f.one], full, rest)
    ensures SameCoeffs(f, numerator, Lift(f, full, z, f.zero))
  {
    var r := Coeff(f, rest, 0);
    forall k
      ensures Coeff(f, numerator, k) == Coeff(f, Lift(f, full, z, r), k)
    {
      LinearProduct(f, full, z, k, |full|);
      var up := if 1 <= k <= |full| then full[k - 1] else f.zero;
      var down := f.neg(f.mul(z, Coeff(f, full, k)));
      ZeroMuls(f, z);
      ZeroAdds(f, f.zero);
      NegIsUnique(f, f.zero, f.zero);
      ZeroAdds(f, down);
      ZeroAdds(f, f.add(up, down));
      assert AddComm(f, down, r);
    }
    EvalSame(f, numerator, Lift(f, full, z, r), z);
    LiftAtPoint(f, full, z, r);
  }

  lemma UnshiftLift(f: Field, p: Poly, z: Elem, v: Elem, numerator: Poly, full: Poly)
    requires Laws(f) && p != [] && Trimmed(f, p) && TrimsTo(f, p[0 := Sub(f, p[0], v)], numerator)
    requires SameCoeffs(f, numerator, Lift(f, full, z, f.zero))
    requires |full| == (if |numerator| >= 2 then |numerator| - 1 else 0)
    ensures p == Lift(f, full, z, v)
  {
    var shifted, base, lifted := p[0 := Sub(f, p[0], v)], Lift(f, full, z, f.zero), Lift(f, full, z, v);
    TrimKeepsCoeffs(f, shifted, numerator);
    assert |p| >= 2 ==> shifted[|p| - 1] != f.zero;
    assert |p| == |lifted|;
    forall k | 0 <= k < |p|
      ensures p[k] == lifted[k]
    {
      assert Coeff(f, shifted, k) == Coeff(f, numerator, k) && Coeff(f, numerator, k) == Coeff(f, base, k);
      if k == 0 {
        var t := f.neg(f.mul(z, Coeff(f, full, 0)));
        ZeroAdds(f, t);
        Cancel(f, p[0], v);
        assert AddComm(f, t, v);
      }
    }
  }

  // ----- opening then verifying

  /** Checkable by whoever opens: no proper suffix of p, from the linear coefficient up, vanishes at z. */
  ghost predicate SuffixesAreNonZero(f: Field, p: Poly, z: Elem) {
    forall i {:trigger p[i..]} | 1 <= i < |p| :: Eval(f, p[i..], z) != f.zero
  }

  lemma {:induction false} NonZerosKeepsAll(f: Field, p: Poly)
    ensures NonZeros(f, p) == p <==> forall i | 0 <= i < |p| :: p[i] != f.zero
    decreases |p|
  {
    if p != [] {
      NonZerosKeepsAll(f, p[1..]);
      if NonZeros(f, p) == p {
        forall i | 0 <= i < |p|
          ensures p[i] != f.zero
        {
          assert NonZeros(f, p)[i] == p[i];
        }
      } else {
        assert NonZeros(f, p[1..]) == p[1..] ==> p[0] == f.zero;
        assert forall i | 0 <= i < |p| - 1 :: p[1..][i] == p[i + 1];
      }
    }
  }

  lemma SentIsWhole(f: Field, p: Poly, z: Elem)
    requires p != []
    ensures NonZeros(f, Quotient(f, p, z)) == Quotient(f, p, z) <==> SuffixesAreNonZero(f, p, z)
  {
    var q := Quotient(f, p, z);
    NonZerosKeepsAll(f, q);
    if SuffixesAreNonZero(f, p, z) {
      assert forall i | 0 <= i < |q| :: q[i] != f.zero;
    } else {
      var i :| 1 <= i < |p| && Eval(f, p[i..], z) == f.zero;
      assert q[i - 1] == f.zero;
    }
  }

  lemma {:induction false} TrimExists(f: Field, p: Poly) returns (r: Poly)
    ensures TrimsTo(f, p, r)
    decreases |p|
  {
    if p == [] || p[|p| - 1] != f.zero {
      r := p;
    } else {
      r := TrimExists(f, p[..|p| - 1]);
    }
  }

  /** What the verifier rebuilds from an honest opening of p is the polynomial `sent`, and the opening is accepted
      exactly when that commits as p does. It is p itself, so that acceptance is certain, exactly when no suffix of p
      vanishes at the point; otherwise it is shorter than p. */
  lemma OpenThenVerify(f: Field, g: Committer, p: Poly, z: Elem, v: Elem, proof: OpeningProof) returns (sent: Poly)
    requires Laws(f) && p != [] && Trimmed(f, p) && |p| <= g.capacity
    requires Opened(f, g, p, z, v, proof)
    ensures TrimsTo(f, Lift(f, proof.scalars, z, v), sent)
    ensures Accepts(f, g, g.commit(p), proof) <==> g.commit(sent) == g.commit(p)
    ensures SuffixesAreNonZero(f, p, z) <==> sent == p
    ensures SuffixesAreNonZero(f, p, z) ==> Accepts(f, g, g.commit(p), proof)
    ensures sent != p ==> |sent| < |p|
  {
    sent := TrimExists(f, Lift(f, proof.scalars, z, v));
    SentIsWhole(f, p, z);
    QuotientLifts(f, p, z);
    if NonZeros(f, Quotient(f, p, z)) == Quotient(f, p, z) {
      assert TrimsTo(f, p, p);
      TrimIsUnique(f, p, p, sent);
    }
    OnlySentMatters(f, g, p, proof, sent);
  }

  lemma OnlySentMatters(f: Field, g: Committer, p: Poly, proof: OpeningProof, sent: Poly)
    requires |p| <= g.capacity && |proof.scalars| < |p| && CommitmentsMatch(g, proof)
    requires TrimsTo(f, Lift(f, proof.scalars, proof.point, proof.value), sent)
    ensures Accepts(f, g, g.commit(p), proof) <==> g.commit(sent) == g.commit(p)
  {
    assert |sent| <= g.capacity && Commit(g, sent) == Ok(g.commit(sent));
    forall q | TrimsTo(f, Lift(f, proof.scalars, proof.point, proof.value), q)
      ensures q == sent
    {
      TrimIsUnique(f, Lift(f, proof.scalars, proof.point, proof.value), q, sent);
    }
  }

  lemma ConstantTerm(f: Field, p: Poly)
    requires Laws(f) && p != []
    ensures Eval(f, p, f.zero) == p[0]
  {
    ZeroMuls(f, Eval(f, p[1..], f.zero));
    ZeroAdds(f, p[0]);
  }

  /** x^2 opened at 0 with the correct value 0: the quotient x is sent as the constant 1, the verifier rebuilds x, and
      the honest opening is rejected unless x and x^2 have one commitment. */
  lemma SquareAtZeroIsRejected(f: Field, g: Committer)
    requires Laws(f) && g.capacity >= 3
    ensures
      var p := [f.zero, f.zero, f.one];
      var proof := OpeningProof(g.commit([f.one]), g.commit([f.one]), [f.one], f.zero, f.zero);
      Opened(f, g, p, f.zero, f.zero, proof) &&
      (Accepts(f, g, g.commit(p), proof) <==> g.commit([f.zero, f.one]) == g.commit(p))
  {
    var p := [f.zero, f.zero, f.one];
    var proof := OpeningProof(g.commit([f.one]), g.commit([f.one]), [f.one], f.zero, f.zero);
    var q := Quotient(f, p, f.zero);
    ZeroMuls(f, f.zero);
    ZeroAdds(f, f.zero);
    ZeroAdds(f, f.one);
    ZeroMuls(f, f.one);
    assert p[1..] == [f.zero, f.one] && p[2..] == [f.one];
    ConstantTerm(f, p);
    ConstantTerm(f, p[1..]);
    ConstantTerm(f, p[2..]);
    assert q[0] == f.zero && q[1] == f.one;
    assert q == [f.zero, f.one] && q[1..] == [f.one] && NonZeros(f, q[1..]) == [f.one];
    assert NonZeros(f, q) == [] + NonZeros(f, q[1..]) == [f.one];
    assert Opened(f, g, p, f.zero, f.zero, proof);
    var lifted := Lift(f, [f.one], f.zero, f.zero);
    Cancel(f, f.one, f.zero);
    assert lifted[0] == LiftCoeff(f, [f.one], f.zero, f.zero, 0) == f.zero;
    assert lifted[1] == LiftCoeff(f, [f.one], f.zero, f.zero, 1) == f.one;
    assert TrimsTo(f, lifted, [f.zero, f.one]);
    OnlySentMatters(f, g, p, proof, [f.zero, f.one]);
  }
}
