/** Dense polynomials over a field: products, long division, and what the division loop actually returns. */
module Polynomials {
  import opened FieldAlgebra

  type Poly = seq<Elem>

  function Coeff(f: Field, p: Poly, k: int): Elem {
    if 0 <= k < |p| then p[k] else f.zero
  }

  /** No trailing zero coefficient. */
  predicate Trimmed(f: Field, p: Poly) {
    p != [] ==> p[|p| - 1] != f.zero
  }

  function Degree(p: Poly): nat {
    if p == [] then 0 else |p| - 1
  }

  /** `r` is `p` with its trailing zeros dropped, as building a polynomial from coefficients does. */
  ghost predicate TrimsTo(f: Field, p: Poly, r: Poly) {
    Trimmed(f, r) && |r| <= |p| && r == p[..|r|] && forall i | |r| <= i < |p| :: p[i] == f.zero
  }

  method FromCoefficients(f: Field, p: Poly) returns (r: Poly)
    ensures TrimsTo(f, p, r)
  {
    var n := |p|;
    while n > 0 && p[n - 1] == f.zero
      invariant 0 <= n <= |p| && forall i | n <= i < |p| :: p[i] == f.zero
    {
      n := n - 1;
    }
    r := p[..n];
  }

  ghost predicate SameCoeffs(f: Field, p: Poly, q: Poly) {
    forall k :: Coeff(f, p, k) == Coeff(f, q, k)
  }

  lemma TrimKeepsCoeffs(f: Field, p: Poly, r: Poly)
    requires TrimsTo(f, p, r)
    ensures SameCoeffs(f, p, r)
  {
    forall k
      ensures Coeff(f, p, k) == Coeff(f, r, k)
    {
      if 0 <= k < |r| {
        assert r[k] == p[..|r|][k];
      }
    }
  }

  /** A polynomial has one trimmed coefficient list. */
  lemma TrimmedUnique(f: Field, p: Poly, q: Poly)
    requires Trimmed(f, p) && Trimmed(f, q) && SameCoeffs(f, p, q)
    ensures p == q
  {
    assert Coeff(f, p, |p| - 1) == Coeff(f, q, |p| - 1);
    assert Coeff(f, p, |q| - 1) == Coeff(f, q, |q| - 1);
    assert |p| == |q|;
    forall k | 0 <= k < |p|
      ensures p[k] == q[k]
    {
      assert Coeff(f, p, k) == Coeff(f, q, k);
    }
  }

  /** Horner's rule. */
  function Eval(f: Field, p: Poly, x: Elem): Elem {
    if p == [] then f.zero else f.add(p[0], f.mul(x, Eval(f, p[1..], x)))
  }

  lemma {:induction false} EvalZeros(f: Field, p: Poly, x: Elem)
    requires Laws(f) && forall i | 0 <= i < |p| :: p[i] == f.zero
    ensures Eval(f, p, x) == f.zero
    decreases |p|
  {
    if p != [] {
      EvalZeros(f, p[1..], x);
      ZeroMuls(f, x);
      ZeroAdds(f, f.zero);
    }
  }

  /** The value depends on the coefficients only, not on trailing zeros. */
  lemma {:induction false} EvalSame(f: Field, p: Poly, q: Poly, x: Elem)
    requires Laws(f) && SameCoeffs(f, p, q)
    ensures Eval(f, p, x) == Eval(f, q, x)
    decreases |p| + |q|
  {
    if p == [] {
      forall i | 0 <= i < |q|
        ensures q[i] == f.zero
      {
        assert Coeff(f, p, i) == Coeff(f, q, i);
      }
      EvalZeros(f, q, x);
    } else if q == [] {
      forall i | 0 <= i < |p|
        ensures p[i] == f.zero
      {
        assert Coeff(f, p, i) == Coeff(f, q, i);
      }
      EvalZeros(f, p, x);
    } else {
      forall k
        ensures Coeff(f, p[1..], k) == Coeff(f, q[1..], k)
      {
        if k >= 0 {
          assert Coeff(f, p, k + 1) == Coeff(f, q, k + 1);
        }
      }
      assert Coeff(f, p, 0) == Coeff(f, q, 0);
      EvalSame(f, p[1..], q[1..], x);
    }
  }

  // ----- products

  /** The contributions of the first `n` coefficients of `a` to coefficient `k` of the product. */
  ghost function Convolved(f: Field, a: Poly, b: Poly, k: int, n: nat): Elem {
    if n == 0 then f.zero
    else f.add(Convolved(f, a, b, k, n - 1), f.mul(Coeff(f, a, n - 1), Coeff(f, b, k - (n - 1))))
  }

  /** Coefficient `k` of the product. */
  ghost function ProductCoeff(f: Field, a: Poly, b: Poly, k: int): Elem {
    Convolved(f, a, b, k, |a|)
  }

  /** Multiplies without transforms; zero coefficients are skipped. */
  method NaiveMultiply(f: Field, a: Poly, b: Poly) returns (r: Poly)
    requires Laws(f)
    ensures Trimmed(f, r) && forall k :: Coeff(f, r, k) == ProductCoeff(f, a, b, k)
  {
    if a == [] || b == [] {
      r := [];
      forall k
        ensures ProductCoeff(f, a, b, k) == f.zero
      {
        NothingConvolved(f, a, b, k, |a|);
      }
      return;
    }
    var result := seq(|a| + |b| - 1, _ => f.zero);
    for i := 0 to |a|
      invariant |result| == |a| + |b| - 1
      invariant forall k {:trigger result[k]} | 0 <= k < |result| :: result[k] == Convolved(f, a, b, k, i)
    {
      result := AddRow(f, a, b, i, result);
    }
    forall k
      ensures Coeff(f, result, k) == ProductCoeff(f, a, b, k)
    {
      if !(0 <= k < |result|) {
        NothingConvolved(f, a, b, k, |a|);
      }
    }
    r := FromCoefficients(f, result);
    TrimKeepsCoeffs(f, result, r);
  }

  method AddRow(f: Field, a: Poly, b: Poly, i: nat, rows: Poly) returns (result: Poly)
    requires Laws(f) && i < |a| && b != [] && |rows| == |a| + |b| - 1
    requires forall k {:trigger rows[k]} | 0 <= k < |rows| :: rows[k] == Convolved(f, a, b, k, i)
    ensures |result| == |rows|
    ensures forall k {:trigger result[k]} | 0 <= k < |result| :: result[k] == Convolved(f, a, b, k, i + 1)
  {
    result := rows;
    if a[i] == f.zero {
      forall k | 0 <= k < |rows|
        ensures rows[k] == Convolved(f, a, b, k, i + 1)
      {
        ZeroMuls(f, Coeff(f, b, k - i));
        ZeroAdds(f, rows[k]);
      }
      return;
    }
    for j := 0 to |b|
      invariant |result| == |rows|
      invariant forall k {:trigger result[k]} | 0 <= k < |rows| ::
        result[k] == if i <= k < i + j then Convolved(f, a, b, k, i + 1) else rows[k]
    {
      if b[j] == f.zero {
        ZeroMuls(f, a[i]);
        ZeroAdds(f, rows[i + j]);
      } else {
        result := result[i + j := f.add(result[i + j], f.mul(a[i], b[j]))];
      }
    }
    forall k | 0 <= k < |rows|
      ensures result[k] == Convolved(f, a, b, k, i + 1)
    {
      if !(i <= k < i + |b|) {
        ZeroMuls(f, a[i]);
        ZeroAdds(f, rows[k]);
      }
    }
  }

  lemma {:induction false} NothingConvolved(f: Field, a: Poly, b: Poly, k: int, n: nat)
    requires Laws(f) && n <= |a| && (b == [] || k < 0 || k >= |a| + |b| - 1 || a == [])
    ensures Convolved(f, a, b, k, n) == f.zero
    decreases n
  {
    if n > 0 {
      NothingConvolved(f, a, b, k, n - 1);
      ZeroMuls(f, Coeff(f, a, n - 1));
      ZeroAdds(f, f.zero);
    }
  }

  // ----- long division

  /** `c` times the monomial of degree `d`. */
  function Monomial(f: Field, c: Elem, d: nat): (r: Poly)
    ensures |r| == d + 1 && r[d] == c && forall i | 0 <= i < d :: r[i] == f.zero
  {
    seq(d, _ => f.zero) + [c]
  }

  /** Changing a zero coefficient of `a` to `c` adds `c * b` shifted to the product. */
  lemma {:induction false} ConvolvedUpdate(f: Field, a: Poly, d: nat, c: Elem, b: Poly, k: int, n: nat)
    requires Laws(f) && d < |a| && a[d] == f.zero && n <= |a|
    ensures Convolved(f, a[d := c], b, k, n) ==
      if d < n then f.add(Convolved(f, a, b, k, n), f.mul(c, Coeff(f, b, k - d))) else Convolved(f, a, b, k, n)
    decreases n
  {
    if n > 0 {
      ConvolvedUpdate(f, a, d, c, b, k, n - 1);
      var before, t := Convolved(f, a, b, k, n - 1), f.mul(c, Coeff(f, b, k - d));
      if d == n - 1 {
        ZeroMuls(f, Coeff(f, b, k - d));
        ZeroAdds(f, before);
      } else if d < n - 1 {
        var u := f.mul(Coeff(f, a, n - 1), Coeff(f, b, k - (n - 1)));
        assert AddAssoc(f, before, t, u) && AddAssoc(f, before, u, t) && AddComm(f, t, u);
      }
    }
  }

  lemma {:induction false} ConvolvedOfZeros(f: Field, a: Poly, b: Poly, k: int, n: nat)
    requires Laws(f) && n <= |a| && forall i | 0 <= i < n :: a[i] == f.zero
    ensures Convolved(f, a, b, k, n) == f.zero
    decreases n
  {
    if n > 0 {
      ConvolvedOfZeros(f, a, b, k, n - 1);
      ZeroMuls(f, Coeff(f, b, k - (n - 1)));
      ZeroAdds(f, f.zero);
    }
  }

  lemma MonomialProduct(f: Field, c: Elem, d: nat, b: Poly, k: int)
    requires Laws(f)
    ensures ProductCoeff(f, Monomial(f, c, d), b, k) == f.mul(c, Coeff(f, b, k - d))
  {
    ConvolvedOfZeros(f, Monomial(f, c, d), b, k, d);
    ZeroAdds(f, f.mul(c, Coeff(f, b, k - d)));
  }

  method Subtract(f: Field, a: Poly, b: Poly) returns (r: Poly)
    requires Laws(f)
    ensures Trimmed(f, r) && |r| <= (if |a| < |b| then |b| else |a|)
    ensures forall k :: Coeff(f, r, k) == Sub(f, Coeff(f, a, k), Coeff(f, b, k))
  {
    var n := if |a| < |b| then |b| else |a|;
    var raw := seq(n, (k: nat) => Sub(f, Coeff(f, a, k), Coeff(f, b, k)));
    r := FromCoefficients(f, raw);
    TrimKeepsCoeffs(f, raw, r);
    ZeroAdds(f, f.zero);
    forall k
      ensures Coeff(f, r, k) == Sub(f, Coeff(f, a, k), Coeff(f, b, k))
    {
      assert Coeff(f, raw, k) == Coeff(f, r, k);
    }
  }

  /** numerator = full * denominator + remainder, with a remainder of lower degree. */
  ghost predicate Divides(f: Field, numerator: Poly, denominator: Poly, full: Poly, remainder: Poly) {
    |full| == (if |numerator| >= |denominator| then |numerator| - |denominator| + 1 else 0) && Trimmed(f, full) &&
    |remainder| < |denominator| && Balances(f, numerator, denominator, full, remainder)
  }

  ghost predicate Balances(f: Field, numerator: Poly, denominator: Poly, full: Poly, remainder: Poly) {
    forall k {:trigger Coeff(f, numerator, k)} ::
      Coeff(f, numerator, k) == f.add(ProductCoeff(f, full, denominator, k), Coeff(f, remainder, k))
  }

  function NonZeros(f: Field, p: Poly): (r: Poly)
    ensures |r| <= |p| && forall i | 0 <= i < |r| :: r[i] != f.zero
    ensures |r| == |p| <==> r == p
  {
    if p == [] then [] else (if p[0] == f.zero then [] else [p[0]]) + NonZeros(f, p[1..])
  }

  lemma {:induction false} NonZerosSkip(f: Field, p: Poly, d: nat, c: Elem)
    requires d < |p| && c != f.zero && forall i | 0 <= i <= d :: p[i] == f.zero
    ensures NonZeros(f, p[d := c]) == [c] + NonZeros(f, p)
    decreases d
  {
    if d == 0 {
      assert p[d := c][1..] == p[1..];
    } else {
      assert p[d := c][1..] == p[1..][d - 1 := c];
      NonZerosSkip(f, p[1..], d - 1, c);
    }
  }

  function Reverse(p: Poly): (r: Poly)
    ensures |r| == |p|
  {
    if p == [] then [] else [p[|p| - 1]] + Reverse(p[..|p| - 1])
  }

  /** One subtraction: the leading term goes, and the balance is kept. */
  method DivisionStep(f: Field, remainder: Poly, denominator: Poly, ghost numerator: Poly, ghost full: Poly)
    returns (rest: Poly, c: Elem, d: nat)
    requires Laws(f) && |denominator| >= 2 && Trimmed(f, denominator)
    requires Trimmed(f, remainder) && |remainder| >= |denominator|
    requires |remainder| - |denominator| < |full| && full[|remainder| - |denominator|] == f.zero
    requires Balances(f, numerator, denominator, full, remainder)
    ensures Trimmed(f, rest) && |rest| < |remainder| && d == |remainder| - |denominator| && c != f.zero
    ensures Balances(f, numerator, denominator, full[d := c], rest)
  {
    var lead := denominator[|denominator| - 1];
    var degree := |remainder| - 1;
    d := degree - (|denominator| - 1);
    c := f.mul(remainder[degree], f.inverse(lead));
    InverseIsNonZero(f, lead);
    ProductIsNonZero(f, remainder[degree], f.inverse(lead));
    var subtrahend := NaiveMultiply(f, Monomial(f, c, d), denominator);
    rest := Subtract(f, remainder, subtrahend);
    LeadingTermsCancel(f, remainder, denominator, subtrahend, rest, c, d);
    forall k
      ensures Coeff(f, numerator, k) == f.add(ProductCoeff(f, full[d := c], denominator, k), Coeff(f, rest, k))
    {
      MonomialProduct(f, c, d, denominator, k);
      ConvolvedUpdate(f, full, d, c, denominator, k, |full|);
      MoveAcross(f, ProductCoeff(f, full, denominator, k), Coeff(f, remainder, k),
                 f.mul(c, Coeff(f, denominator, k - d)));
    }
  }

  lemma InverseIsNonZero(f: Field, a: Elem)
    requires Laws(f) && a != f.zero
    ensures f.inverse(a) != f.zero
  {
    ProductIsNonZero(f, a, a);
  }

  /** (p + t) + (r - t) == p + r */
  lemma MoveAcross(f: Field, p: Elem, r: Elem, t: Elem)
    requires Laws(f)
    ensures f.add(f.add(p, t), Sub(f, r, t)) == f.add(p, r)
  {
    Exchange(f, p, t, r, f.neg(t));
    assert AddUnit(f, t) && AddUnit(f, f.add(p, r));
  }

  lemma LeadingTermsCancel(f: Field, remainder: Poly, denominator: Poly, subtrahend: Poly, rest: Poly, c: Elem, d: nat)
    requires Laws(f) && |denominator| >= 2 && Trimmed(f, denominator) && |remainder| == |denominator| + d
    requires c == f.mul(remainder[|remainder| - 1], f.inverse(denominator[|denominator| - 1]))
    requires forall k :: Coeff(f, subtrahend, k) == ProductCoeff(f, Monomial(f, c, d), denominator, k)
    requires Trimmed(f, rest) && forall k ::
      Coeff(f, rest, k) == Sub(f, Coeff(f, remainder, k), Coeff(f, subtrahend, k))
    ensures |rest| < |remainder|
  {
    forall k | k >= |remainder| - 1
      ensures Coeff(f, rest, k) == f.zero
    {
      MonomialProduct(f, c, d, denominator, k);
      assert Coeff(f, rest, k) == Sub(f, Coeff(f, remainder, k), f.mul(c, Coeff(f, denominator, k - d)));
      if k == |remainder| - 1 {
        var a, lead := remainder[k], denominator[|denominator| - 1];
        assert MulAssoc(f, a, f.inverse(lead), lead) && MulComm(f, lead, f.inverse(lead)) && MulUnit(f, lead);
        assert MulUnit(f, a);
        ZeroAdds(f, a);
      } else {
        ZeroMuls(f, c);
        ZeroAdds(f, f.zero);
      }
    }
    assert |rest| >= |remainder| ==> Coeff(f, rest, |rest| - 1) == f.zero;
  }

  /** Long division as the source does it. Each round pushes only its own, non-zero, coefficient, so the zero
      coefficients of the true quotient are missing from what is returned. */
  method PolynomialDivision(f: Field, numerator: Poly, denominator: Poly) returns (quotient: Poly)
    requires Laws(f) && Trimmed(f, numerator) && Trimmed(f, denominator) && |denominator| >= 2
    ensures exists full, rest :: Divides(f, numerator, denominator, full, rest) && quotient == NonZeros(f, full)
  {
    if Degree(numerator) < Degree(denominator) {
      quotient := [];
      StartBalances(f, numerator, denominator, []);
      assert Divides(f, numerator, denominator, [], numerator) && quotient == NonZeros(f, []);
      return;
    }
    ghost var full := seq(|numerator| - |denominator| + 1, _ => f.zero);
    StartBalances(f, numerator, denominator, full);
    NonZerosOfZeros(f, full);
    var pushed: Poly := [];
    var remainder := numerator;
    while Degree(remainder) >= Degree(denominator)
      invariant Trimmed(f, remainder) && |remainder| <= |numerator| && |full| == |numerator| - |denominator| + 1
      invariant Balances(f, numerator, denominator, full, remainder)
      invariant forall i | 0 <= i < |full| && i + |denominator| <= |remainder| :: full[i] == f.zero
      invariant remainder != numerator ==> Trimmed(f, full)
      invariant Reverse(pushed) == NonZeros(f, full)
      decreases |remainder|
    {
      var r, c, d := DivisionStep(f, remainder, denominator, numerator, full);
      NonZerosSkip(f, full, d, c);
      assert (pushed + [c])[..|pushed|] == pushed;
      full := full[d := c];
      pushed := pushed + [c];
      remainder := r;
    }
    quotient := FromCoefficients(f, Reverse(pushed));
    AlreadyTrimmed(f, NonZeros(f, full), quotient);
    assert Divides(f, numerator, denominator, full, remainder);
  }

  lemma AlreadyTrimmed(f: Field, p: Poly, r: Poly)
    requires TrimsTo(f, p, r) && forall i | 0 <= i < |p| :: p[i] != f.zero
    ensures r == p
  {
    assert p == [] || p[|p| - 1] != f.zero;
  }

  lemma StartBalances(f: Field, numerator: Poly, denominator: Poly, zeros: Poly)
    requires Laws(f) && forall i | 0 <= i < |zeros| :: zeros[i] == f.zero
    ensures Balances(f, numerator, denominator, zeros, numerator)
  {
    forall k
      ensures Coeff(f, numerator, k) == f.add(ProductCoeff(f, zeros, denominator, k), Coeff(f, numerator, k))
    {
      ConvolvedOfZeros(f, zeros, denominator, k, |zeros|);
      ZeroAdds(f, Coeff(f, numerator, k));
    }
  }

  lemma {:induction false} NonZerosOfZeros(f: Field, p: Poly)
    requires forall i | 0 <= i < |p| :: p[i] == f.zero
    ensures NonZeros(f, p) == []
    decreases |p|
  {
    if p != [] {
      NonZerosOfZeros(f, p[1..]);
    }
  }
}
