/** Vector commitments as the tries use them: opaque maps, except that trailing zeros do not count. */
module Commitments {

  // The curve points, their 32-byte digests and the scalar field are left abstract.
  type Scalar(==, !new)
  type Point(==, !new)
  type Digest(==, !new)

  type Byte = b: int | 0 <= b < 256
  type Bytes = seq<Byte>

  /** The library functions a trie calls: commitment to a coefficient list, hash of a commitment,
      hash bytes read as a scalar, and hash of a value read as a scalar. */
  datatype Scheme = Scheme(
    zero: Scalar,
    commit: seq<Scalar> -> Point,
    digest: Point -> Digest,
    toScalar: Digest -> Scalar,
    valueScalar: Bytes -> Scalar
  )

  /** A polynomial keeps no trailing zero coefficients, so committing to it cannot see them. */
  ghost predicate IgnoresTrailingZeros(s: Scheme) {
    forall coeffs :: s.commit(coeffs + [s.zero]) == s.commit(coeffs)
  }

  /** The digest of a commitment, as the coefficient it becomes one level up. */
  function Lift(s: Scheme, p: Point): Scalar {
    s.toScalar(s.digest(p))
  }

  /** No two coefficient lists of one length, and no two points, digests or values, are confused. */
  ghost predicate CollisionFree(s: Scheme) {
    (forall a, b {:trigger s.commit(a), s.commit(b)} :: |a| == |b| && s.commit(a) == s.commit(b) ==> a == b) &&
    (forall a, b :: s.digest(a) == s.digest(b) ==> a == b) &&
    (forall a, b :: s.toScalar(a) == s.toScalar(b) ==> a == b) &&
    (forall a, b :: s.valueScalar(a) == s.valueScalar(b) ==> a == b) &&
    forall a :: s.valueScalar(a) != s.zero
  }

  /** The coefficients left once the trailing zeros are dropped. */
  function Trim(zero: Scalar, coeffs: seq<Scalar>): (r: seq<Scalar>)
    ensures |r| <= |coeffs| && r == coeffs[..|r|]
    ensures forall i | |r| <= i < |coeffs| :: coeffs[i] == zero
  {
    if coeffs != [] && coeffs[|coeffs| - 1] == zero then Trim(zero, coeffs[..|coeffs| - 1]) else coeffs
  }

  /** How the library arrives at such a scheme: it trims, then commits to exactly what is left. */
  lemma TrimmingScheme(s: Scheme, commitTrimmed: seq<Scalar> -> Point)
    requires forall coeffs :: s.commit(coeffs) == commitTrimmed(Trim(s.zero, coeffs))
    ensures IgnoresTrailingZeros(s)
    ensures (forall a, b :: commitTrimmed(a) == commitTrimmed(b) ==> a == b) ==>
      forall a, b {:trigger s.commit(a), s.commit(b)} :: |a| == |b| && s.commit(a) == s.commit(b) ==> a == b
  {
    forall coeffs
      ensures s.commit(coeffs + [s.zero]) == s.commit(coeffs)
    {
      assert (coeffs + [s.zero])[..|coeffs|] == coeffs;
    }
    if forall a, b :: commitTrimmed(a) == commitTrimmed(b) ==> a == b {
      forall a, b {:trigger s.commit(a), s.commit(b)} | |a| == |b| && s.commit(a) == s.commit(b)
        ensures a == b
      {
        TrimInjective(s.zero, a, b);
      }
    }
  }

  /** Trimming loses nothing between lists of the same length. */
  lemma TrimInjective(zero: Scalar, a: seq<Scalar>, b: seq<Scalar>)
    requires |a| == |b| && Trim(zero, a) == Trim(zero, b)
    ensures a == b
  {
    var n := |Trim(zero, a)|;
    forall i | 0 <= i < |a|
      ensures a[i] == b[i]
    {
      if i < n {
        assert a[i] == a[..n][i] && b[i] == b[..n][i];
      }
    }
  }

  lemma CommitInjective(s: Scheme, a: seq<Scalar>, b: seq<Scalar>)
    requires CollisionFree(s) && |a| == |b| && s.commit(a) == s.commit(b)
    ensures a == b
  {
  }

  lemma LiftInjective(s: Scheme, p: Point, q: Point)
    requires CollisionFree(s) && Lift(s, p) == Lift(s, q)
    ensures p == q
  {
  }

  /** An absent leaf and an empty one commit alike: the only coefficient is a zero, so it is dropped. */
  lemma ZeroLeafIsEmpty(s: Scheme)
    requires IgnoresTrailingZeros(s)
    ensures s.commit([s.zero]) == s.commit([])
  {
    assert [] + [s.zero] == [s.zero];
  }
}
