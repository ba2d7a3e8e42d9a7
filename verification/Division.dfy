/** Quotients by hand. */
module Division {
  lemma QuotientIs(a: int, d: int, q: int, r: int)
    requires 0 <= r < d && a == d * q + r
    ensures a / d == q
  {
    var k := a / d - q;
    assert d * k == r - a % d by {
      assert a == d * (a / d) + a % d;
    }
    assert k >= 1 ==> d * k >= d;
    assert k <= -1 ==> d * k <= -d;
  }
}
