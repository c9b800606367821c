/** Facts about Euclidean division that the solver needs spelled out. */
module Division {

  lemma ProductBound(d: int, e: int)
    requires d > 0
    ensures e >= 1 ==> d * e >= d
    ensures e <= -1 ==> d * e <= -d
  {
  }

  /** Quotient and remainder are determined by their equation. */
  lemma DivideUnique(n: int, d: int, q: int, r: int)
    requires 0 <= r < d && n == d * q + r
    ensures n / d == q && n % d == r
  {
    var e := n / d - q;
    assert d * e == r - n % d by {
      assert n == d * (n / d) + n % d;
      assert d * (n / d) - d * q == d * e;
    }
    ProductBound(d, e);
  }
}
