/** Quotient and remainder are unique. */
module Division {
  lemma DivModUnique(v: nat, m: nat, q: nat, r: nat)
    requires r < m && v == q * m + r
    ensures v % m == r && v / m == q
  {
    var d := v / m - q;
    assert d * m == v / m * m - q * m;
    Multiple(d, m);
  }

  lemma Multiple(d: int, m: int)
    requires m > 0
    ensures d > 0 ==> d * m >= m
    ensures d < 0 ==> d * m <= -m
  {
  }

  lemma MulAssoc(a: nat, b: nat, c: nat)
    ensures a * (b * c) == a * b * c
  {
  }

  lemma MulMono(a: nat, b: nat, m: nat)
    requires a <= b
    ensures a * m <= b * m
  {
  }

  lemma QuotientBound(n: nat, size: nat, limit: nat)
    requires size > 0
    ensures n * size > limit <==> n > limit / size
  {
    var q := limit / size;
    assert limit == q * size + limit % size;
    if n > q {
      MulMono(q + 1, n, size);
      assert (q + 1) * size == q * size + size;
    } else {
      MulMono(n, q, size);
    }
  }
}
