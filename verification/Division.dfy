/** Quotient and remainder are determined by what they multiply out to. */
module Division {

  lemma SmallMultiple(n: int, k: int)
    requires n > 0
    ensures k >= 1 ==> n * k >= n
    ensures k <= -1 ==> n * k <= -n
  {}

  lemma Divides(x: int, n: int, q: int, r: int)
    requires n > 0 && x == n * q + r && 0 <= r < n
    ensures x / n == q && x % n == r
  {
    var k := x / n - q;
    assert x == n * (x / n) + x % n;
    assert n * k == r - x % n;
    SmallMultiple(n, k);
  }
}
