/** Facts about quotients and remainders that the solver needs spelled out. */
module Division {

  /** The quotient and the remainder are the only ones that fit. */
  lemma DivUnique(x: int, y: int, q: int, r: int)
    requires y > 0 && 0 <= r < y && x == y * q + r
    ensures x / y == q && x % y == r
  {
    var d := x / y - q;
    assert x == y * (x / y) + x % y;
    assert y * d == y * (x / y) - y * q;
    assert y * d == r - x % y;
    MulAtLeast(y, d);
  }

  lemma MulAtLeast(y: int, d: int)
    requires y > 0
    ensures d > 0 ==> y * d >= y
    ensures d < 0 ==> y * d <= -y
  {
  }

  lemma DivTwice(v: nat, j: nat, k: nat, p: nat)
    requires j > 0 && k > 0 && p == j * k
    ensures p > 0 && v / p == v / j / k
  {
    var a := v / j;
    var q, r := a / k, a % k;
    Split(v, j);
    Split(a, k);
    Products(j, k, q, r, p);
    DivUnique(v, p, q, j * r + v % j);
  }

  lemma Split(v: nat, j: nat)
    requires j > 0
    ensures v == j * (v / j) + v % j && v / j >= 0
  {
  }

  lemma Products(j: nat, k: nat, q: nat, r: nat, p: nat)
    requires j > 0 && r < k && p == j * k
    ensures j * (k * q + r) == p * q + j * r
    ensures 0 <= j * r && j * r + j <= p
  {
    assert j * (r + 1) <= j * k;
    assert j * (r + 1) == j * r + j;
    assert j * (k * q) == (j * k) * q;
    assert j * (k * q + r) == j * (k * q) + j * r;
  }
}
