/** Facts about products and division of integers. */
module Arithmetic {

  lemma MulMono(a: int, b: int, c: int)
    requires a <= b && c >= 0
    ensures a * c <= b * c
  {
  }

  lemma DivBounds(n: nat, d: nat)
    requires d > 0
    ensures 0 <= n / d && n / d * d <= n < n / d * d + d
  {
  }

  lemma DivIs(n: int, d: int, q: int)
    requires d > 0 && q * d <= n < (q + 1) * d
    ensures n / d == q
  {
    var r := n / d;
    assert r * d <= n < (r + 1) * d;
    if r < q { MulMono(r + 1, q, d); }
    if q < r { MulMono(q + 1, r, d); }
  }

  lemma DivUnique(a: int, n: nat, q: int, r: int)
    requires 0 <= r < n && a == q * n + r
    ensures a / n == q && a % n == r
  {
    assert (q + 1) * n == q * n + n;
    DivIs(a, n, q);
  }

  lemma NestedDiv(n: int, a: int, b: int)
    requires n >= 0 && a > 0 && b > 0
    ensures a * b > 0 && (n / a) / b == n / (a * b)
  {
    var m := n / a;
    var q := m / b;
    assert q * b <= m && m + 1 <= (q + 1) * b;
    MulMono(q * b, m, a);
    MulMono(m + 1, (q + 1) * b, a);
    assert q * (a * b) == q * b * a && (q + 1) * (a * b) == (q + 1) * b * a;
    DivIs(n, a * b, q);
  }
}
