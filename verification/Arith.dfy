/** Division and multiplication facts the solver does not find by itself. */
module Arith {

  lemma Square(B: nat)
    requires B > 0
    ensures B * B > 0
  {
  }

  lemma DivNat(a: nat, b: nat)
    requires b > 0
    ensures a / b >= 0
  {
  }

  lemma Split(n: nat, m: nat, hi: nat)
    requires m > 0 && n < hi * m
    ensures n == n / m * m + n % m && n / m < hi && n % m < m
  {
  }

  lemma DivUnique(n: nat, B: nat, q: nat, r: nat)
    requires B > 0 && n == q * B + r && r < B
    ensures n / B == q && n % B == r
  {
    var d := n / B - q;
    assert n == n / B * B + n % B;
    assert d * B == r - n % B;
  }

  lemma Below(q: nat, r: nat, m: nat, n: nat)
    requires q < n && r < m
    ensures q * m + r < n * m
  {
    MulMono(q + 1, n, m);
    assert (q + 1) * m == q * m + m;
  }

  lemma MulMono(a: nat, b: nat, m: nat)
    requires a <= b
    ensures a * m <= b * m
  {
  }
}
