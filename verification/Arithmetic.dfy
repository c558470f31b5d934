/** Facts of multiplication and division that the solver does not find by itself. */
module Arithmetic {

  lemma MulMonotone(c: nat, a: int, b: int)
    requires a <= b
    ensures c * a <= c * b
  {
  }

  lemma DivUnique(a: int, b: int, q: int)
    requires b > 0 && b * q <= a < b * q + b
    ensures a / b == q
  {
    var p := a / b;
    assert a == b * p + a % b;
    if p < q {
      MulMonotone(b, p + 1, q);
    } else if p > q {
      MulMonotone(b, q + 1, p);
    }
  }

  /** n == d * q + m with a remainder m below d. */
  lemma Quotient(n: nat, d: nat, q: nat, m: nat)
    requires n == d * q + m && m < d
    ensures n / d == q && n % d == m
  {
    DivUnique(n, d, q);
    assert n == d * (n / d) + n % d;
  }

  lemma Regroup(a: nat, b: nat, q: nat, r: nat, s: nat)
    requires r < b && s < a
    ensures a * (b * q + r) + s == (a * b) * q + (a * r + s)
    ensures a * r + s < a * b
  {
    assert a * (b * q + r) == a * (b * q) + a * r;
    MulMonotone(a, r + 1, b);
    assert a * (r + 1) == a * r + a;
  }

  lemma DivDiv(n: nat, a: nat, b: nat)
    requires a > 0 && b > 0
    ensures a * b > 0 && n / a / b == n / (a * b)
  {
    var p, s := n / a, n % a;
    Remainder(n, a, p, s);
    var q, r := p / b, p % b;
    Remainder(p, b, q, r);
    Regroup(a, b, q, r, s);
    Quotient(n, a * b, q, a * r + s);
  }

  lemma Remainder(n: nat, d: nat, q: nat, m: nat)
    requires d > 0 && q == n / d && m == n % d
    ensures n == d * q + m && m < d
  {
  }
}
