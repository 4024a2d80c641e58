/** Facts about products and quotients that the other modules need. */
module Arithmetic {

  lemma MulMonotone(a: int, b: int, y: nat)
    requires a <= b
    ensures a * y <= b * y
  {
  }

  lemma MulAtLeastDouble(v: nat, y: nat)
    requires y >= 2
    ensures v * y >= 2 * v
  {
  }

  lemma MulNonNegative(a: nat, y: nat)
    ensures a * y >= 0
  {
  }

  lemma Distribute(a: int, b: int, y: int)
    ensures (a - b) * y == a * y - b * y
    ensures (a + b) * y == a * y + b * y
  {
  }

  lemma DivMod(n: nat, y: nat)
    requires y > 0
    ensures n == n / y * y + n % y && 0 <= n % y < y
  {
  }

  /** Quotient and remainder are determined by their equation. */
  lemma DivUnique(n: nat, y: nat, q: nat, r: nat)
    requires r < y && n == q * y + r
    ensures n / y == q && n % y == r
  {
    var q', r' := n / y, n % y;
    assert n == q' * y + r' by {
      DivMod(n, y);
    }
    if q' >= q + 1 {
      MulMonotone(q + 1, q', y);
      Distribute(q, 1, y);
    } else if q >= q' + 1 {
      MulMonotone(q' + 1, q, y);
      Distribute(q', 1, y);
    }
  }

  lemma MultipleMod(q: nat, y: nat)
    requires y > 0
    ensures (q * y) % y == 0 && (q * y) / y == q
  {
    MulNonNegative(q, y);
    DivUnique(q * y, y, q, 0);
  }

  lemma MulAssociative(a: int, b: int, c: int)
    ensures (a * b) * c == a * (c * b)
  {
  }

  /** Dividing twice is dividing by the product. */
  lemma DivDiv(n: nat, a: nat, b: nat)
    requires a > 0 && b > 0 && a * b > 0
    ensures n / a / b == n / (a * b)
  {
    var q, r, s := n / a / b, n / a % b, n % a;
    DivMod(n, a);
    DivMod(n / a, b);
    var p := a * b;
    calc {
      n;
      (q * b + r) * a + s;
      { Distribute(q * b, r, a); }
      (q * b) * a + r * a + s;
      { MulAssociative(q, b, a); }
      q * p + (r * a + s);
    }
    MulNonNegative(r, a);
    MulMonotone(r + 1, b, a);
    Distribute(r, 1, a);
    assert r * a + s < p;
    DivUnique(n, p, q, r * a + s);
  }
}
