/** Products, quotients and remainders. */
module Arithmetic {
  lemma MulMono(a: nat, b: nat, c: nat)
    requires a <= b
    ensures a * c <= b * c
  {
  }

  lemma MulDistributes(a: nat, c: nat)
    ensures (a + 1) * c == a * c + c
  {
  }

  lemma DivBounds(a: nat, b: nat)
    requires b > 0
    ensures a / b * b <= a < a / b * b + b
  {
    assert a == a / b * b + a % b;
  }

  /** Quotient and remainder are unique. */
  lemma Quotient(n: nat, d: nat, q: nat, r: nat)
    requires d > 0 && n == q * d + r && r < d
    ensures n / d == q && n % d == r
  {
    DivBounds(n, d);
    var k := n / d;
    if k < q {
      MulMono(k + 1, q, d);
      MulDistributes(k, d);
    } else if q < k {
      MulMono(q + 1, k, d);
      MulDistributes(q, d);
    }
    assert n == k * d + n % d;
  }

  lemma Distribute(t: int, a: int, b: int)
    ensures t * a + t * b == t * (a + b)
  {
  }

  /** Whole multiples of the divisor only add to the quotient. */
  lemma DivShift(a: nat, r: nat, d: nat)
    requires d > 0
    ensures (a * d + r) / d == a + r / d && (a * d + r) % d == r % d
  {
    DivBounds(r, d);
    Distribute(d, a, r / d);
    Quotient(a * d + r, d, a + r / d, r % d);
  }

  /** Dividing twice is dividing by the product. */
  lemma DivDiv(n: nat, a: nat, b: nat)
    requires a > 0 && b > 0 && a * b > 0
    ensures n / (a * b) == n / a / b
  {
    DivBounds(n, a);
    DivBounds(n / a, b);
    var q := n / a / b;
    var r := n / a - q * b;
    MulMono(r + 1, b, a);
    assert n == q * (a * b) + (r * a + n % a);
    Quotient(n, a * b, q, r * a + n % a);
  }

  /** One more digit to base 256. */
  lemma ModStep(q: nat, m: nat, digit: nat)
    requires m > 0 && digit < 256
    ensures (256 * q + digit) % (256 * m) == 256 * (q % m) + digit
  {
    DivBounds(q, m);
    Quotient(256 * q + digit, 256 * m, q / m, 256 * (q % m) + digit);
  }
}
