/** Facts about products, quotients and remainders that several modules use. */
module Arithmetic {

  lemma MulMono(i: int, j: int, d: int)
    requires d >= 0 && i <= j
    ensures i * d <= j * d
  {
    assert (j - i) * d >= 0;
    assert j * d == i * d + (j - i) * d;
  }

  lemma Distribute(q: int, k: int, t: int, d: int)
    ensures q * (k * d) + t * d == (q * k + t) * d
    ensures q * (k * d) == q * k * d
  {
    assert q * (k * d) == q * k * d;
  }

  /** Quotient and remainder are unique. */
  lemma ModIs(x: int, q: int, d: int, r: int)
    requires 0 <= r < d && x == q * d + r
    ensures x % d == r && x / d == q
  {
    var q', r' := x / d, x % d;
    assert x == q' * d + r';
    assert q * d + d == (q + 1) * d && q' * d + d == (q' + 1) * d;
    if q + 1 <= q' {
      MulMono(q + 1, q', d);
    } else if q' + 1 <= q {
      MulMono(q' + 1, q, d);
    }
  }

  /** x lies between the multiples of d around it, and nowhere else. */
  lemma Between(x: int, q: int, d: int)
    requires d > 0
    ensures q * d <= x < (q + 1) * d <==> x / d == q
  {
    assert x == x / d * d + x % d;
    assert (q + 1) * d == q * d + d;
    if q * d <= x < (q + 1) * d {
      ModIs(x, q, d, x - q * d);
    }
  }

  lemma DivMono(a: int, b: int, d: int)
    requires d > 0 && a <= b
    ensures a / d <= b / d
  {
    assert a == a / d * d + a % d && b == b / d * d + b % d;
    if b / d + 1 <= a / d {
      MulMono(b / d + 1, a / d, d);
      Distribute(b / d, 1, 1, d);
    }
  }

  function Pow2(n: nat): (r: nat)
    ensures r >= 1
  {
    if n == 0 then 1 else 2 * Pow2(n - 1)
  }

  lemma Twice(x: int, y: int)
    ensures 2 * (x * y) == 2 * x * y
  {
  }

  lemma {:induction false} Pow2Adds(a: nat, b: nat)
    ensures Pow2(a + b) == Pow2(a) * Pow2(b)
  {
    if a > 0 {
      Pow2Adds(a - 1, b);
      Twice(Pow2(a - 1), Pow2(b));
    }
  }

  lemma {:induction false} Pow2Mono(a: nat, b: nat)
    requires a <= b
    ensures Pow2(a) <= Pow2(b)
  {
    if a < b {
      Pow2Mono(a, b - 1);
    }
  }

  lemma DivTwice(x: nat, a: nat, b: nat)
    requires a > 0 && b > 0
    ensures a * b > 0 && x / (a * b) == x / a / b
  {
    var q, r := x / a, x % a;
    var q', r' := q / b, q % b;
    assert x == q * a + r && q == q' * b + r';
    assert q * a == q' * (a * b) + r' * a by {
      assert (q' * b + r') * a == q' * b * a + r' * a;
      assert q' * b * a == q' * (a * b);
    }
    assert r' * a + r < a * b by {
      MulMono(r' + 1, b, a);
      assert (r' + 1) * a == r' * a + a;
    }
    assert a * b > 0 by {
      MulMono(1, b, a);
    }
    ModIs(x, q', a * b, r' * a + r);
  }

  lemma QuotientBelow(x: nat, a: nat, b: nat)
    requires b > 0 && x < a * b
    ensures x / b < a
  {
    assert x == x / b * b + x % b;
    if a <= x / b {
      MulMono(a, x / b, b);
    }
  }

  lemma SmallMod(x: nat, d: nat)
    requires x < d
    ensures x % d == x
  {
  }
}
