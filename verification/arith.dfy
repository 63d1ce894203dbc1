/**
  Facts about integer multiplication, division and remainder, each stated
  for its own variables so that the proofs that use them never have to
  search for a nonlinear step themselves.
 */
module Arith {

  /** Quotient and remainder are determined by `n == q * d + r`, `0 <= r < d`. */
  lemma DivModUnique(n: int, d: int, q: int, r: int)
    requires 0 < d && 0 <= r < d && n == d * q + r
    ensures n / d == q && n % d == r
  {
    var q', r' := n / d, n % d;
    assert n == d * q' + r' && 0 <= r' < d;
    MulSub(d, q', q);
    if q' > q {
      MulAtLeast(d, q' - q);
    } else if q' < q {
      MulSub(d, q, q');
      MulAtLeast(d, q - q');
    }
  }

  lemma MulSub(d: int, a: int, b: int)
    ensures d * (a - b) == d * a - d * b
  {
  }

  lemma MulAtLeast(d: int, a: int)
    requires a >= 1 && d > 0
    ensures d * a >= d
  {
  }

  lemma MulZero(p: int)
    ensures p * 0 == 0 && p * 1 == p
  {
  }

  lemma MulTwice(p: int, v: int)
    ensures 2 * (p * v) == (2 * p) * v
  {
  }

  lemma MulLess(a: nat, b: nat, c: nat)
    requires a < b && c > 0
    ensures c * a < b * c
  {
  }

  /** Scaling by `b` scales a remainder modulo `a` to one modulo `a * b`. */
  lemma ScaledMod(n: nat, a: nat, b: nat)
    requires a > 0 && b > 0
    ensures (n * b) % (a * b) == b * (n % a)
  {
    var q, r := n / a, n % a;
    assert n == a * q + r;
    assert n * b == (a * b) * q + b * r by {
      MulRearrange(a, b, q, r);
    }
    MulLess(r, a, b);
    DivModUnique(n * b, a * b, q, b * r);
  }

  lemma MulRearrange(a: int, b: int, q: int, r: int)
    ensures (a * q + r) * b == (a * b) * q + b * r
  {
  }

  /** Dividing by `a` and then by `b` is dividing by `a * b`. */
  lemma DivDiv(n: nat, a: nat, b: nat)
    requires a > 0 && b > 0
    ensures (n / a) / b == n / (a * b)
  {
    var q, r := n / a, n % a;
    var q', r' := q / b, q % b;
    assert n == a * q + r;
    assert q == b * q' + r';
    MulDistrib(a, b, q', r');
    MulBelow(a, r', b);
    DivModUnique(n, a * b, q', a * r' + r);
  }

  lemma MulDistrib(a: int, b: int, q: int, r: int)
    ensures a * (b * q + r) == (a * b) * q + a * r
  {
  }

  lemma MulBelow(a: int, r: int, b: int)
    requires a > 0 && r < b
    ensures a * r + a <= a * b
  {
    MulAtLeast(a, b - r);
    MulSub(a, b, r);
  }

  /** A remainder modulo `2 * p`, from the remainder of `n / 2` modulo `p`
      and the lowest binary digit of `n`. */
  lemma ModDouble(n: nat, p: nat)
    requires p > 0
    ensures n % (2 * p) == 2 * ((n / 2) % p) + n % 2
  {
    var q, u := (n / 2) / p, (n / 2) % p;
    assert n / 2 == p * q + u;
    MulTwice(p, q);
    assert n == (2 * p) * q + (2 * u + n % 2);
    DivModUnique(n, 2 * p, q, 2 * u + n % 2);
  }

  /** Two sums that differ only in one `p`-weighted term. */
  lemma SumSwap(x: int, y: int, p: int, l: int, ma: int, mb: int, a: int, b: int, h: int)
    requires x == l + p * ma && ma == a + h
    requires y == l + p * mb && mb == b + h
    ensures y + p * a == x + p * b
  {
  }
}
