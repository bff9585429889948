/**
 * Divisibility of integers by positive divisors, and the small facts about
 * products and quotients that the gcd, lcm and primality proofs rest on.
 */
module Divisibility {

  /** d is a positive divisor of n. */
  predicate Divides(d: int, n: int)
  {
    d > 0 && n % d == 0
  }

  /** n is a common multiple of every element of xs. */
  ghost predicate CommonMultiple(xs: seq<int>, n: int)
  {
    forall i :: 0 <= i < |xs| ==> Divides(xs[i], n)
  }

  /** d is a positive common divisor of every element of xs. */
  ghost predicate CommonDivisor(xs: seq<int>, d: int)
  {
    d > 0 && forall i :: 0 <= i < |xs| ==> Divides(d, xs[i])
  }

  lemma MulAtLeast(a: int, k: int)
    requires a > 0 && k >= 1
    ensures a * k >= a
  {
    assert a * k == a + a * (k - 1);
  }

  lemma MulNegative(a: int, k: int)
    requires a > 0 && k <= -1
    ensures a * k <= -a
  {
    MulAtLeast(a, -k);
    assert a * k == -(a * -k);
  }

  /** The quotient of an exact multiple. */
  lemma DivOfMultiple(d: int, k: int)
    requires d > 0
    ensures (d * k) % d == 0 && (d * k) / d == k
  {
    var n := d * k;
    var q, r := n / d, n % d;
    assert n == d * q + r && 0 <= r < d;
    assert d * (k - q) == r;
    if k - q >= 1 {
      MulAtLeast(d, k - q);
    } else if k - q <= -1 {
      MulNegative(d, k - q);
    }
  }

  /** A product with d as a factor is divisible by d. */
  lemma DividesProduct(d: int, k: int)
    requires d > 0
    ensures Divides(d, d * k)
  {
    DivOfMultiple(d, k);
  }

  /** A divisor gives its cofactor. */
  lemma DividesCofactor(d: int, n: int)
    requires Divides(d, n)
    ensures n == d * (n / d)
  {
  }

  /** Cancelling a positive factor on both sides of an equation. */
  lemma MulCancel(c: int, x: int, y: int)
    requires c > 0 && c * x == c * y
    ensures x == y
  {
    assert c * (x - y) == 0;
    if x - y >= 1 {
      MulAtLeast(c, x - y);
    } else if x - y <= -1 {
      MulNegative(c, x - y);
    }
  }

  lemma DividesLinear(d: int, a: int, b: int, x: int, y: int)
    requires Divides(d, a) && Divides(d, b)
    ensures Divides(d, a * x + b * y)
  {
    var ka, kb := a / d, b / d;
    DividesCofactor(d, a);
    DividesCofactor(d, b);
    assert a * x + b * y == d * (ka * x + kb * y);
    DividesProduct(d, ka * x + kb * y);
  }

  lemma DividesMultiple(d: int, n: int, k: int)
    requires Divides(d, n)
    ensures Divides(d, n * k)
  {
    DividesLinear(d, n, n, k, 0);
  }

  lemma DividesTransitive(a: int, b: int, c: int)
    requires Divides(a, b) && Divides(b, c)
    ensures Divides(a, c)
  {
    DividesCofactor(b, c);
    DividesMultiple(a, b, c / b);
  }

  lemma DividesSelf(n: int)
    requires n > 0
    ensures Divides(n, n) && Divides(n, 0)
  {
    DividesProduct(n, 1);
    DividesProduct(n, 0);
  }

  /** A positive divisor of a positive number is no larger than it. */
  lemma DividesBound(d: int, n: int)
    requires Divides(d, n) && n > 0
    ensures d <= n
  {
    DividesCofactor(d, n);
    MulAtLeast(d, n / d);
  }

  /** Two positive numbers that divide each other are equal. */
  lemma DividesAntisymmetric(a: int, b: int)
    requires Divides(a, b) && Divides(b, a)
    ensures a == b
  {
    DividesBound(a, b);
    DividesBound(b, a);
  }
}
