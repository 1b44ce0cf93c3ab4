/**
 * Euclid's algorithm as `findGCD` runs it on the non-negative integers the
 * fraction formatter passes it, and the divisibility facts the formatter's
 * reduction step relies on.
 */
module Gcd {

  /** d is a positive divisor of x. */
  predicate Divides(d: int, x: int) {
    d > 0 && x % d == 0
  }

  /** p and q have no common divisor other than 1: p/q is in lowest terms. */
  ghost predicate Coprime(p: nat, q: nat) {
    forall c :: Divides(c, p) && Divides(c, q) ==> c == 1
  }

  /** A positive multiple of d is at least d. */
  lemma {:induction false} MultipleAtLeast(d: int, t: int)
    requires d > 0 && t >= 1
    ensures t * d >= d
    decreases t
  {
    if t > 1 {
      MultipleAtLeast(d, t - 1);
      assert t * d == (t - 1) * d + d;
    }
  }

  lemma MultipleDivisible(d: int, k: int)
    requires d > 0
    ensures Divides(d, d * k)
  {
    assert d * k == k * d + 0;
    DivModUnique(d * k, d, k, 0);
  }

  lemma DividesMeansMultiple(d: int, x: int)
    requires Divides(d, x)
    ensures x == d * (x / d)
  {
  }

  /** Sums and differences of multiples of d are multiples of d. */
  lemma DividesLinear(d: int, x: int, y: int, k: int)
    requires Divides(d, x) && Divides(d, y)
    ensures Divides(d, x + k * y)
  {
    DividesMeansMultiple(d, x);
    DividesMeansMultiple(d, y);
    assert x + k * y == d * (x / d + k * (y / d));
    MultipleDivisible(d, x / d + k * (y / d));
  }

  /** `findGCD(a, b)`: Euclid's recursion on the remainder; the result divides both arguments. */
  function FindGcd(a: nat, b: nat): (g: nat)
    ensures a > 0 || b > 0 ==> Divides(g, a) && Divides(g, b)
    ensures a == 0 && b == 0 ==> g == 0
    decreases b
  {
    if b == 0 then a
    else
      var g := FindGcd(b, a % b);
      assert Divides(g, a) by {
        assert a == (a % b) + (a / b) * b;
        DividesLinear(g, a % b, b, a / b);
      }
      g
  }

  /** Every common divisor of a and b divides FindGcd(a, b): it is the greatest. */
  lemma {:induction false} GcdGreatest(a: nat, b: nat, c: int)
    requires Divides(c, a) && Divides(c, b)
    ensures Divides(c, FindGcd(a, b))
    decreases b
  {
    if b != 0 {
      assert a % b == a + (-(a / b)) * b;
      DividesLinear(c, a, b, -(a / b));
      GcdGreatest(b, a % b, c);
    }
  }

  lemma ModScale(a: nat, b: nat, e: nat)
    requires b > 0 && e > 0
    ensures (e * a) % (e * b) == e * (a % b)
  {
    var q, r := a / b, a % b;
    assert a == q * b + r && 0 <= r < b;
    assert e * a == q * (e * b) + e * r;
    assert 0 <= e * r < e * b;
    DivModUnique(e * a, e * b, q, e * r);
  }

  /** The quotient and remainder of Euclidean division are unique. */
  lemma DivModUnique(x: int, d: int, q: int, r: int)
    requires d > 0 && x == q * d + r && 0 <= r < d
    ensures x / d == q && x % d == r
  {
    var q', r' := x / d, x % d;
    assert x == q' * d + r' && 0 <= r' < d;
    assert (q - q') * d == r' - r;
    if q > q' {
      MultipleAtLeast(d, q - q');
    } else if q < q' {
      MultipleAtLeast(d, q' - q);
    }
  }

  /** Scaling both arguments scales the result: gcd(e*a, e*b) = e * gcd(a, b). */
  lemma {:induction false} GcdScale(a: nat, b: nat, e: nat)
    requires e > 0
    ensures FindGcd(e * a, e * b) == e * FindGcd(a, b)
    decreases b
  {
    if b != 0 {
      ModScale(a, b, e);
      GcdScale(b, a % b, e);
    }
  }

  /** Coprime arguments have gcd 1. */
  lemma CoprimeGcdOne(p: nat, q: nat)
    requires q > 0 && Coprime(p, q)
    ensures FindGcd(p, q) == 1
  {
  }

  /** Euclid's lemma: q divides p * e and shares no factor with p, so q divides e. */
  lemma EuclidLemma(p: nat, q: nat, e: nat)
    requires q > 0 && e > 0 && Coprime(p, q) && Divides(q, p * e)
    ensures Divides(q, e)
  {
    CoprimeGcdOne(p, q);
    GcdScale(p, q, e);
    assert FindGcd(e * p, e * q) == e;
    MultipleDivisible(q, e);
    assert Divides(q, e * q);
    assert p * e == e * p;
    GcdGreatest(e * p, e * q, q);
  }

  /** Dividing both by their gcd leaves a pair in lowest terms. */
  lemma ReducedIsCoprime(n: nat, d: nat)
    requires d > 0
    ensures FindGcd(n, d) > 0
    ensures Coprime(n / FindGcd(n, d), d / FindGcd(n, d))
  {
    var g := FindGcd(n, d);
    forall c | Divides(c, n / g) && Divides(c, d / g)
      ensures c == 1
    {
      ScaledDivisor(n, g, c);
      ScaledDivisor(d, g, c);
      GcdGreatest(n, d, c * g);
      OnlyUnitScalesDivisor(g, c);
    }
  }

  /** c divides x / g and g divides x, so c * g divides x. */
  lemma ScaledDivisor(x: nat, g: nat, c: int)
    requires Divides(g, x) && Divides(c, x / g)
    ensures Divides(c * g, x)
  {
    var q := x / g;
    var t := q / c;
    DividesMeansMultiple(g, x);
    DividesMeansMultiple(c, q);
    assert x == (c * g) * t;
    MultipleDivisible(c * g, t);
  }

  /** c * g divides g only for c = 1. */
  lemma OnlyUnitScalesDivisor(g: int, c: int)
    requires g > 0 && c > 0 && Divides(c * g, g)
    ensures c == 1
  {
    var h := c * g;
    DividesMeansMultiple(h, g);
    var t := g / h;
    if c > 1 {
      MultipleAtLeast(h, t);
      MultipleAtLeast(g, c - 1);
    }
  }
}
