/**
 * `decimalToFraction`, the formatter for matrix cells and multipliers. It
 * searches denominators 1..100 for the closest fraction, reduces it with
 * `findGCD`, and shows it when the reduced denominator is at most 20 and the
 * error at most 0.01; otherwise it falls back to two decimals of |x|. The
 * text itself is left abstract as a `Rendering`. The two components carry
 * identical copies of the function; one definition models both.
 */
module Fractions {
  import opened JsMath
  import opened Gcd

  /** The shapes of text the formatter produces. */
  datatype Rendering =
    | Int(negative: bool, numerator: nat)                      // sign + numerator
    | Frac(negative: bool, numerator: nat, denominator: nat)   // sign + numerator + "/" + denominator
    | Fixed2(value: real)                                      // value.toFixed(2)
  {
    /** The number the text stands for (for Fixed2, before rounding to two decimals). */
    function Value(): real {
      match this
      case Int(neg, n) => if neg then -(n as real) else n as real
      case Frac(neg, n, d) =>
        var q := if d == 0 then 0.0 else n as real / d as real;
        if neg then -q else q
      case Fixed2(v) => v
    }
  }

  /** An error below this ends the denominator search early. */
  const Epsilon: real := 0.0000000001
  /** The largest denominator tried. */
  const MaxDenominator: nat := 100
  /** The largest reduced denominator still shown as a fraction. */
  const MaxShownDenominator: nat := 20
  /** The largest error still shown as a fraction. */
  const Tolerance: real := 0.01

  /** |x - round(x * d) / d|: how far the nearest fraction with denominator d is from x. */
  function ApproxError(x: real, d: nat): real
    requires d >= 1
  {
    Abs(x - Round(x * d as real) as real / d as real)
  }

  /**
   * The search loop from `denom` on, with the best denominator so far and
   * its error. It keeps the first denominator of least error and stops at
   * the first strict improvement whose error is below Epsilon. The result
   * is the first denominator attaining its error, and unless the search
   * stopped early that error is the least over 1..100.
   */
  function Search(x: real, denom: nat, bestDenom: nat, bestError: real): (res: (nat, real))
    requires 2 <= denom <= MaxDenominator + 1 && 1 <= bestDenom < denom
    requires bestError == ApproxError(x, bestDenom)
    requires forall e :: 1 <= e < denom ==> ApproxError(x, e) >= bestError
    requires forall e :: 1 <= e < bestDenom ==> ApproxError(x, e) > bestError
    ensures 1 <= res.0 <= MaxDenominator && res.1 == ApproxError(x, res.0)
    ensures forall e :: 1 <= e < res.0 ==> ApproxError(x, e) > res.1
    ensures res.1 >= Epsilon ==> forall e :: 1 <= e <= MaxDenominator ==> ApproxError(x, e) >= res.1
    decreases MaxDenominator + 1 - denom
  {
    if denom > MaxDenominator then (bestDenom, bestError)
    else
      var error := ApproxError(x, denom);
      if error < bestError then
        if error < Epsilon then (denom, error)
        else Search(x, denom + 1, denom, error)
      else Search(x, denom + 1, bestDenom, bestError)
  }

  /** The whole search, starting from denominator 1. */
  function BestDenominator(x: real): (res: (nat, real))
    ensures 1 <= res.0 <= MaxDenominator && res.1 == ApproxError(x, res.0)
    ensures forall e :: 1 <= e < res.0 ==> ApproxError(x, e) > res.1
    ensures res.1 >= Epsilon ==> forall e :: 1 <= e <= MaxDenominator ==> ApproxError(x, e) >= res.1
  {
    Search(x, 2, 1, ApproxError(x, 1))
  }

  /** The reduced best fraction numerator/denominator and its error. */
  datatype Approximation = Approximation(numerator: nat, denominator: nat, error: real)

  /** round(x * d), the numerator paired with denominator d. */
  function Numerator(x: real, d: nat): (n: nat)
    requires x >= 0.0
    ensures n as real == Round(x * d as real) as real
  {
    assert x * d as real >= 0.0;
    Round(x * d as real)
  }

  /** Dividing numerator and denominator by a common divisor keeps the ratio. */
  lemma ReducedRatio(n: nat, d: nat, g: nat)
    requires d > 0 && Divides(g, n) && Divides(g, d)
    ensures (n / g) as real / (d / g) as real == n as real / d as real
  {
    DividesMeansMultiple(g, n);
    DividesMeansMultiple(g, d);
    var n', d' := n / g, d / g;
    assert (n' * g) as real == n' as real * g as real;
    assert (d' * g) as real == d' as real * g as real;
  }

  lemma DividedNoLarger(d: nat, g: nat)
    requires d > 0 && Divides(g, d)
    ensures 1 <= d / g <= d
  {
    DividesMeansMultiple(g, d);
    if d / g == 0 {
      assert false;
    }
    MultipleAtLeast(d / g, g);
  }

  /**
   * The best numerator round(x * bestDenom) and bestDenom, both divided by
   * their gcd, with the best error: the same ratio in lowest terms.
   */
  function Reduce(x: real, bestNumer: nat, bestDenom: nat, bestError: real): (a: Approximation)
    requires 1 <= bestDenom <= MaxDenominator && bestError == ApproxError(x, bestDenom)
    requires x >= 0.0 && bestNumer == Numerator(x, bestDenom)
    ensures 1 <= a.denominator <= bestDenom
    ensures Coprime(a.numerator, a.denominator)
    ensures a.numerator * bestDenom == bestNumer * a.denominator
    ensures a.error == bestError
    ensures a.error == Abs(x - a.numerator as real / a.denominator as real)
  {
    ReducedIsCoprime(bestNumer, bestDenom);
    var g := FindGcd(bestNumer, bestDenom);
    DividedNoLarger(bestDenom, g);
    ReducedError(x, bestNumer, bestDenom, g, bestError);
    ReducedCross(bestNumer, bestDenom, g);
    Approximation(bestNumer / g, bestDenom / g, bestError)
  }

  /** The error of the best denominator is the error of the reduced fraction. */
  lemma ReducedError(x: real, n: nat, d: nat, g: nat, e: real)
    requires 1 <= d && x >= 0.0 && n == Numerator(x, d) && e == ApproxError(x, d) && g == FindGcd(n, d)
    ensures g > 0 && d / g > 0
    ensures e == Abs(x - (n / g) as real / (d / g) as real)
  {
    ReducedIsCoprime(n, d);
    DividedNoLarger(d, g);
    ReducedRatio(n, d, g);
  }

  /** Dividing both by a common divisor keeps the cross products equal. */
  lemma ReducedCross(n: nat, d: nat, g: nat)
    requires Divides(g, n) && Divides(g, d)
    ensures (n / g) * d == n * (d / g)
  {
    var n', d' := n / g, d / g;
    DividesMeansMultiple(g, n);
    DividesMeansMultiple(g, d);
    calc {
      n' * d;
      n' * (g * d');
      (g * n') * d';
      n * d';
    }
  }

  /**
   * The search followed by the reduction: the best fraction of the search,
   * in lowest terms, with the search's error.
   */
  function Approximate(x: real): (a: Approximation)
    requires x >= 0.0
    ensures 1 <= a.denominator <= MaxDenominator
    ensures Coprime(a.numerator, a.denominator)
    ensures a.error == BestDenominator(x).1
    ensures a.numerator * BestDenominator(x).0 == Numerator(x, BestDenominator(x).0) * a.denominator
    ensures a.error == Abs(x - a.numerator as real / a.denominator as real)
  {
    var best := BestDenominator(x);
    Reduce(x, Numerator(x, best.0), best.0, best.1)
  }

  /**
   * `decimalToFraction` as both components define it. Exactly 0, 1 and -1
   * are answered first. Otherwise the sign is set aside and |v| is
   * approximated; the reduced fraction is shown, with the sign, when its
   * denominator is at most 20 and its error at most 0.01. Otherwise the
   * fallback formats |v|, so a negative value loses its sign there (see
   * `FallbackDropsSign`).
   */
  function DecimalToFraction(v: real): (r: Rendering)
    ensures v == 0.0 ==> r == Int(false, 0)
    ensures v == 1.0 ==> r == Int(false, 1)
    ensures v == -1.0 ==> r == Int(true, 1)
    ensures r.Fixed2? ==> r.value == Abs(v)
    ensures r.Int? || r.Frac? ==> r.negative == (v < 0.0)
    ensures r.Frac? ==> 2 <= r.denominator <= MaxShownDenominator && Coprime(r.numerator, r.denominator)
    ensures !r.Fixed2? ==> Abs(r.Value() - v) <= Tolerance
    ensures v != 0.0 && v != 1.0 && v != -1.0 ==>
              var a := Approximate(Abs(v));
              && (r.Fixed2? <==> a.denominator > MaxShownDenominator || a.error > Tolerance)
              && (r.Int? ==> a.denominator == 1 && r.numerator == a.numerator)
              && (r.Frac? ==> r.numerator == a.numerator && r.denominator == a.denominator)
  {
    if v == 0.0 then Int(false, 0)
    else if v == 1.0 then Int(false, 1)
    else if v == -1.0 then Int(true, 1)
    else
      var negative := v < 0.0;
      var a := Approximate(Abs(v));
      if a.denominator > MaxShownDenominator || a.error > Tolerance then Fixed2(Abs(v))
      else
        var r := if a.denominator == 1 then Int(negative, a.numerator) else Frac(negative, a.numerator, a.denominator);
        SignedValueError(v, a, r);
        r
  }

  /**
   * The formatter with the sign kept on the two-decimal fallback: whatever
   * form it takes, the text stands for a number within 0.01 of v.
   */
  function SignedDecimalToFraction(v: real): (r: Rendering)
    ensures r.Fixed2? <==> DecimalToFraction(v).Fixed2?
    ensures r.Fixed2? ==> r.value == v
    ensures !r.Fixed2? ==> r == DecimalToFraction(v)
    ensures r.Int? || r.Frac? ==> r.negative == (v < 0.0)
    ensures Abs(r.Value() - v) <= Tolerance
  {
    var r := DecimalToFraction(v);
    if r.Fixed2? then Fixed2(v) else r
  }
  /**
   * Whatever the formatter shows stands for a number whose magnitude is
   * within 0.01 of |v|; it is within 0.01 of v itself except on the
   * fallback of a negative value, which shows -v.
   */
  lemma MagnitudeClose(v: real)
    ensures var r := DecimalToFraction(v);
            && Abs(Abs(r.Value()) - Abs(v)) <= Tolerance
            && (Abs(r.Value() - v) <= Tolerance || (v < 0.0 && r == Fixed2(-v)))
  {
    var r := DecimalToFraction(v);
    if !r.Fixed2? {
      ValueSign(r);
    }
  }

  /** An integer or fraction stands for a number of its sign. */
  lemma ValueSign(r: Rendering)
    requires r.Int? || r.Frac?
    ensures r.negative ==> r.Value() <= 0.0
    ensures !r.negative ==> r.Value() >= 0.0
  {
    if r.Frac? && r.denominator != 0 {
      NonNegativeQuotient(r.numerator as real, r.denominator as real);
    }
  }

  /** The signed fraction is as far from v as the unsigned one is from |v|. */
  lemma SignedValueError(v: real, a: Approximation, r: Rendering)
    requires v != 0.0 && 1 <= a.denominator
    requires a.error == Abs(Abs(v) - a.numerator as real / a.denominator as real)
    requires r == (if a.denominator == 1 then Int(v < 0.0, a.numerator) else Frac(v < 0.0, a.numerator, a.denominator))
    ensures Abs(r.Value() - v) == a.error
  {
    var q := a.numerator as real / a.denominator as real;
    if a.denominator == 1 {
      assert q == a.numerator as real;
    }
    assert r.Value() == if v < 0.0 then -q else q;
  }

  /**
   * A fraction p/q in lowest terms is at least 1/(q*e) away from every
   * fraction with a smaller denominator e: p*e - n*q is a non-zero integer,
   * since q would otherwise divide e.
   */
  lemma CrossDifferenceNonZero(p: nat, q: nat, e: nat, n: int)
    requires 1 <= e < q && Coprime(p, q)
    ensures p * e - n * q != 0
  {
    if p * e == n * q {
      if n < 0 {
        MultipleAtLeast(q, -n);
        assert false;
      }
      DivModUnique(p * e, q, n, 0);
      EuclidLemma(p, q, e);
    }
  }

  /** Every denominator below q misses p/q by at least 1/10000. */
  lemma SmallerDenominatorMisses(p: nat, q: nat, e: nat)
    requires 1 <= e < q <= MaxDenominator && Coprime(p, q)
    ensures ApproxError(p as real / q as real, e) >= 1.0 / 10000.0
  {
    var x := p as real / q as real;
    var n := Round(x * e as real);
    ApproxErrorAt(x, e, n);
    MissesBy(p, q, e, n);
  }

  lemma ApproxErrorAt(x: real, d: nat, n: int)
    requires d >= 1 && n == Round(x * d as real)
    ensures ApproxError(x, d) == Abs(x - n as real / d as real)
  {
  }

  /** p/q in lowest terms and any n/e with e < q are at least 1/10000 apart. */
  lemma MissesBy(p: nat, q: nat, e: nat, n: int)
    requires 1 <= e < q <= MaxDenominator && Coprime(p, q)
    ensures Abs(p as real / q as real - n as real / e as real) >= 1.0 / 10000.0
  {
    CrossDifferenceNonZero(p, q, e, n);
    ProductBound(q, e);
    CrossDifference(p, q, e, n);
    CrossGap(p * e - n * q, (q * e) as real);
  }

  lemma ProductBound(q: nat, e: nat)
    requires 1 <= e < q <= MaxDenominator
    ensures 1 <= q * e <= 10000
  {
    MultipleAtLeast(q, e);
    MultipleAtLeast(e, 100 - q + 1);
    assert q * e + (100 - q) * e == 100 * e;
  }

  /** p/q - n/e written over the common denominator q*e. */
  lemma CrossDifference(p: nat, q: nat, e: nat, n: int)
    requires q >= 1 && e >= 1
    ensures p as real / q as real - n as real / e as real == (p * e - n * q) as real / (q * e) as real
  {
    CastProduct(p, e);
    CastProduct(n, q);
    CastProduct(q, e);
    FieldCrossDifference(p as real, q as real, e as real, n as real);
  }

  lemma CastProduct(a: int, b: int)
    ensures (a * b) as real == a as real * b as real
  {
  }

  lemma FieldCrossDifference(p: real, q: real, e: real, n: real)
    requires q > 0.0 && e > 0.0
    ensures p / q - n / e == (p * e - n * q) / (q * e)
  {
  }

  /** A non-zero integer over a denominator of at most 10000 is at least 1/10000 in size. */
  lemma CrossGap(k: int, qe: real)
    requires k != 0 && 1.0 <= qe <= 10000.0
    ensures Abs(k as real / qe) >= 1.0 / 10000.0
  {
    var y := k as real / qe;
    var ay := Abs(y);
    assert y * qe == k as real;
    assert ay * qe == Abs(k as real);
    NonNegativeProduct(ay, 10000.0 - qe);
    assert ay * 10000.0 >= ay * qe;
  }

  /** The denominator q itself hits p/q exactly. */
  lemma OwnDenominatorHits(p: nat, q: nat)
    requires 1 <= q
    ensures Numerator(p as real / q as real, q) == p
    ensures ApproxError(p as real / q as real, q) == 0.0
  {
    var x := p as real / q as real;
    assert x * q as real == p as real;
    RoundInteger(p);
  }

  /**
   * For a fraction p/q in lowest terms with q at most 100, the search
   * settles on q with error 0: every smaller denominator misses by more
   * than Epsilon, and q is an exact hit.
   */
  lemma SearchFindsExactDenominator(p: nat, q: nat)
    requires 1 <= q <= MaxDenominator && Coprime(p, q)
    ensures BestDenominator(p as real / q as real) == (q, 0.0)
  {
    var x := p as real / q as real;
    var res := BestDenominator(x);
    OwnDenominatorHits(p, q);
    if res.1 >= Epsilon {
      assert false;
    }
    if res.0 < q {
      SmallerDenominatorMisses(p, q, res.0);
      assert false;
    }
    if res.0 > q {
      assert false;
    }
  }

  /** An exact fraction in lowest terms comes out of the search and reduction unchanged. */
  lemma ExactApproximation(p: nat, q: nat)
    requires 1 <= q <= MaxDenominator && Coprime(p, q)
    ensures Approximate(p as real / q as real) == Approximation(p, q, 0.0)
  {
    SearchFindsExactDenominator(p, q);
    OwnDenominatorHits(p, q);
    CoprimeGcdOne(p, q);
  }

  /** The signed value p/q or -p/q. */
  function Signed(negative: bool, p: nat, q: nat): (v: real)
    requires q >= 1
    ensures Abs(v) == p as real / q as real
    ensures p >= 1 ==> (v < 0.0 <==> negative)
  {
    if negative then -(p as real / q as real) else p as real / q as real
  }

  /**
   * Every fraction in lowest terms with denominator at most 20 is shown as
   * itself: an integer when q is 1, otherwise numerator/denominator.
   */
  lemma ExactFractionsShown(negative: bool, p: nat, q: nat)
    requires p >= 1 && 1 <= q <= MaxShownDenominator && Coprime(p, q)
    ensures DecimalToFraction(Signed(negative, p, q)) ==
            (if q == 1 then Int(negative, p) else Frac(negative, p, q))
  {
    var v := Signed(negative, p, q);
    if q == 1 && p == 1 {
      assert v == if negative then -1.0 else 1.0;
    } else {
      NotUnit(p, q);
      assert v != 0.0 && v != 1.0 && v != -1.0;
      ExactApproximation(p, q);
      assert Approximate(Abs(v)) == Approximation(p, q, 0.0);
    }
  }

  /** A fraction in lowest terms other than 1/1 is not 1. */
  lemma NotUnit(p: nat, q: nat)
    requires p >= 1 && q >= 1 && Coprime(p, q) && !(p == 1 && q == 1)
    ensures p as real / q as real != 1.0
  {
    if p == q {
      assert Divides(q, p) && Divides(q, q);
    }
  }

  /**
   * A fraction in lowest terms whose denominator is between 21 and 100 is
   * found exactly, yet shown as a two-decimal number of its magnitude.
   */
  lemma LargeDenominatorsFallBack(negative: bool, p: nat, q: nat)
    requires p >= 1 && MaxShownDenominator < q <= MaxDenominator && Coprime(p, q)
    ensures DecimalToFraction(Signed(negative, p, q)) == Fixed2(p as real / q as real)
  {
    var v := Signed(negative, p, q);
    ExactApproximation(p, q);
    assert p as real / q as real != 1.0 by {
      if p as real / q as real == 1.0 {
        assert false;
      }
    }
  }

  /** A fraction in lowest terms has a positive numerator unless it is 0/1. */
  lemma CoprimeNumeratorPositive(p: nat, q: nat)
    requires q >= 2 && Coprime(p, q)
    ensures p >= 1
  {
    if p == 0 {
      assert Divides(q, p) && Divides(q, q);
    }
  }

  /**
   * Reading a shown fraction or non-zero integer back gives the same text:
   * the rendering is an exact inverse on what it produces.
   */
  lemma RenderingRoundTrip(v: real)
    requires DecimalToFraction(v).Frac? || (DecimalToFraction(v).Int? && DecimalToFraction(v).numerator >= 1)
    ensures DecimalToFraction(DecimalToFraction(v).Value()) == DecimalToFraction(v)
  {
    var r := DecimalToFraction(v);
    if r.Frac? {
      CoprimeNumeratorPositive(r.numerator, r.denominator);
      assert r.Value() == Signed(r.negative, r.numerator, r.denominator);
      ExactFractionsShown(r.negative, r.numerator, r.denominator);
    } else {
      assert Coprime(r.numerator, 1) by {
        forall c | Divides(c, r.numerator) && Divides(c, 1)
          ensures c == 1
        {
        }
      }
      assert r.Value() == Signed(r.negative, r.numerator, 1);
      ExactFractionsShown(r.negative, r.numerator, 1);
    }
  }

  /**
   * A non-zero value smaller in magnitude than 0.005 is shown as the
   * integer 0, carrying the sign of the value.
   */
  lemma TinyValuesShowZero(v: real)
    requires v != 0.0 && Abs(v) < 0.005
    ensures DecimalToFraction(v) == Int(v < 0.0, 0)
  {
    TinyApproximation(Abs(v));
  }

  /** Below 0.005 every denominator rounds to numerator 0, so the first one wins. */
  lemma TinyApproximation(x: real)
    requires 0.0 < x < 0.005
    ensures Approximate(x) == Approximation(0, 1, x)
  {
    assert BestDenominator(x) == (1, x) by {
      forall d: nat | 1 <= d <= MaxDenominator
        ensures ApproxError(x, d) == x
      {
        ScaledStaysSmall(x, d);
      }
      if BestDenominator(x).0 > 1 {
        assert false;
      }
    }
    assert Numerator(x, 1) == 0 by {
      ScaledStaysSmall(x, 1);
    }
    assert FindGcd(0, 1) == 1;
  }

  lemma ScaledStaysSmall(x: real, d: nat)
    requires 0.0 <= x < 0.005 && 1 <= d <= MaxDenominator
    ensures Round(x * d as real) == 0
  {
    var y := x * d as real;
    NonNegativeProduct(x, 100.0 - d as real);
    NonNegativeProduct(x, d as real);
    assert 0.0 <= y < 0.5;
  }

  /**
   * The fallback drops the sign: -1/23 is found exactly, its denominator is
   * too large to show, and the text is that of +1/23, which is 2/23 away
   * from the value. The signed formatter shows -1/23 to two decimals.
   */
  lemma FallbackDropsSign()
    ensures DecimalToFraction(-1.0 / 23.0) == Fixed2(1.0 / 23.0)
    ensures Abs(DecimalToFraction(-1.0 / 23.0).Value() - (-1.0 / 23.0)) > Tolerance
    ensures SignedDecimalToFraction(-1.0 / 23.0) == Fixed2(-1.0 / 23.0)
  {
    assert Coprime(1, 23) by {
      forall c | Divides(c, 1) && Divides(c, 23)
        ensures c == 1
      {
      }
    }
    var v := -1.0 / 23.0;
    assert Signed(true, 1, 23) == v;
    LargeDenominatorsFallBack(true, 1, 23);
    var r := DecimalToFraction(v);
    assert r == Fixed2(1.0 / 23.0);
    assert r.Value() - v == 2.0 / 23.0;
  }
}
