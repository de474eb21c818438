/** Fractions as values: the reduced form, the exact real number a fraction
    stands for, and the textbook operations that the fast in-place operators of
    boost/rational.hpp are compared with. */
module Fractions {
  import opened Arithmetic
  import opened NumberTheory

  datatype Fraction = Fraction(num: int, den: int)

  /** The representation invariant of the class. */
  ghost predicate Reduced(q: Fraction) {
    q.den > 0 && Coprime(q.num, q.den)
  }

  /** The number a fraction stands for. */
  function Val(q: Fraction): real
    requires q.den != 0
  {
    q.num as real / q.den as real
  }

  function SameRatio(q: Fraction, n: int, d: int): bool {
    q.num * d == n * q.den
  }

  lemma {:induction false} ValByProduct(q: Fraction, x: real)
    requires q.den != 0
    ensures Val(q) == x <==> q.num as real == x * q.den as real
  {
    RealQuotient(q.num as real, q.den as real, x);
  }

  lemma RealQuotient(n: real, d: real, x: real)
    requires d != 0.0
    ensures n / d == x <==> n == x * d
  {}

  /** Equality of the numbers is equality of the cross products. */
  lemma CrossProducts(n: int, d: int, n': int, d': int)
    requires d != 0 && d' != 0
    ensures Val(Fraction(n, d)) == Val(Fraction(n', d')) <==> n * d' == n' * d
  {
    var x := Val(Fraction(n', d'));
    ValByProduct(Fraction(n', d'), x);
    ValByProduct(Fraction(n, d), x);
    RealCross(n as real, d as real, n' as real, d' as real, x);
    assert (n * d') as real == n as real * d' as real;
    assert (n' * d) as real == n' as real * d as real;
  }

  lemma RealCross(n: real, d: real, n': real, d': real, x: real)
    requires d != 0.0 && d' != 0.0 && n' == x * d'
    ensures n == x * d <==> n * d' == n' * d
  {
    assert n' * d == (x * d) * d';
    if n * d' == n' * d {
      RealQuotient(n * d', d', x * d);
      RealQuotient(n * d', d', n);
    }
  }

  // ----- the reduced form is canonical ---------------------------------------------

  /** q is the reduced form of n/d. */
  ghost predicate IsReduction(q: Fraction, n: int, d: int) {
    Reduced(q) && SameRatio(q, n, d)
  }

  /** Reduced fractions with the same value have the same fields. */
  lemma ReducedUnique(p: Fraction, q: Fraction)
    requires Reduced(p) && Reduced(q) && p.num * q.den == q.num * p.den
    ensures p == q
  {
    CoprimeSymmetric(p.num, p.den);
    CoprimeSymmetric(q.num, q.den);
    DividesBy(p.den, q.num, p.num * q.den);
    DividesBy(q.den, p.num, q.num * p.den);
    Gauss(p.den, p.num, q.den);
    Gauss(q.den, q.num, p.den);
    DividesAntisymmetric(p.den, q.den);
    Cancel(p.den, p.num, q.num);
  }

  lemma ReducedValueUnique(p: Fraction, q: Fraction)
    requires Reduced(p) && Reduced(q) && Val(p) == Val(q)
    ensures p == q
  {
    CrossProducts(p.num, p.den, q.num, q.den);
    ReducedUnique(p, q);
  }

  lemma EqualFields(p: Fraction, q: Fraction)
    ensures Reduced(p) && Reduced(q) ==> (p == q <==> Val(p) == Val(q))
  {
    if Reduced(p) && Reduced(q) && Val(p) == Val(q) {
      ReducedValueUnique(p, q);
    }
  }

  /** Two pairs reduce to the same fields exactly when their cross products agree. */
  lemma ReductionIsCanonical(q: Fraction, n: int, d: int, q': Fraction, n': int, d': int)
    requires d != 0 && d' != 0 && IsReduction(q, n, d) && IsReduction(q', n', d')
    ensures q == q' <==> n * d' == n' * d
  {
    CrossProducts(q.num, q.den, n, d);
    CrossProducts(q'.num, q'.den, n', d');
    CrossProducts(n, d, n', d');
    if n * d' == n' * d {
      ReducedValueUnique(q, q');
    }
  }

  /** Dividing out the gcd and making the denominator positive reduces a fraction. */
  lemma DivideByGcd(n: int, d: int, k: int, l: int)
    requires d != 0 && n == Gcd(n, d) * k && d == Gcd(n, d) * l
    ensures l != 0
    ensures IsReduction(if l < 0 then Fraction(-k, -l) else Fraction(k, l), n, d)
  {
    var g := Gcd(n, d);
    var k', l' := GcdCofactors(n, d);
    Cancel(g, k, k');
    Cancel(g, l, l');
    CoprimeNegate(k, l);
    CoprimeNegate(-k, l);
    assert k * (g * l) == (g * k) * l;
    NegateFactor(k, g * l);
    NegateFactor(g * k, l);
  }

  /** The reduced form of n/d. */
  ghost function Reduce(n: int, d: int): (q: Fraction)
    requires d != 0
    ensures IsReduction(q, n, d)
  {
    var k, l := ReductionCofactors(n, d).0, ReductionCofactors(n, d).1;
    DivideByGcd(n, d, k, l);
    if l < 0 then Fraction(-k, -l) else Fraction(k, l)
  }

  ghost function ReductionCofactors(n: int, d: int): (c: (int, int))
    requires d != 0
    ensures n == Gcd(n, d) * c.0 && d == Gcd(n, d) * c.1
  {
    GcdIsGcd(n, d);
    (Cofactor(Gcd(n, d), n), Cofactor(Gcd(n, d), d))
  }

  lemma ReduceUnique(q: Fraction, n: int, d: int)
    requires d != 0 && IsReduction(q, n, d)
    ensures q == Reduce(n, d)
  {
    ReductionIsCanonical(q, n, d, Reduce(n, d), n, d);
  }

  lemma ReduceValue(n: int, d: int)
    requires d != 0
    ensures Val(Reduce(n, d)) == Val(Fraction(n, d))
  {
    var q := Reduce(n, d);
    CrossProducts(q.num, q.den, n, d);
  }

  // ----- textbook operations ----------------------------------------------------------

  ghost function Sum(p: Fraction, q: Fraction): Fraction
    requires Reduced(p) && Reduced(q)
  {
    NonZeroProduct(p.den, q.den);
    Reduce(p.num * q.den + q.num * p.den, p.den * q.den)
  }

  ghost function Difference(p: Fraction, q: Fraction): Fraction
    requires Reduced(p) && Reduced(q)
  {
    NonZeroProduct(p.den, q.den);
    Reduce(p.num * q.den - q.num * p.den, p.den * q.den)
  }

  ghost function Product(p: Fraction, q: Fraction): Fraction
    requires Reduced(p) && Reduced(q)
  {
    NonZeroProduct(p.den, q.den);
    Reduce(p.num * q.num, p.den * q.den)
  }

  ghost function Quotient(p: Fraction, q: Fraction): Fraction
    requires Reduced(p) && Reduced(q) && q.num != 0
  {
    NonZeroProduct(p.den, q.num);
    Reduce(p.num * q.den, p.den * q.num)
  }

  function Negation(p: Fraction): Fraction {
    Fraction(-p.num, p.den)
  }

  function Whole(i: int): Fraction {
    Fraction(i, 1)
  }

  lemma WholeReduced(i: int)
    ensures Reduced(Whole(i)) && Val(Whole(i)) == i as real
  {
    CoprimeBy(i, 0, 1, 1);
  }

  // ----- ... which are exact --------------------------------------------------------------

  lemma RealScale(n: real, d: real, x: real, e: real)
    requires n == x * d
    ensures n * e == x * (d * e)
  {}

  lemma RealSum(n: real, d: real, x: real, m: real, e: real, y: real)
    requires n == x * d && m == y * e && d * e != 0.0
    ensures (n * e + m * d) / (d * e) == x + y
    ensures (n * e - m * d) / (d * e) == x - y
  {
    RealScale(n, d, x, e);
    RealScale(m, e, y, d);
    RealQuotient(n * e + m * d, d * e, x + y);
    RealQuotient(n * e - m * d, d * e, x - y);
  }

  lemma RealProduct(n: real, d: real, x: real, m: real, e: real, y: real)
    requires n == x * d && m == y * e && d * e != 0.0
    ensures (n * m) / (d * e) == x * y
  {
    RealScale(n, d, x, m);
    RealScale(m, e, y, d);
    RealScale(d * m, d * e, y, x);
    RealQuotient(n * m, d * e, x * y);
  }

  lemma SumIsExact(p: Fraction, q: Fraction)
    requires Reduced(p) && Reduced(q)
    ensures Reduced(Sum(p, q)) && Val(Sum(p, q)) == Val(p) + Val(q)
  {
    NonZeroProduct(p.den, q.den);
    var x, y := Val(p), Val(q);
    ValByProduct(p, x);
    ValByProduct(q, y);
    Casts(p, q);
    RealSum(p.num as real, p.den as real, x, q.num as real, q.den as real, y);
    ReduceValue(p.num * q.den + q.num * p.den, p.den * q.den);
  }

  lemma DifferenceIsExact(p: Fraction, q: Fraction)
    requires Reduced(p) && Reduced(q)
    ensures Reduced(Difference(p, q)) && Val(Difference(p, q)) == Val(p) - Val(q)
  {
    NonZeroProduct(p.den, q.den);
    var x, y := Val(p), Val(q);
    ValByProduct(p, x);
    ValByProduct(q, y);
    Casts(p, q);
    RealSum(p.num as real, p.den as real, x, q.num as real, q.den as real, y);
    ReduceValue(p.num * q.den - q.num * p.den, p.den * q.den);
  }

  lemma ProductIsExact(p: Fraction, q: Fraction)
    requires Reduced(p) && Reduced(q)
    ensures Reduced(Product(p, q)) && Val(Product(p, q)) == Val(p) * Val(q)
  {
    NonZeroProduct(p.den, q.den);
    var x, y := Val(p), Val(q);
    ValByProduct(p, x);
    ValByProduct(q, y);
    Casts(p, q);
    RealProduct(p.num as real, p.den as real, x, q.num as real, q.den as real, y);
    ReduceValue(p.num * q.num, p.den * q.den);
  }

  lemma Casts(p: Fraction, q: Fraction)
    ensures (p.den * q.den) as real == p.den as real * q.den as real
    ensures (p.num * q.num) as real == p.num as real * q.num as real
    ensures (p.num * q.den) as real == p.num as real * q.den as real
    ensures (q.num * p.den) as real == q.num as real * p.den as real
  {}

  lemma QuotientIsExact(p: Fraction, q: Fraction)
    requires Reduced(p) && Reduced(q) && q.num != 0
    ensures Val(q) != 0.0
    ensures Reduced(Quotient(p, q)) && Val(Quotient(p, q)) == Val(p) / Val(q)
  {
    NonZeroProduct(p.den, q.num);
    var x, y := Val(p), Val(q);
    ValByProduct(p, x);
    ValByProduct(q, y);
    ValByProduct(q, 0.0);
    ReduceValue(p.num * q.den, p.den * q.num);
    Casts(p, Fraction(q.den, q.num));
    RealRatio(p.num as real, p.den as real, q.num as real, q.den as real, x, y);
  }

  lemma RealRatio(n: real, d: real, m: real, e: real, x: real, y: real)
    requires d != 0.0 && m != 0.0 && e != 0.0 && y != 0.0 && n == x * d && m == y * e
    ensures d * m != 0.0 && (n * e) / (d * m) == x / y
  {
    var z := x / y;
    RealQuotient(x, y, z);
    assert n * e == (z * y * d) * e == z * (d * (y * e));
    RealQuotient(n * e, d * m, z);
  }
}
