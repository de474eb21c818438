/** Which values the operators of boost/rational.hpp go through on the way, measured
    against their inputs and result. */
module Ranges {
  import opened Arithmetic
  import opened NumberTheory
  import opened Fractions
  import opened FastForms

  /** x lies between two of the bounds. */
  ghost predicate Within(x: int, bounds: seq<int>) {
    (exists b :: b in bounds && b <= x) && (exists b :: b in bounds && x <= b)
  }

  /** No value in xs is larger or smaller than every bound. */
  ghost predicate AllWithin(xs: seq<int>, bounds: seq<int>) {
    forall x :: x in xs ==> Within(x, bounds)
  }

  /** Values inside the bounds fit any range that the bounds fit. */
  lemma WithinFits(xs: seq<int>, bounds: seq<int>, lo: int, hi: int)
    requires AllWithin(xs, bounds) && forall b :: b in bounds ==> lo <= b <= hi
    ensures forall x :: x in xs ==> lo <= x <= hi
  {
    forall x | x in xs ensures lo <= x <= hi {
      assert Within(x, bounds);
    }
  }

  lemma BetweenBounds(x: int, bounds: seq<int>, lo: int, hi: int)
    requires lo in bounds && hi in bounds && lo <= x <= hi
    ensures Within(x, bounds)
  {}

  // ----- multiplication --------------------------------------------------------------------

  /** A cofactor lies between zero and the number. */
  lemma CofactorWithin(g: int, k: int, bounds: seq<int>)
    requires g > 0 && g * k in bounds && 0 in bounds
    ensures Within(k, bounds)
  {
    MultipleIsLarge(g, k);
    MultipleIsLarge(g, -k);
    NegateFactor(g, k);
    if k > 0 {
      assert g * k >= k by { Distribute(k, g - 1, 1); NaturalProduct(k, g - 1); }
    } else {
      assert g * k <= k by { Distribute(-k, g - 1, 1); NaturalProduct(-k, g - 1); NegateFactor(k, g); }
    }
  }

  /** A gcd lies between zero and its positive argument. */
  lemma GcdWithin(a: int, b: int, bounds: seq<int>)
    requires b > 0 && b in bounds && 0 in bounds
    ensures Within(Gcd(a, b), bounds)
  {
    GcdIsGcd(a, b);
    var g, k := Gcd(a, b), Cofactor(Gcd(a, b), b);
    if g > 0 {
      MultipleIsLarge(g, k);
      assert g * k >= g by { Distribute(g, k - 1, 1); NaturalProduct(g, k - 1); }
    }
  }

  lemma CrossGcdsFit(a: int, b: int, c: int, d: int, a1: int, d1: int, c1: int, b1: int, n: int, m: int)
    requires b > 0 && d > 0
    requires a == Gcd(a, d) * a1 && d == Gcd(a, d) * d1
    requires c == Gcd(c, b) * c1 && b == Gcd(c, b) * b1
    ensures AllWithin([Gcd(a, d), Gcd(c, b), a1, c1, n, b1, d1, m], [0, a, b, c, d, n, m])
  {
    var bounds := [0, a, b, c, d, n, m];
    assert bounds[0] == 0 && bounds[1] == a && bounds[2] == b && bounds[3] == c && bounds[4] == d
        && bounds[5] == n && bounds[6] == m;
    GcdPositive(a, d);
    GcdPositive(c, b);
    GcdWithin(a, d, bounds);
    GcdWithin(c, b, bounds);
    CofactorWithin(Gcd(a, d), a1, bounds);
    CofactorWithin(Gcd(a, d), d1, bounds);
    CofactorWithin(Gcd(c, b), c1, bounds);
    CofactorWithin(Gcd(c, b), b1, bounds);
    BetweenBounds(n, bounds, n, n);
    BetweenBounds(m, bounds, m, m);
  }

  // ----- addition and subtraction ------------------------------------------------------------

  /** The two products and their sum that operator+= computes before its second gcd. */
  ghost function SumSteps(p: Fraction, q: Fraction): seq<int>
    requires p.den > 0
  {
    GcdPositive(p.den, q.den);
    var x, y := p.num * TruncDiv(q.den, Gcd(p.den, q.den)), q.num * TruncDiv(p.den, Gcd(p.den, q.den));
    [x, y, x + y]
  }

  /** ... and operator-=. */
  ghost function DifferenceSteps(p: Fraction, q: Fraction): seq<int>
    requires p.den > 0
  {
    [SumSteps(p, q)[0], SumSteps(p, q)[1], SumSteps(p, q)[0] - SumSteps(p, q)[1]]
  }

  /** A positive divisor lies between zero and the number. */
  lemma DivisorWithin(g: int, k: int, bounds: seq<int>)
    requires g > 0 && g * k > 0 && g * k in bounds && 0 in bounds
    ensures Within(g, bounds)
  {
    PositiveCofactor(g, k);
    CofactorWithin(k, g, bounds);
  }

  /** All other values: with g = gcd(b, d) and h the second gcd, the cofactors of g and h,
      the final numerator n and the final denominator m. */
  lemma SumFits(a: int, b: int, c: int, d: int, b1: int, d1: int, h: int, f: int, n: int, m: int)
    requires b > 0 && d > 0 && h > 0
    requires b == Gcd(b, d) * b1 && d == Gcd(b, d) * d1 && d == h * f
    ensures AllWithin([Gcd(b, d), b1, d1, h, n, f, m], [0, a, b, c, d, n, m])
  {
    var bounds := [0, a, b, c, d, n, m];
    assert bounds[0] == 0 && bounds[2] == b && bounds[4] == d && bounds[5] == n && bounds[6] == m;
    GcdPositive(b, d);
    GcdWithin(b, d, bounds);
    CofactorWithin(Gcd(b, d), b1, bounds);
    CofactorWithin(Gcd(b, d), d1, bounds);
    DivisorWithin(h, f, bounds);
    CofactorWithin(h, f, bounds);
    BetweenBounds(n, bounds, n, n);
    BetweenBounds(m, bounds, m, m);
  }

  /** The operator stays in a range that holds its inputs and its result exactly if these
      three values do. */
  lemma StaysInRange(seen: seq<int>, steps: seq<int>, bounds: seq<int>, lo: int, hi: int)
    requires AllWithin(seen, bounds) && forall b :: b in bounds ==> lo <= b <= hi
    ensures (forall x :: x in seen + steps ==> lo <= x <= hi) <==> (forall x :: x in steps ==> lo <= x <= hi)
  {
    WithinFits(seen, bounds, lo, hi);
    assert forall x :: x in seen + steps <==> x in seen || x in steps;
  }

  /** Each of them lies between zero and the textbook's value, which is a multiple of it. */
  lemma StepsBelowTextbook(p: Fraction, q: Fraction)
    requires p.den > 0 && q.den > 0
    ensures var x, y, steps := p.num * q.den, q.num * p.den, SumSteps(p, q);
            Within(steps[0], [0, x]) && Within(steps[1], [0, y]) && Within(steps[2], [0, x + y])
    ensures var x, y, steps := p.num * q.den, q.num * p.den, DifferenceSteps(p, q);
            Within(steps[0], [0, x]) && Within(steps[1], [0, y]) && Within(steps[2], [0, x - y])
  {
    var x, y, g := p.num * q.den, q.num * p.den, Gcd(p.den, q.den);
    var u, v := SumSteps(p, q)[0], SumSteps(p, q)[1];
    GcdPositive(p.den, q.den);
    DivGcd(p.den, q.den);
    Exchange(p.num, g, TruncDiv(q.den, g));
    Exchange(q.num, g, TruncDiv(p.den, g));
    Distribute(g, u, v);
    Distribute(g, u, -v);
    NegateFactor(g, v);
    CofactorWithinMultiple(g, u);
    CofactorWithinMultiple(g, v);
    CofactorWithinMultiple(g, u + v);
    CofactorWithinMultiple(g, u - v);
  }

  lemma Exchange(a: int, g: int, k: int)
    ensures g * (a * k) == a * (g * k)
  {}

  lemma CofactorWithinMultiple(g: int, k: int)
    requires g > 0
    ensures Within(k, [0, g * k])
  {
    assert [0, g * k][0] == 0 && [0, g * k][1] == g * k;
    CofactorWithin(g, k, [0, g * k]);
  }

  /** Over eight bits 100/3 + -99/2 = -97/6 goes through 200 and -297. */
  lemma SumLeavesRange()
    ensures var p, q := Fraction(100, 3), Fraction(-99, 2);
            && Reduced(p) && Reduced(q) && Sum(p, q) == Fraction(-97, 6)
            && SumSteps(p, q) == [200, -297, -97]
  {
    var p, q := Fraction(100, 3), Fraction(-99, 2);
    CoprimeBy(100, 1, 3, -33);
    CoprimeBy(-99, 1, 2, 50);
    CoprimeBy(-97, -1, 6, -16);
    CoprimeBy(3, 1, 2, -1);
    ReduceUnique(Fraction(-97, 6), 100 * 2 + -99 * 3, 3 * 2);
  }
}
