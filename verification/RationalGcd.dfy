/** The gcd and lcm of fractions. */
module RationalGcd {
  import opened Arithmetic
  import opened NumberTheory
  import opened CommonFactor
  import opened Fractions
  import opened Rational

  /** The value of q is the integer k times the value of p. */
  ghost predicate IsMultiple(k: int, p: Fraction, q: Fraction)
    requires p.den != 0 && q.den != 0
  {
    Val(q) == k as real * Val(p)
  }

  /** p goes into q an integral number of times. */
  ghost predicate FractionDivides(p: Fraction, q: Fraction)
    requires p.den != 0 && q.den != 0
  {
    exists k: int :: IsMultiple(k, p, q)
  }

  lemma MultipleCross(k: int, p: Fraction, q: Fraction)
    requires p.den != 0 && q.den != 0
    ensures IsMultiple(k, p, q) <==> q.num * p.den == (k * p.num) * q.den
  {
    var x := Val(p);
    ValByProduct(p, x);
    assert (k * p.num) as real == k as real * p.num as real;
    RealScaleLeft(k as real, p.num as real, x, p.den as real);
    ValByProduct(Fraction(k * p.num, p.den), k as real * x);
    CrossProducts(q.num, q.den, k * p.num, p.den);
  }

  lemma RealScaleLeft(k: real, n: real, x: real, d: real)
    requires n == x * d
    ensures k * n == (k * x) * d
  {}

  lemma DividesByCross(k: int, p: Fraction, q: Fraction)
    requires p.den != 0 && q.den != 0 && q.num * p.den == (k * p.num) * q.den
    ensures FractionDivides(p, q)
  {
    MultipleCross(k, p, q);
  }

  /** A reduced c/d goes into a reduced n/e exactly when c goes into n and e into d. */
  lemma DividesComponents(p: Fraction, q: Fraction)
    requires Reduced(p) && Reduced(q)
    ensures FractionDivides(p, q) <==> Divides(p.num, q.num) && Divides(q.den, p.den)
  {
    if Divides(p.num, q.num) && Divides(q.den, p.den) {
      var s, t := Cofactor(p.num, q.num), Cofactor(q.den, p.den);
      TwoCofactors(p.num, s, q.den, t);
      DividesByCross(s * t, p, q);
    }
    if FractionDivides(p, q) {
      var k: int :| IsMultiple(k, p, q);
      MultipleCross(k, p, q);
      Assoc(p.num, k, q.den);
      DividesBy(p.num, k * q.den, p.den * q.num);
      Gauss(p.num, p.den, q.num);
      DividesBy(q.den, k * p.num, q.num * p.den);
      CoprimeSymmetric(q.num, q.den);
      Gauss(q.den, q.num, p.den);
    }
  }

  lemma TwoCofactors(c: int, s: int, e: int, t: int)
    ensures (c * s) * (e * t) == ((s * t) * c) * e
  {}

  // ----- gcd ---------------------------------------------------------------------------

  ghost function FractionGcd(a: Fraction, b: Fraction): Fraction {
    Fraction(Gcd(a.num, b.num), Lcm(a.den, b.den))
  }

  ghost function FractionLcm(a: Fraction, b: Fraction): Fraction {
    Fraction(Lcm(a.num, b.num), Gcd(a.den, b.den))
  }

  lemma LcmPositive(a: int, b: int)
    requires a != 0 && b != 0
    ensures Lcm(a, b) > 0
  {
    LcmIsLcm(a, b);
    DividesBy(a, b, a * b);
    DividesBy(b, a, a * b);
    NonZeroProduct(a, b);
    var k := Cofactor(Lcm(a, b), a * b);
  }

  /** The lcm of two numbers coprime to g is coprime to g. */
  lemma LcmCoprime(g: int, a: int, b: int)
    requires Coprime(g, a) && Coprime(g, b)
    ensures Coprime(g, Lcm(a, b))
  {
    LcmIsLcm(a, b);
    DividesBy(a, b, a * b);
    DividesBy(b, a, a * b);
    CoprimeProduct(g, a, b);
    DividesSelf(g);
    CoprimeDivisors(g, g, Lcm(a, b), a * b);
  }

  lemma GcdReduced(a: Fraction, b: Fraction)
    requires Reduced(a) && Reduced(b)
    ensures Reduced(FractionGcd(a, b)) && Reduced(FractionLcm(a, b))
  {
    LcmPositive(a.den, b.den);
    GcdPositive(a.den, b.den);
    GcdIsGcd(a.num, b.num);
    GcdIsGcd(a.den, b.den);
    CoprimeDivisor(Gcd(a.num, b.num), a.num, a.den);
    CoprimeDivisor(Gcd(a.num, b.num), b.num, b.den);
    LcmCoprime(Gcd(a.num, b.num), a.den, b.den);
    CoprimeSymmetric(a.num, a.den);
    CoprimeSymmetric(b.num, b.den);
    CoprimeDivisor(Gcd(a.den, b.den), a.den, a.num);
    CoprimeDivisor(Gcd(a.den, b.den), b.den, b.num);
    LcmCoprime(Gcd(a.den, b.den), a.num, b.num);
    CoprimeSymmetric(Gcd(a.den, b.den), Lcm(a.num, b.num));
  }

  /** The rational gcd goes into both fractions, and every fraction that goes into
      both goes into it. */
  lemma FractionGcdIsGcd(a: Fraction, b: Fraction, x: Fraction)
    requires Reduced(a) && Reduced(b) && Reduced(x)
    ensures Reduced(FractionGcd(a, b))
    ensures FractionDivides(FractionGcd(a, b), a) && FractionDivides(FractionGcd(a, b), b)
    ensures FractionDivides(x, a) && FractionDivides(x, b) <==> FractionDivides(x, FractionGcd(a, b))
  {
    var g := FractionGcd(a, b);
    GcdReduced(a, b);
    GcdIsGcd(a.num, b.num);
    LcmIsLcm(a.den, b.den);
    DividesComponents(g, a);
    DividesComponents(g, b);
    DividesComponents(x, a);
    DividesComponents(x, b);
    DividesComponents(x, g);
    if FractionDivides(x, g) {
      DividesTrans(x.num, g.num, a.num);
      DividesTrans(x.num, g.num, b.num);
      DividesTrans(a.den, g.den, x.den);
      DividesTrans(b.den, g.den, x.den);
    }
  }

  /** Both fractions go into the rational lcm, and it goes into every common multiple. */
  lemma FractionLcmIsLcm(a: Fraction, b: Fraction, x: Fraction)
    requires Reduced(a) && Reduced(b) && Reduced(x)
    ensures Reduced(FractionLcm(a, b))
    ensures FractionDivides(a, FractionLcm(a, b)) && FractionDivides(b, FractionLcm(a, b))
    ensures FractionDivides(a, x) && FractionDivides(b, x) <==> FractionDivides(FractionLcm(a, b), x)
  {
    var m := FractionLcm(a, b);
    GcdReduced(a, b);
    GcdIsGcd(a.den, b.den);
    LcmIsLcm(a.num, b.num);
    DividesComponents(a, m);
    DividesComponents(b, m);
    DividesComponents(a, x);
    DividesComponents(b, x);
    DividesComponents(m, x);
    if FractionDivides(m, x) {
      DividesTrans(a.num, m.num, x.num);
      DividesTrans(b.num, m.num, x.num);
      DividesTrans(x.den, m.den, a.den);
      DividesTrans(x.den, m.den, b.den);
    }
  }

  method GcdEvaluator(a: Rational, b: Rational) returns (r: Rational)
    requires a.Valid() && b.Valid()
    ensures r.Valid() && r.Value() == FractionGcd(a.Value(), b.Value())
  {
    var n := GcdInteger(a.num, b.num);
    var d := LcmInteger(a.den, b.den);
    GcdReduced(a.Value(), b.Value());
    var thrown;
    thrown, r := Rational.Make(n, d);
    ReduceUnique(Fraction(n, d), n, d);
  }

  method LcmEvaluator(a: Rational, b: Rational) returns (r: Rational)
    requires a.Valid() && b.Valid()
    ensures r.Valid() && r.Value() == FractionLcm(a.Value(), b.Value())
  {
    var n := LcmInteger(a.num, b.num);
    var d := GcdInteger(a.den, b.den);
    GcdReduced(a.Value(), b.Value());
    var thrown;
    thrown, r := Rational.Make(n, d);
    ReduceUnique(Fraction(n, d), n, d);
  }
}
