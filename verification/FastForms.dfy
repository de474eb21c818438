/** Why the operators of boost/rational.hpp need no full renormalisation: each
    lemma takes the intermediate values of one operator and shows that what it
    stores is already the reduced form of the textbook result. */
module FastForms {
  import opened Arithmetic
  import opened NumberTheory
  import opened Fractions

  /** Dividing by the gcd is exact for both arguments. */
  lemma DivGcd(a: int, b: int)
    requires Gcd(a, b) != 0
    ensures Gcd(a, b) * TruncDiv(a, Gcd(a, b)) == a
    ensures Gcd(a, b) * TruncDiv(b, Gcd(a, b)) == b
  {
    var g := Gcd(a, b);
    GcdIsGcd(a, b);
    TruncDivExact(a, g, Cofactor(g, a));
    TruncDivExact(b, g, Cofactor(g, b));
  }

  lemma DivDivisor(d: int, g: int, a: int)
    requires d != 0 && Divides(d, g) && Divides(g, a)
    ensures d * TruncDiv(a, d) == a
  {
    DividesTrans(d, g, a);
    TruncDivExact(a, d, Cofactor(d, a));
  }

  lemma PositiveCofactor(g: int, k: int)
    requires g > 0 && g * k > 0
    ensures k > 0
  {
    MultipleIsLarge(g, k);
  }

  // ----- addition and subtraction ---------------------------------------------------

  /** The numerator of a/(g b1) + c/(g d1) over the common denominator g b1 d1 is
      coprime to b1 and to d1, so only g can share a factor with it. */
  lemma NumeratorCoprime(a: int, c: int, g: int, b1: int, d1: int)
    requires Coprime(a, g * b1) && Coprime(c, g * d1) && Coprime(b1, d1)
    ensures Coprime(a * d1 + c * b1, b1 * d1)
  {
    CoprimeToCofactor(a, c, g, b1, d1);
    CoprimeSymmetric(b1, d1);
    CoprimeToCofactor(c, a, g, d1, b1);
    CoprimeProduct(a * d1 + c * b1, b1, d1);
  }

  lemma CoprimeToCofactor(a: int, c: int, g: int, b1: int, d1: int)
    requires Coprime(a, g * b1) && Coprime(b1, d1)
    ensures Coprime(a * d1 + c * b1, b1)
  {
    DividesBy(b1, g, g * b1);
    DividesSelf(a);
    CoprimeDivisors(a, a, b1, g * b1);
    CoprimeSymmetric(a, b1);
    CoprimeProduct(b1, a, d1);
    CoprimeSymmetric(b1, a * d1);
    CoprimeShift(a * d1, b1, c);
  }

  /** The whole of operator+=: g = gcd(b, d), h = gcd(t, g), and the stored fields
      are n = t / h over b1 * (d / h). */
  lemma FastSum(a: int, b: int, c: int, d: int, b1: int, d1: int, n: int, f: int)
    requires Reduced(Fraction(a, b)) && Reduced(Fraction(c, d))
    requires b == Gcd(b, d) * b1 && d == Gcd(b, d) * d1
    requires a * d1 + c * b1 == Gcd(a * d1 + c * b1, Gcd(b, d)) * n
    requires d == Gcd(a * d1 + c * b1, Gcd(b, d)) * f
    ensures IsReduction(Fraction(n, b1 * f), a * d + c * b, b * d)
  {
    var g, t := Gcd(b, d), a * d1 + c * b1;
    var k, l := GcdCofactors(b, d);
    Cancel(g, k, b1);
    Cancel(g, l, d1);
    NumeratorCoprime(a, c, g, b1, d1);
    var h := Gcd(t, g);
    var n', e := GcdCofactors(t, g);
    Cancel(h, n, n');
    Assoc(h, e, d1);
    Cancel(h, f, e * d1);
    CancelledCoprime(t, h, n, b1 * d1, e);
    assert (b1 * d1) * e == b1 * (e * d1);
    PositiveCofactor(g, b1);
    PositiveCofactor(h, f);
    NaturalProduct(b1, f);
    NonZeroProduct(b1, f);
    CommonDenominator(a, c, g, h, e, b1, d1, n);
  }

  lemma CancelledCoprime(t: int, h: int, n: int, m: int, e: int)
    requires t == h * n && Coprime(t, m) && Coprime(n, e)
    ensures Coprime(n, m * e)
  {
    DividesBy(n, h, t);
    CoprimeDivisor(n, t, m);
    CoprimeProduct(n, m, e);
  }

  /** The cross products of the stored fields and of the textbook sum. */
  lemma CommonDenominator(a: int, c: int, g: int, h: int, e: int, b1: int, d1: int, n: int)
    requires g == h * e && a * d1 + c * b1 == h * n
    ensures n * ((g * b1) * (g * d1)) == (a * (g * d1) + c * (g * b1)) * (b1 * (e * d1))
  {
    assert a * (g * d1) + c * (g * b1) == g * (h * n) by {
      Distribute(g, a * d1, c * b1);
      assert a * (g * d1) == g * (a * d1);
      assert c * (g * b1) == g * (c * b1);
    }
    SixFactors(g, h, e, b1, d1, n);
  }

  lemma SixFactors(g: int, h: int, e: int, b1: int, d1: int, n: int)
    requires g == h * e
    ensures n * ((g * b1) * (g * d1)) == (g * (h * n)) * (b1 * (e * d1))
  {
    var u := b1 * d1;
    assert (g * b1) * (g * d1) == (g * g) * u;
    assert g * (h * e) == g * g;
    assert b1 * (e * d1) == e * u;
    assert (g * (h * n)) * (e * u) == n * ((g * (h * e)) * u);
  }

  // ----- multiplication and division -----------------------------------------------------

  /** operator*=: both cross gcds are divided out before multiplying. */
  lemma FastProduct(a: int, b: int, c: int, d: int, a1: int, d1: int, c1: int, b1: int)
    requires Reduced(Fraction(a, b)) && Reduced(Fraction(c, d))
    requires a == Gcd(a, d) * a1 && d == Gcd(a, d) * d1
    requires c == Gcd(c, b) * c1 && b == Gcd(c, b) * b1
    ensures IsReduction(Fraction(a1 * c1, b1 * d1), a * c, b * d)
  {
    CrossCoprime(a, b, c, d, a1, d1, c1, b1);
    PositiveCofactor(Gcd(a, d), d1);
    PositiveCofactor(Gcd(c, b), b1);
    NaturalProduct(b1, d1);
    NonZeroProduct(b1, d1);
    CrossCancelled(Gcd(a, d), Gcd(c, b), a1, d1, c1, b1);
  }

  lemma CrossCoprime(a: int, b: int, c: int, d: int, a1: int, d1: int, c1: int, b1: int)
    requires Coprime(a, b) && Coprime(c, d) && b != 0 && d != 0
    requires a == Gcd(a, d) * a1 && d == Gcd(a, d) * d1
    requires c == Gcd(c, b) * c1 && b == Gcd(c, b) * b1
    ensures Coprime(a1 * c1, b1 * d1)
  {
    CofactorsCoprime(a, d, a1, d1);
    CofactorsCoprime(c, b, c1, b1);
    DividesBy(a1, Gcd(a, d), a);
    DividesBy(d1, Gcd(a, d), d);
    DividesBy(c1, Gcd(c, b), c);
    DividesBy(b1, Gcd(c, b), b);
    CoprimeDivisors(a1, a, b1, b);
    CoprimeDivisors(c1, c, d1, d);
    FourCoprime(a1, c1, b1, d1);
  }

  lemma CofactorsCoprime(a: int, b: int, a1: int, b1: int)
    requires b != 0 && a == Gcd(a, b) * a1 && b == Gcd(a, b) * b1
    ensures Coprime(a1, b1)
  {
    var k, l := GcdCofactors(a, b);
    Cancel(Gcd(a, b), k, a1);
    Cancel(Gcd(a, b), l, b1);
  }

  lemma FourCoprime(a: int, c: int, b: int, d: int)
    requires Coprime(a, b) && Coprime(a, d) && Coprime(c, b) && Coprime(c, d)
    ensures Coprime(a * c, b * d)
  {
    CoprimeProduct(a, b, d);
    CoprimeProduct(c, b, d);
    CoprimeSymmetric(a, b * d);
    CoprimeSymmetric(c, b * d);
    CoprimeProduct(b * d, a, c);
    CoprimeSymmetric(b * d, a * c);
  }

  lemma CrossCancelled(g: int, h: int, a1: int, d1: int, c1: int, b1: int)
    ensures (a1 * c1) * ((h * b1) * (g * d1)) == ((g * a1) * (h * c1)) * (b1 * d1)
  {
    assert (h * b1) * (g * d1) == (g * h) * (b1 * d1);
    assert (g * a1) * (h * c1) == (g * h) * (a1 * c1);
    assert (a1 * c1) * ((g * h) * (b1 * d1)) == ((g * h) * (a1 * c1)) * (b1 * d1);
  }

  /** operator/=: the same with the divisor turned over, and a sign to repair. */
  lemma FastQuotient(a: int, b: int, c: int, d: int, a1: int, c1: int, d1: int, b1: int)
    requires Reduced(Fraction(a, b)) && Reduced(Fraction(c, d)) && c != 0
    requires a == Gcd(a, c) * a1 && c == Gcd(a, c) * c1
    requires d == Gcd(d, b) * d1 && b == Gcd(d, b) * b1
    ensures b1 * c1 != 0
    ensures IsReduction(
              if b1 * c1 < 0 then Fraction(-(a1 * d1), -(b1 * c1)) else Fraction(a1 * d1, b1 * c1),
              a * d, b * c)
  {
    CoprimeSymmetric(c, d);
    CrossCoprime(a, b, d, c, a1, c1, d1, b1);
    PositiveCofactor(Gcd(d, b), b1);
    NonZeroProduct(b1, c1);
    CrossCancelled(Gcd(a, c), Gcd(d, b), a1, c1, d1, b1);
    RepairSign(a1 * d1, b1 * c1, a * d, b * c);
  }

  lemma RepairSign(n: int, d: int, n': int, d': int)
    requires d != 0 && Coprime(n, d) && n * d' == n' * d
    ensures IsReduction(if d < 0 then Fraction(-n, -d) else Fraction(n, d), n', d')
  {
    CoprimeNegate(n, d);
    CoprimeNegate(-n, d);
    NegateFactor(n, d');
    NegateFactor(n', d);
  }
}
