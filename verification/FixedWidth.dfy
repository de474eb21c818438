/** The constructor of boost::rational over a two's-complement integer type, whose
    smallest value has no negative: exactly when normalisation is right there. */
module FixedWidth {
  import opened Arithmetic
  import opened NumberTheory
  import opened CommonFactor
  import opened Fractions
  import opened FastForms

  function Smallest(max: nat): int {
    0 - max - 1
  }

  /** Whether x is a value of the type with largest value max. */
  predicate Fits(x: int, max: nat) {
    Smallest(max) <= x <= max
  }

  /** Unary minus: the smallest value stays what it is. */
  function Negate(x: int, max: nat): int {
    if x == Smallest(max) then x else -x
  }

  /** The gcd is computed without a sign and then cast; max + 1 becomes the smallest value. */
  function Cast(g: nat, max: nat): int
    requires g <= max + 1
  {
    if g == max + 1 then Smallest(max) else g
  }

  datatype Normalized = Done(q: Fraction) | ZeroDenominator | SingularDenominator

  /** What comes of the exact reduced form: an exception for a denominator that does not
      fit, and the wrong sign for a numerator that does not. */
  function FromExact(exact: Fraction, max: nat): Normalized {
    if exact.den == max + 1 then SingularDenominator
    else if exact.num == max + 1 then Done(Fraction(Smallest(max), exact.den))
    else Done(exact)
  }

  /** normalize() on the fields n and d. */
  method Normalize(n: int, d: int, max: nat) returns (out: Normalized)
    requires max > 0 && Fits(n, max) && Fits(d, max)
    ensures out == ZeroDenominator <==> d == 0
    ensures d != 0 ==> out == FromExact(Reduce(n, d), max)
    ensures out == SingularDenominator <==> Coprime(n, d) && d == Smallest(max)
    ensures d != 0 ==>
              (out == Done(Reduce(n, d)) <==> !(Coprime(n, d) && (d == Smallest(max) || (n == Smallest(max) && d < 0))))
  {
    if d != 0 {
      WrongExactlyIf(n, d, max);
    }
    if d == 0 {
      return ZeroDenominator;
    }
    if n == 0 {
      WholeReduced(0);
      ReduceUnique(Whole(0), n, d);
      return Done(Fraction(0, 1));
    }
    GcdPositive(n, d);
    DivGcd(n, d);
    var gcd := GcdInteger(n, d);
    GcdFits(n, d, max, gcd);
    ghost var k, l := TruncDiv(n, gcd), TruncDiv(d, gcd);
    DivideByGcd(n, d, k, l);
    ReduceUnique(if l < 0 then Fraction(-k, -l) else Fraction(k, l), n, d);
    QuotientsFit(n, d, max, gcd);
    var g := Cast(gcd, max);
    var num, den := TruncDiv(n, g), TruncDiv(d, g);
    if gcd == max + 1 {
      SmallestByItself(n, d, max, k, l);
    }
    if den < 0 {
      num := Negate(num, max);
      den := Negate(den, max);
    }
    if den < 0 {
      return SingularDenominator;
    }
    out := Done(Fraction(num, den));
  }

  /** Exactly which pairs go wrong: of a pair without a common factor, the smallest value
      as denominator throws, and as numerator over a negative denominator it keeps its
      sign. */
  lemma WrongExactlyIf(n: int, d: int, max: nat)
    requires max > 0 && Fits(n, max) && Fits(d, max) && d != 0
    ensures var out, exact := FromExact(Reduce(n, d), max), Done(Reduce(n, d));
            && (out == SingularDenominator <==> Coprime(n, d) && d == Smallest(max))
            && (out.Done? && out != exact <==> Coprime(n, d) && n == Smallest(max) && d < 0)
            && (out.Done? && out != exact ==> out == Done(Fraction(-Reduce(n, d).num, Reduce(n, d).den)))
            && (out == exact <==> !(Coprime(n, d) && (d == Smallest(max) || (n == Smallest(max) && d < 0))))
  {
    var gcd := Gcd(n, d);
    GcdPositive(n, d);
    DivGcd(n, d);
    var k, l := TruncDiv(n, gcd), TruncDiv(d, gcd);
    DivideByGcd(n, d, k, l);
    ReduceUnique(if l < 0 then Fraction(-k, -l) else Fraction(k, l), n, d);
    QuotientsFit(n, d, max, gcd);
    SmallestCofactor(gcd, k, max);
    SmallestCofactor(gcd, l, max);
    MultipleIsLarge(gcd, l);
    NotCoprimeToItself(n);
  }

  lemma NotCoprimeToItself(n: int)
    ensures Coprime(n, n) ==> n == 1 || n == -1
  {
    if Coprime(n, n) {
      GcdIsGcd(n, n);
      DividesSelf(n);
      UnitProduct(n, Cofactor(n, 1));
    }
  }

  /** The smallest value is no proper multiple's cofactor. */
  lemma SmallestCofactor(g: int, k: int, max: nat)
    requires g > 0 && Fits(g * k, max)
    ensures k == Smallest(max) ==> g == 1
  {
    NegateFactor(g, max + 1);
    Distribute(max + 1, g - 1, 1);
    MultipleIsLarge(max + 1, g - 1);
  }

  lemma GcdFits(n: int, d: int, max: nat, gcd: nat)
    requires gcd == Gcd(n, d) > 0 && d != 0 && Fits(n, max) && Fits(d, max)
    ensures gcd <= max + 1
  {
    GcdIsGcd(n, d);
    var k := Cofactor(gcd, d);
    CofactorFits(gcd, k, max, d);
  }

  lemma CofactorFits(g: int, k: int, max: nat, a: int)
    requires g > 0 && a == g * k && Fits(a, max)
    ensures Fits(k, max)
    ensures k != 0 ==> g <= max + 1
    ensures g == max + 1 ==> k == 0 || k == -1
  {
    MultipleIsLarge(g, k);
    MultipleIsLarge(g, -k);
    MultipleIsLarge(g, k + 1);
    MultipleIsLarge(g, -k - 1);
    NegateFactor(g, k);
    Distribute(g, k, 1);
    if k > 0 {
      Distribute(k, g - 1, 1);
      NaturalProduct(k, g - 1);
    } else if k < 0 {
      Distribute(-k, g - 1, 1);
      NaturalProduct(-k, g - 1);
      NegateFactor(k, g);
    }
  }

  lemma QuotientsFit(n: int, d: int, max: nat, gcd: nat)
    requires gcd == Gcd(n, d) > 0 && Fits(n, max) && Fits(d, max)
    ensures Fits(TruncDiv(n, gcd), max) && Fits(TruncDiv(d, gcd), max)
  {
    DivGcd(n, d);
    CofactorFits(gcd, TruncDiv(n, gcd), max, n);
    CofactorFits(gcd, TruncDiv(d, gcd), max, d);
  }

  /** Only the smallest value has the gcd max + 1 with a non-zero number. */
  lemma SmallestByItself(n: int, d: int, max: nat, k: int, l: int)
    requires n != 0 && d != 0 && Fits(n, max) && Fits(d, max)
    requires n == (max + 1) * k && d == (max + 1) * l
    ensures n == d == Smallest(max) && k == l == -1
    ensures TruncDiv(n, Smallest(max)) == 1 && TruncDiv(d, Smallest(max)) == 1
  {
    CofactorFits(max + 1, k, max, n);
    CofactorFits(max + 1, l, max, d);
    TruncDivExact(n, Smallest(max), 1);
  }

  /** The smallest value over -1 becomes the smallest value over 1, without an exception. */
  lemma SmallestOverMinusOne(max: nat)
    requires max > 0
    ensures FromExact(Reduce(Smallest(max), -1), max) == Done(Fraction(Smallest(max), 1))
    ensures Reduce(Smallest(max), -1) == Whole(max + 1)
  {
    WholeReduced(max + 1);
    ReduceUnique(Whole(max + 1), Smallest(max), -1);
  }
}
