/** Divisibility, greatest common divisors and least common multiples on signed
    integers, and the truncating division of C++.  Everything the fraction
    arithmetic relies on is derived here from Euclid's algorithm. */
module NumberTheory {
  import opened Arithmetic

  // ----- C++ division ---------------------------------------------------------

  /** C++ `/`: the quotient rounded toward zero. */
  function TruncDiv(a: int, b: int): int
    requires b != 0
  {
    if a >= 0 then a / b else -((-a) / b)
  }

  /** C++ `%`: the remainder has the sign of the dividend. */
  function TruncMod(a: int, b: int): int
    requires b != 0
  {
    if a >= 0 then a % b else -((-a) % b)
  }

  lemma TruncDivMod(a: int, b: int)
    requires b != 0
    ensures a == b * TruncDiv(a, b) + TruncMod(a, b)
    ensures Abs(TruncMod(a, b)) < Abs(b)
    ensures a >= 0 ==> TruncMod(a, b) >= 0
    ensures a <= 0 ==> TruncMod(a, b) <= 0
    ensures b > 0 ==> (a >= 0 ==> TruncDiv(a, b) >= 0) && (a <= 0 ==> TruncDiv(a, b) <= 0)
  {
    var q, r := TruncDiv(a, b), TruncMod(a, b);
    if a >= 0 {
      EuclideanDivMod(a, b, q, r);
    } else {
      EuclideanDivMod(-a, b, -q, -r);
      NegateFactor(b, q);
    }
  }

  lemma EuclideanDivMod(a: int, b: int, q: int, r: int)
    requires b != 0 && a >= 0 && q == a / b && r == a % b
    ensures a == b * q + r && 0 <= r < Abs(b)
    ensures b > 0 ==> q >= 0
  {}

  /** When the division leaves nothing over, truncation does not round. */
  lemma TruncDivExact(a: int, b: int, k: int)
    requires b != 0 && a == b * k
    ensures TruncDiv(a, b) == k
  {
    TruncDivMod(a, b);
    ExactQuotient(b, k, TruncDiv(a, b), TruncMod(a, b));
  }

  function Abs(x: int): (r: nat)
    ensures r == x || r == -x
  {
    if x < 0 then -x else x
  }

  // ----- divisibility ---------------------------------------------------------

  ghost predicate IsProduct(d: int, k: int, a: int) {
    d * k == a
  }

  ghost predicate Divides(d: int, a: int) {
    exists k: int :: IsProduct(d, k, a)
  }

  lemma DividesBy(d: int, k: int, a: int)
    requires d * k == a
    ensures Divides(d, a)
  {
    assert IsProduct(d, k, a);
  }

  ghost function Cofactor(d: int, a: int): (k: int)
    requires Divides(d, a)
    ensures d * k == a
  {
    var k :| IsProduct(d, k, a);
    k
  }

  lemma DividesTrans(a: int, b: int, c: int)
    requires Divides(a, b) && Divides(b, c)
    ensures Divides(a, c)
  {
    var k, l := Cofactor(a, b), Cofactor(b, c);
    Assoc(a, k, l);
    DividesBy(a, k * l, c);
  }

  /** A divisor of two numbers divides every integer combination of them. */
  lemma DividesCombination(d: int, a: int, x: int, b: int, y: int)
    requires Divides(d, a) && Divides(d, b)
    ensures Divides(d, a * x + b * y)
  {
    var k, l := Cofactor(d, a), Cofactor(d, b);
    FactorOut(d, k, x, l, y);
    DividesBy(d, k * x + l * y, a * x + b * y);
  }

  lemma DividesMultiple(d: int, a: int, x: int)
    requires Divides(d, a)
    ensures Divides(d, a * x) && Divides(d, x * a)
  {
    DividesBy(a, x, a * x);
    DividesTrans(d, a, a * x);
  }

  lemma DividesSelf(a: int)
    ensures Divides(a, a) && Divides(1, a) && Divides(-1, a) && Divides(a, 0) && Divides(a, -a)
  {
    DividesBy(a, 1, a);
    DividesBy(1, a, a);
    DividesBy(-1, -a, a);
    DividesBy(a, 0, 0);
    DividesBy(a, -1, -a);
  }

  /** Numbers that divide each other differ at most in sign. */
  lemma DividesAntisymmetric(a: int, b: int)
    requires Divides(a, b) && Divides(b, a)
    ensures Abs(a) == Abs(b)
  {
    var k, l := Cofactor(a, b), Cofactor(b, a);
    Assoc(a, k, l);
    if a != 0 {
      Cancel(a, k * l, 1);
      UnitProduct(k, l);
    }
  }

  // ----- greatest common divisor ----------------------------------------------

  /** What a greatest common divisor is: non-negative, a common divisor, and a
      multiple of every other common divisor. */
  ghost predicate IsGcd(g: int, a: int, b: int) {
    && g >= 0
    && Divides(g, a) && Divides(g, b)
    && forall d :: Divides(d, a) && Divides(d, b) ==> Divides(d, g)
  }

  /** Euclid's algorithm, with the remainder of Dafny's own division. */
  function Euclid(a: int, b: int): (g: nat)
    decreases Abs(b)
  {
    if b == 0 then Abs(a) else Euclid(b, a % b)
  }

  lemma {:induction false} EuclidIsGcd(a: int, b: int)
    ensures IsGcd(Euclid(a, b), a, b)
    decreases Abs(b)
  {
    if b == 0 {
      DividesSelf(a);
      DividesSelf(Abs(a));
      forall d | Divides(d, a) && Divides(d, b) ensures Divides(d, Abs(a)) {
        DividesMultiple(d, a, -1);
      }
    } else {
      EuclidIsGcd(b, a % b);
      SameCommonDivisors(b, a % b, a, a / b);
    }
  }

  /** The gcd, by its defining property. */
  ghost function Gcd(a: int, b: int): (g: nat) {
    EuclidIsGcd(a, b);
    var g: nat :| IsGcd(g, a, b);
    g
  }

  lemma GcdIsGcd(a: int, b: int)
    ensures IsGcd(Gcd(a, b), a, b)
  {
    EuclidIsGcd(a, b);
  }

  /** Adding a multiple of b to c does not change the common divisors with b. */
  lemma SameCommonDivisors(b: int, c: int, a: int, q: int)
    requires a == b * q + c
    ensures forall d :: Divides(d, a) && Divides(d, b) <==> Divides(d, b) && Divides(d, c)
  {
    forall d
      ensures Divides(d, a) && Divides(d, b) <==> Divides(d, b) && Divides(d, c)
    {
      if Divides(d, b) && Divides(d, c) {
        DividesCombination(d, b, q, c, 1);
      }
      if Divides(d, a) && Divides(d, b) {
        DividesCombination(d, a, 1, b, -q);
        assert a * 1 + b * -q == c;
      }
    }
  }

  lemma GcdUnique(g: int, h: int, a: int, b: int)
    requires IsGcd(g, a, b) && IsGcd(h, a, b)
    ensures g == h
  {
    DividesAntisymmetric(g, h);
  }

  lemma GcdSymmetric(a: int, b: int)
    ensures Gcd(a, b) == Gcd(b, a)
  {
    GcdIsGcd(a, b);
    GcdIsGcd(b, a);
    GcdUnique(Gcd(a, b), Gcd(b, a), a, b);
  }

  lemma GcdPositive(a: int, b: int)
    ensures Gcd(a, b) == 0 <==> a == 0 && b == 0
  {
    GcdIsGcd(a, b);
    GcdZero(0);
    if Gcd(a, b) == 0 {
      var k, l := Cofactor(0, a), Cofactor(0, b);
    }
  }

  /** Signs do not matter, and neither does a multiple of the other argument. */
  lemma GcdSameDivisors(a: int, b: int, a': int, b': int)
    requires forall d :: Divides(d, a) && Divides(d, b) <==> Divides(d, a') && Divides(d, b')
    ensures Gcd(a, b) == Gcd(a', b')
  {
    GcdIsGcd(a, b);
    GcdIsGcd(a', b');
    GcdUnique(Gcd(a, b), Gcd(a', b'), a, b);
  }

  /** The step of every Euclidean loop, with either remainder. */
  lemma GcdStep(a: int, b: int, q: int)
    ensures Gcd(b, a - b * q) == Gcd(a, b)
  {
    SameCommonDivisors(b, a - b * q, a, q);
    GcdSameDivisors(b, a - b * q, a, b);
  }

  lemma GcdScale(k: nat, a: int, b: int)
    ensures Gcd(k * a, k * b) == k * Gcd(a, b)
  {
    var g := Gcd(a, b);
    GcdIsGcd(a, b);
    var m, n := Cofactor(g, a), Cofactor(g, b);
    Assoc(k, g, m);
    Assoc(k, g, n);
    DividesBy(k * g, m, k * a);
    DividesBy(k * g, n, k * b);
    var x, y := Bezout(a, b);
    ScaleBezout(k, a, x, b, y, g);
    forall d | Divides(d, k * a) && Divides(d, k * b) ensures Divides(d, k * g) {
      DividesCombination(d, k * a, x, k * b, y);
    }
    NaturalProduct(k, g);
    GcdIsGcd(k * a, k * b);
    GcdUnique(Gcd(k * a, k * b), k * g, k * a, k * b);
  }

  lemma GcdNegate(a: int, b: int)
    ensures Gcd(-a, b) == Gcd(a, b) == Gcd(a, -b)
  {
    forall d ensures Divides(d, a) <==> Divides(d, -a) {
      if Divides(d, a) { DividesMultiple(d, a, -1); }
      if Divides(d, -a) { DividesMultiple(d, -a, -1); }
    }
    forall d ensures Divides(d, b) <==> Divides(d, -b) {
      if Divides(d, b) { DividesMultiple(d, b, -1); }
      if Divides(d, -b) { DividesMultiple(d, -b, -1); }
    }
    GcdSameDivisors(-a, b, a, b);
    GcdSameDivisors(a, -b, a, b);
  }

  lemma GcdByDefinition(g: int, a: int, b: int)
    requires IsGcd(g, a, b)
    ensures Gcd(a, b) == g
  {
    GcdIsGcd(a, b);
    GcdUnique(Gcd(a, b), g, a, b);
  }

  lemma GcdZero(a: int)
    ensures Gcd(a, 0) == Abs(a) == Gcd(0, a)
  {
    assert Euclid(a, 0) == Abs(a);
    EuclidIsGcd(a, 0);
    GcdByDefinition(Abs(a), a, 0);
    GcdSymmetric(a, 0);
  }

  /** The gcd is an integer combination of its arguments. */
  lemma {:induction false} Bezout(a: int, b: int) returns (x: int, y: int)
    ensures a * x + b * y == Gcd(a, b)
    decreases Abs(b)
  {
    if b == 0 {
      x, y := if a < 0 then -1 else 1, 0;
      GcdZero(a);
    } else {
      var x', y' := Bezout(b, a % b);
      x, y := y', x' - (a / b) * y';
      SameCommonDivisors(b, a % b, a, a / b);
      GcdSameDivisors(a, b, b, a % b);
      BackSubstitute(a, b, a / b, a % b, x', y', Gcd(a, b));
    }
  }

  // ----- coprime numbers -------------------------------------------------------

  ghost predicate Coprime(a: int, b: int) {
    Gcd(a, b) == 1
  }

  lemma CoprimeBy(a: int, x: int, b: int, y: int)
    requires a * x + b * y == 1
    ensures Coprime(a, b)
  {
    GcdIsGcd(a, b);
    DividesCombination(Gcd(a, b), a, x, b, y);
    DividesSelf(1);
    DividesSelf(Gcd(a, b));
    DividesAntisymmetric(Gcd(a, b), 1);
  }

  /** Gauss: what divides a product and is coprime to one factor divides the other. */
  lemma Gauss(a: int, b: int, c: int)
    requires Coprime(a, b) && Divides(a, b * c)
    ensures Divides(a, c)
  {
    var x, y := Bezout(a, b);
    DividesSelf(a);
    DividesCombination(a, a, x * c, b * c, y);
    ScaleCombination(a, x, b, y, c);
  }

  lemma CoprimeProduct(a: int, b: int, c: int)
    requires Coprime(a, b) && Coprime(a, c)
    ensures Coprime(a, b * c)
  {
    var x, y := Bezout(a, b);
    var u, v := Bezout(a, c);
    CombinationProduct(a, x, b, y, u, c, v);
    CoprimeBy(a, x + (b * y) * u, b * c, y * v);
  }

  lemma CoprimeSymmetric(a: int, b: int)
    ensures Coprime(a, b) <==> Coprime(b, a)
  {
    GcdSymmetric(a, b);
  }

  lemma CoprimeDivisor(d: int, a: int, b: int)
    requires Coprime(a, b) && Divides(d, a)
    ensures Coprime(d, b)
  {
    var x, y := Bezout(a, b);
    var k := Cofactor(d, a);
    Assoc(d, k, x);
    CoprimeBy(d, k * x, b, y);
  }

  lemma CoprimeDivisors(d: int, a: int, e: int, b: int)
    requires Coprime(a, b) && Divides(d, a) && Divides(e, b)
    ensures Coprime(d, e)
  {
    CoprimeDivisor(d, a, b);
    CoprimeSymmetric(d, b);
    CoprimeDivisor(e, b, d);
    CoprimeSymmetric(e, d);
  }

  /** Adding a multiple of b keeps a coprime to b. */
  lemma CoprimeShift(a: int, b: int, k: int)
    requires Coprime(a, b)
    ensures Coprime(a + b * k, b)
  {
    var x, y := Bezout(a, b);
    ShiftCombination(a, b, k, x, y);
    CoprimeBy(a + b * k, x, b, y - k * x);
  }

  lemma CoprimeNegate(a: int, b: int)
    ensures Coprime(-a, b) <==> Coprime(a, b)
    ensures Coprime(a, -b) <==> Coprime(a, b)
  {
    GcdNegate(a, b);
  }

  /** Dividing two numbers by their gcd leaves coprime cofactors. */
  lemma GcdCofactors(a: int, b: int) returns (k: int, l: int)
    requires a != 0 || b != 0
    ensures Gcd(a, b) > 0
    ensures a == Gcd(a, b) * k && b == Gcd(a, b) * l && Coprime(k, l)
  {
    var g := Gcd(a, b);
    GcdPositive(a, b);
    GcdIsGcd(a, b);
    k, l := Cofactor(g, a), Cofactor(g, b);
    var x, y := Bezout(a, b);
    FactorOut(g, k, x, l, y);
    Cancel(g, k * x + l * y, 1);
    CoprimeBy(k, x, l, y);
  }

  // ----- least common multiple --------------------------------------------------

  ghost predicate IsLcm(m: int, a: int, b: int) {
    && m >= 0
    && Divides(a, m) && Divides(b, m)
    && forall c :: Divides(a, c) && Divides(b, c) ==> Divides(m, c)
  }

  /** The non-negative lcm; zero if either argument is. */
  ghost function Lcm(a: int, b: int): (m: nat) {
    if Gcd(a, b) == 0 then 0 else Abs(TruncDiv(a, Gcd(a, b)) * b)
  }

  /** g k and g l have the common multiple g k l. */
  lemma LcmOfCofactors(g: int, k: int, l: int)
    ensures k * (g * l) == (g * k) * l
    ensures Divides(g * k, k * (g * l)) && Divides(g * l, k * (g * l))
  {
    Assoc(g, k, l);
    Assoc(k, g, l);
    DividesBy(g * k, l, k * (g * l));
    DividesBy(g * l, k, k * (g * l));
  }

  /** ... and for coprime k and l it divides every other one. */
  lemma CommonMultiple(g: int, k: int, l: int, c: int)
    requires g != 0 && Coprime(k, l)
    requires Divides(g * k, c) && Divides(g * l, c)
    ensures Divides(k * (g * l), c)
  {
    var s, t := Cofactor(g * k, c), Cofactor(g * l, c);
    Assoc(g, k, s);
    Assoc(g, l, t);
    Cancel(g, k * s, l * t);
    DividesBy(k, s, l * t);
    Gauss(k, l, t);
    var u := Cofactor(k, t);
    Assoc(g * l, k, u);
    DividesBy(k * (g * l), u, c);
  }

  lemma LcmIsLcm(a: int, b: int)
    ensures IsLcm(Lcm(a, b), a, b)
  {
    GcdPositive(a, b);
    if a == 0 && b == 0 {
      DividesSelf(0);
    } else {
      var g := Gcd(a, b);
      var k, l := GcdCofactors(a, b);
      TruncDivExact(a, g, k);
      LcmOfCofactors(g, k, l);
      forall c | Divides(a, c) && Divides(b, c) ensures Divides(k * b, c) {
        CommonMultiple(g, k, l, c);
      }
      AbsIsLcm(k * b, a, b);
    }
  }

  lemma AbsIsLcm(m: int, a: int, b: int)
    requires Divides(a, m) && Divides(b, m)
    requires forall c :: Divides(a, c) && Divides(b, c) ==> Divides(m, c)
    ensures IsLcm(Abs(m), a, b)
  {
    DividesMultiple(a, m, -1);
    DividesMultiple(b, m, -1);
    DividesSelf(m);
    DividesSelf(-m);
    forall c | Divides(a, c) && Divides(b, c) ensures Divides(Abs(m), c) {
      DividesTrans(-m, m, c);
    }
  }
}
