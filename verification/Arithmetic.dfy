/** Integer identities, each proved away from any other fact so that the
    solver's non-linear reasoning stays small. */
module Arithmetic {

  lemma Assoc(a: int, b: int, c: int)
    ensures a * (b * c) == (a * b) * c
  {}

  lemma Distribute(a: int, b: int, c: int)
    ensures a * (b + c) == a * b + a * c
    ensures (b + c) * a == b * a + c * a
  {}

  /** One step of back-substitution in the extended Euclidean algorithm. */
  lemma BackSubstitute(a: int, b: int, q: int, r: int, x: int, y: int, g: int)
    requires a == b * q + r && b * x + r * y == g
    ensures a * y + b * (x - q * y) == g
  {}

  lemma ScaleCombination(a: int, x: int, b: int, y: int, c: int)
    requires a * x + b * y == 1
    ensures a * (x * c) + (b * c) * y == c
  {
    Assoc(a, x, c);
    assert (b * c) * y == (b * y) * c;
    Distribute(c, a * x, b * y);
  }

  lemma FactorOut(d: int, k: int, x: int, l: int, y: int)
    ensures d * (k * x + l * y) == (d * k) * x + (d * l) * y
  {}

  lemma ScaleBezout(k: int, a: int, x: int, b: int, y: int, g: int)
    requires a * x + b * y == g
    ensures (k * a) * x + (k * b) * y == k * g
  {
    FactorOut(k, a, x, b, y);
  }

  lemma NaturalProduct(k: nat, l: nat)
    ensures k * l >= 0
  {}

  lemma NonZeroProduct(k: int, l: int)
    requires k != 0 && l != 0
    ensures k * l != 0
  {}

  lemma NegateFactor(k: int, b: int)
    ensures -k * b == -(k * b) && k * -b == -(k * b)
  {}

  lemma ShiftCombination(a: int, b: int, k: int, x: int, y: int)
    ensures (a + b * k) * x + b * (y - k * x) == a * x + b * y
  {}

  lemma CombinationProduct(a: int, x: int, b: int, y: int, u: int, c: int, v: int)
    requires a * x + b * y == 1 && a * u + c * v == 1
    ensures a * (x + (b * y) * u) + (b * c) * (y * v) == 1
  {
    ScaleCombination(c, v, a, u, b * y);
    assert a * ((b * y) * u) == (a * (b * y)) * u;
    assert c * (v * (b * y)) == (b * c) * (y * v);
    Distribute(a, x, (b * y) * u);
  }

  lemma MultipleIsLarge(b: int, k: int)
    requires b > 0
    ensures k >= 1 ==> b * k >= b
    ensures k >= 2 ==> b * k >= 2 * b
    ensures k <= -1 ==> b * k <= -b
    ensures k <= 0 ==> b * k <= 0
  {}

  lemma SmallMultipleIsZero(b: int, k: int)
    requires b > 0 && -b < b * k < b
    ensures k == 0
  {
    MultipleIsLarge(b, k);
  }

  lemma ExactQuotient(b: int, k: int, q: int, r: int)
    requires b != 0 && b * k == b * q + r
    requires -b < r < b || b < r < -b
    ensures k == q && r == 0
  {
    Distribute(b, k, -q);
    if b > 0 { SmallMultipleIsZero(b, k - q); } else { SmallMultipleIsZero(-b, k - q); }
  }

  /** Cancelling a non-zero factor. */
  lemma Cancel(a: int, k: int, l: int)
    requires a != 0 && a * k == a * l
    ensures k == l
  {
    ExactQuotient(a, k, l, 0);
  }

  lemma UnitProduct(k: int, l: int)
    requires k * l == 1
    ensures k == l == 1 || k == l == -1
  {
    if k > 0 { MultipleIsLarge(k, l); } else if k < 0 { MultipleIsLarge(-k, -l); }
  }
}
