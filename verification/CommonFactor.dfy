/** The gcd and lcm algorithms of boost/integer/common_factor_rt.hpp that the
    fraction class calls, each proved to compute the mathematical Gcd or Lcm. */
module CommonFactor {
  import opened Arithmetic
  import opened NumberTheory

  /** Gcd for rings: the truncating Euclidean loop; the sign is left over. */
  method GcdEuclidean(a0: int, b0: int) returns (g: int)
    ensures Abs(g) == Gcd(a0, b0)
  {
    var a, b := a0, b0;
    while true
      invariant Gcd(a, b) == Gcd(a0, b0)
      decreases Abs(a)
    {
      GcdSymmetric(a, b);
      if a == 0 {
        GcdZero(b);
        return b;
      }
      GcdTruncMod(b, a);
      b := TruncMod(b, a);
      if b == 0 {
        GcdZero(a);
        return a;
      }
      GcdTruncMod(a, b);
      GcdSymmetric(a, b);
      GcdSymmetric(TruncMod(a, b), b);
      TruncDivMod(a, b);
      a := TruncMod(a, b);
    }
  }

  lemma GcdTruncMod(a: int, b: int)
    requires b != 0
    ensures Gcd(b, TruncMod(a, b)) == Gcd(a, b)
    ensures Abs(TruncMod(a, b)) < Abs(b)
  {
    TruncDivMod(a, b);
    GcdStep(a, b, TruncDiv(a, b));
  }

  /** Gcd for signed integers. */
  method GcdInteger(a: int, b: int) returns (g: int)
    ensures g == Gcd(a, b)
  {
    g := GcdEuclidean(a, b);
    if g < 0 {
      g := -g;
    }
  }

  /** The quotient may be taken by the gcd or by its negative. */
  lemma LcmFromAssociate(a: int, b: int, t: int)
    requires t != 0 && Abs(t) == Gcd(a, b)
    ensures Abs(TruncDiv(a, t) * b) == Lcm(a, b)
  {
    GcdIsGcd(a, b);
    var k := Cofactor(Abs(t), a);
    TruncDivExact(a, Abs(t), k);
    if t < 0 {
      NegateFactor(-t, k);
      TruncDivExact(a, t, -k);
      NegateFactor(k, b);
    }
  }

  /** Lcm for signed integers. */
  method LcmInteger(a: int, b: int) returns (m: int)
    ensures m == Lcm(a, b)
  {
    var temp := GcdEuclidean(a, b);
    m := if temp != 0 then TruncDiv(a, temp) * b else 0;
    if temp != 0 {
      LcmFromAssociate(a, b, temp);
    }
    if m < 0 {
      m := -m;
    }
  }

  // ----- the binary algorithm used for the built-in integer types ----------------

  function Pow2(n: nat): nat {
    if n == 0 then 1 else 2 * Pow2(n - 1)
  }

  lemma Odd(v: int)
    requires v % 2 == 1
    ensures Coprime(v, 2)
  {
    EuclidIsGcd(v, 2);
    assert Euclid(v, 2) == Euclid(2, 1) == Euclid(1, 0);
    GcdByDefinition(1, v, 2);
  }

  /** Halving an even number does not change its gcd with an odd one. */
  lemma GcdHalve(u: int, v: int)
    requires v % 2 == 1
    ensures Gcd(u, v) == Gcd(2 * u, v)
  {
    forall d ensures Divides(d, u) && Divides(d, v) <==> Divides(d, 2 * u) && Divides(d, v) {
      if Divides(d, u) {
        DividesMultiple(d, u, 2);
      }
      if Divides(d, 2 * u) && Divides(d, v) {
        Odd(v);
        CoprimeDivisor(d, v, 2);
        Gauss(d, 2, u);
      }
    }
    GcdSameDivisors(u, v, 2 * u, v);
  }

  lemma GcdSubtract(a: int, b: int)
    ensures Gcd(a - b, b) == Gcd(a, b)
  {
    GcdStep(a, b, 1);
    GcdSymmetric(b, a - b);
  }

  /** One entry of the pair becomes x; the other, odd one stays. */
  ghost predicate SameGcd(r: seq<nat>, which: nat, x: nat)
    requires |r| == 2 && which < 2
  {
    Gcd(r[which := x][0], r[which := x][1]) == Gcd(r[0], r[1])
  }

  lemma HalveEntry(r: seq<nat>, which: nat)
    requires |r| == 2 && which < 2 && r[1 - which] % 2 == 1 && r[which] % 2 == 0
    ensures SameGcd(r, which, r[which] / 2)
  {
    GcdHalve(r[which] / 2, r[1 - which]);
    GcdSymmetric(r[0], r[1]);
    GcdSymmetric(r[which] / 2, r[1 - which]);
  }

  lemma SubtractEntry(r: seq<nat>, which: nat)
    requires |r| == 2 && which < 2 && r[1 - which] <= r[which]
    ensures SameGcd(r, which, r[which] - r[1 - which])
  {
    GcdSubtract(r[which], r[1 - which]);
    GcdSymmetric(r[0], r[1]);
    GcdSymmetric(r[which] - r[1 - which], r[1 - which]);
  }

  lemma ShiftOut(shifts: nat, u: nat, v: nat)
    ensures Pow2(shifts) * Gcd(2 * u, 2 * v) == Pow2(shifts + 1) * Gcd(u, v)
  {
    GcdScale(2, u, v);
    Assoc(Pow2(shifts), 2, Gcd(u, v));
  }

  method GcdBinary(u0: nat, v0: nat) returns (g: nat)
    ensures g == Gcd(u0, v0)
  {
    if u0 == 0 || v0 == 0 {
      GcdZero(u0 + v0);
      return u0 + v0;
    }
    var u, v, shifts := u0, v0, 0;
    while u % 2 == 0 && v % 2 == 0
      invariant u > 0 && v > 0
      invariant Gcd(u0, v0) == Pow2(shifts) * Gcd(u, v)
      decreases u
    {
      ShiftOut(shifts, u / 2, v / 2);
      shifts, u, v := shifts + 1, u / 2, v / 2;
    }
    g := OddGcd(u, v);
    g := g * Pow2(shifts);
  }

  /** The difference loop of the binary algorithm; one of the numbers is odd. */
  method OddGcd(u: nat, v: nat) returns (g: nat)
    requires u > 0 && v > 0 && (u % 2 == 1 || v % 2 == 1)
    ensures g == Gcd(u, v)
  {
    var r := [u, v];
    var which := if u % 2 == 1 then 1 else 0;
    while true
      invariant |r| == 2 && 0 <= which < 2
      invariant r[1 - which] % 2 == 1 && r[which] > 0
      invariant Gcd(r[0], r[1]) == Gcd(u, v)
      decreases r[0] + r[1]
    {
      ghost var before := r[0] + r[1];
      while r[which] % 2 == 0
        invariant |r| == 2 && r[1 - which] % 2 == 1 && r[which] > 0 && r[0] + r[1] <= before
        invariant Gcd(r[0], r[1]) == Gcd(u, v)
        decreases r[which]
      {
        HalveEntry(r, which);
        r := r[which := r[which] / 2];
      }
      if r[1 - which] > r[which] {
        which := 1 - which;
      }
      SubtractEntry(r, which);
      r := r[which := r[which] - r[1 - which]];
      if r[which] == 0 {
        GcdZero(r[1 - which]);
        return r[1 - which];
      }
    }
  }
}
