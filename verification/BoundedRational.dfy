/** boost::rational over a 32-bit integer.  Every operation on a field or a local is one on
    the bounded type, so that each is checked to stay in range; the gcd is the function of
    CommonFactor, whose result is checked the same way. */
module BoundedRational {
  import opened Arithmetic
  import opened NumberTheory
  import opened CommonFactor
  import opened Fractions
  import opened FastForms
  import opened Ranges
  import opened ContinuedFractions

  newtype int32 = x: int | -0x8000_0000 <= x < 0x8000_0000

  predicate Fits(x: int) {
    -0x8000_0000 <= x < 0x8000_0000
  }

  lemma AllFit(xs: seq<int>, bounds: seq<int>)
    requires AllWithin(xs, bounds) && forall b :: b in bounds ==> Fits(b)
    ensures forall x :: x in xs ==> Fits(x)
  {
    WithinFits(xs, bounds, -0x8000_0000, 0x7FFF_FFFF);
  }

  /** C++ `/` and `%` by a positive number. */
  function Quot(a: int32, b: int32): (q: int32)
    requires b > 0
    ensures q as int == TruncDiv(a as int, b as int)
  {
    FirstTermFits(a as int, b as int);
    TruncDiv(a as int, b as int) as int32
  }

  function Rem(a: int32, b: int32): (r: int32)
    requires b > 0
    ensures r as int == TruncMod(a as int, b as int)
  {
    FirstTermFits(a as int, b as int);
    TruncMod(a as int, b as int) as int32
  }

  /** The gcd with a positive number. */
  method GcdWith(a: int32, b: int32) returns (g: int32)
    requires b > 0
    ensures g as int == Gcd(a as int, b as int) > 0
  {
    GcdPositive(a as int, b as int);
    GcdWithin(a as int, b as int, [0, b as int]);
    AllFit([Gcd(a as int, b as int)], [0, b as int]);
    var gcd := GcdInteger(a as int, b as int);
    g := gcd as int32;
  }

  /** One term of an expansion, in the bounded type. */
  datatype Term = Term(n: int32, d: int32, q: int32, r: int32) {
    function Exact(): Expansion {
      Expansion(n as int, d as int, q as int, r as int)
    }
  }

  method FirstTermOf(n: int32, d: int32) returns (t: Term)
    requires d > 0
    ensures t.Exact().Proper() && t.n == n && t.d == d
  {
    FirstTermFits(n as int, d as int);
    t := Term(n, d, Quot(n, d), Rem(n, d));
    while t.r < 0
      invariant t.n == n && t.d == d
      invariant n as int == d as int * t.q as int + t.r as int && -(d as int) < t.r as int < d as int
      invariant if n < 0 then n <= t.q <= 0 && (t.r < 0 ==> n < t.q) else 0 <= t.r
      decreases -(t.r as int)
    {
      Distribute(d as int, t.q as int, -1);
      t := t.(r := t.r + t.d, q := t.q - 1);
    }
  }

  class Rational32 {
    var num: int32
    var den: int32

    ghost function Value(): Fraction
      reads this
    {
      Fraction(num as int, den as int)
    }

    ghost predicate Valid()
      reads this
    {
      Reduced(Value())
    }

    /** Comparison never overflows, whatever the operands. */
    method LessThan(r: Rational32) returns (less: bool)
      requires den > 0 && r.den > 0
      ensures less <==> Val(Value()) < Val(r.Value())
    {
      var ts := FirstTermOf(num, den);
      var rs := FirstTermOf(r.num, r.den);
      var reverse := false;
      LessIsRealOrder(Value(), r.Value());
      while true
        invariant ts.Exact().Proper() && rs.Exact().Proper()
        invariant Less(Value(), r.Value()) <==>
                    if reverse then rs.Exact().Below(ts.Exact()) else ts.Exact().Below(rs.Exact())
        decreases ts.d as int
      {
        QuotientsDecide(ts.Exact(), rs.Exact());
        QuotientsDecide(rs.Exact(), ts.Exact());
        if ts.q != rs.q {
          return if reverse then ts.q > rs.q else ts.q < rs.q;
        }
        reverse := !reverse;
        if ts.r == 0 || rs.r == 0 {
          break;
        }
        ReciprocalsReverse(ts.Exact(), rs.Exact());
        NextProper(ts.Exact());
        NextProper(rs.Exact());
        ts := Term(ts.d, ts.r, Quot(ts.d, ts.r), Rem(ts.d, ts.r));
        rs := Term(rs.d, rs.r, Quot(rs.d, rs.r), Rem(rs.d, rs.r));
      }
      RemaindersDecide(ts.Exact(), rs.Exact());
      if ts.r == rs.r {
        less := false;
      } else {
        less := (ts.r != 0) != reverse;
      }
    }

    /** Multiplication does not overflow if the reduced product fits. */
    method MulAssign(r: Rational32)
      requires Valid() && r.Valid()
      requires Fits(Product(Value(), r.Value()).num) && Fits(Product(Value(), r.Value()).den)
      modifies this
      ensures Valid() && Value() == Product(old(Value()), old(r.Value()))
    {
      var rNum, rDen := r.num, r.den;
      ghost var a, b, c, d := num as int, den as int, rNum as int, rDen as int;
      var gcd1 := GcdWith(num, rDen);
      var gcd2 := GcdWith(rNum, den);
      DivGcd(a, d);
      DivGcd(c, b);
      ghost var a1, d1 := TruncDiv(a, gcd1 as int), TruncDiv(d, gcd1 as int);
      ghost var c1, b1 := TruncDiv(c, gcd2 as int), TruncDiv(b, gcd2 as int);
      FastProduct(a, b, c, d, a1, d1, c1, b1);
      NonZeroProduct(b, d);
      ReduceUnique(Fraction(a1 * c1, b1 * d1), a * c, b * d);
      num := Quot(num, gcd1) * Quot(rNum, gcd2);
      den := Quot(den, gcd2) * Quot(rDen, gcd1);
    }

    /** Addition does not overflow if the reduced sum fits and the two products and their sum
        do. */
    method AddAssign(r: Rational32)
      requires Valid() && r.Valid()
      requires Fits(Sum(Value(), r.Value()).num) && Fits(Sum(Value(), r.Value()).den)
      requires forall x :: x in SumSteps(Value(), r.Value()) ==> Fits(x)
      modifies this
      ensures Valid() && Value() == Sum(old(Value()), old(r.Value()))
    {
      var rNum, rDen := r.num, r.den;
      ghost var a, b, c, d := num as int, den as int, rNum as int, rDen as int;
      ghost var steps := SumSteps(Value(), r.Value());
      assert steps[0] in steps && steps[1] in steps && steps[2] in steps;
      var g := GcdWith(den, rDen);
      DivGcd(b, d);
      den := Quot(den, g);
      num := num * Quot(rDen, g) + rNum * den;
      ghost var b1, d1, t := den as int, TruncDiv(d, g as int), num as int;
      var h := GcdWith(num, g);
      DivGcd(t, g as int);
      GcdIsGcd(t, g as int);
      GcdIsGcd(b, d);
      DivDivisor(h as int, g as int, d);
      num := Quot(num, h);
      FastSum(a, b, c, d, b1, d1, num as int, TruncDiv(d, h as int));
      NonZeroProduct(b, d);
      ReduceUnique(Fraction(num as int, b1 * TruncDiv(d, h as int)), a * d + c * b, b * d);
      den := den * Quot(rDen, h);
    }
  }
}
