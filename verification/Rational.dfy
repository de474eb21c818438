/** The class boost::rational: a mutable fraction kept in reduced form, over an
    integer type without overflow.  A member that throws bad_rational returns
    `thrown == true` and leaves the object as the original does. */
module Rational {
  import opened Arithmetic
  import opened NumberTheory
  import opened CommonFactor
  import opened Fractions
  import opened FastForms
  import opened Ranges
  import opened ContinuedFractions

  class Rational {
    var num: int
    var den: int

    ghost function Value(): Fraction
      reads this
    {
      Fraction(num, den)
    }

    ghost predicate Valid()
      reads this
    {
      Reduced(Value())
    }

    constructor Zero()
      ensures Valid() && Value() == Whole(0)
    {
      num, den := 0, 1;
      WholeReduced(0);
    }

    constructor FromInt(n: int)
      ensures Valid() && Value() == Whole(n)
    {
      num, den := n, 1;
      WholeReduced(n);
    }

    /** The two-argument constructor before it calls Normalize. */
    constructor Unnormalized(n: int, d: int)
      ensures num == n && den == d
    {
      num, den := n, d;
    }

    static method Make(n: int, d: int) returns (thrown: bool, r: Rational)
      ensures fresh(r)
      ensures thrown <==> d == 0
      ensures !thrown ==> r.Valid() && r.Value() == Reduce(n, d)
    {
      r := new Rational.Unnormalized(n, d);
      thrown := r.Normalize();
    }

    method Normalize() returns (thrown: bool)
      modifies this
      ensures thrown <==> old(den) == 0
      ensures thrown ==> Value() == old(Value())
      ensures !thrown ==> Valid() && Value() == Reduce(old(num), old(den))
    {
      if den == 0 {
        return true;
      }
      ghost var n, d := num, den;
      GcdPositive(n, d);
      if num == 0 {
        den := 1;
        WholeReduced(0);
        ReduceUnique(Value(), n, d);
        return false;
      }
      var g := GcdInteger(num, den);
      num := TruncDiv(num, g);
      den := TruncDiv(den, g);
      DivGcd(n, d);
      DivideByGcd(n, d, num, den);
      if den < 0 {
        num := -num;
        den := -den;
      }
      assert den > 0;
      ReduceUnique(Value(), n, d);
      return false;
    }

    method Assign(n: int, d: int) returns (thrown: bool)
      modifies this
      ensures thrown <==> d == 0
      ensures thrown ==> Value() == old(Value())
      ensures !thrown ==> Valid() && Value() == Reduce(n, d)
    {
      var r: Rational;
      thrown, r := Make(n, d);
      if !thrown {
        num, den := r.num, r.den;
      }
    }

    // ----- arithmetic with another fraction ------------------------------------------

    /** `seen` and `steps` list every value the operator computes on the way. */
    method AddAssign(r: Rational) returns (ghost seen: seq<int>, ghost steps: seq<int>)
      requires Valid() && r.Valid()
      modifies this
      ensures Valid() && Value() == Sum(old(Value()), old(r.Value()))
      ensures AllWithin(seen, [0, old(num), old(den), old(r.num), old(r.den), num, den])
      ensures steps == SumSteps(old(Value()), old(r.Value()))
    {
      var rNum, rDen := r.num, r.den;
      ghost var a, b := num, den;
      GcdPositive(den, rDen);
      DivGcd(den, rDen);
      var g := GcdInteger(den, rDen);
      den := TruncDiv(den, g);
      steps := [num * TruncDiv(rDen, g), rNum * den, num * TruncDiv(rDen, g) + rNum * den];
      num := num * TruncDiv(rDen, g) + rNum * den;
      ghost var t, g0 := num, g;
      GcdPositive(num, g);
      DivGcd(num, g);
      GcdIsGcd(num, g);
      GcdIsGcd(b, rDen);
      DivDivisor(Gcd(num, g), g, rDen);
      g := GcdInteger(num, g);
      num := TruncDiv(num, g);
      den := den * TruncDiv(rDen, g);
      FastSum(a, b, rNum, rDen, TruncDiv(b, g0), TruncDiv(rDen, g0), num, TruncDiv(rDen, g));
      NonZeroProduct(b, rDen);
      ReduceUnique(Value(), a * rDen + rNum * b, b * rDen);
      seen := [g0, TruncDiv(b, g0), TruncDiv(rDen, g0), g, num, TruncDiv(rDen, g), den];
      SumFits(a, b, rNum, rDen, TruncDiv(b, g0), TruncDiv(rDen, g0), g, TruncDiv(rDen, g), num, den);
    }

    method SubAssign(r: Rational) returns (ghost seen: seq<int>, ghost steps: seq<int>)
      requires Valid() && r.Valid()
      modifies this
      ensures Valid() && Value() == Difference(old(Value()), old(r.Value()))
      ensures AllWithin(seen, [0, old(num), old(den), old(r.num), old(r.den), num, den])
      ensures steps == DifferenceSteps(old(Value()), old(r.Value()))
    {
      var rNum, rDen := r.num, r.den;
      ghost var a, b := num, den;
      GcdPositive(den, rDen);
      DivGcd(den, rDen);
      var g := GcdInteger(den, rDen);
      den := TruncDiv(den, g);
      NegateFactor(rNum, den);
      steps := [num * TruncDiv(rDen, g), rNum * den, num * TruncDiv(rDen, g) - rNum * den];
      num := num * TruncDiv(rDen, g) - rNum * den;
      ghost var t, g0 := num, g;
      GcdPositive(num, g);
      DivGcd(num, g);
      GcdIsGcd(num, g);
      GcdIsGcd(b, rDen);
      DivDivisor(Gcd(num, g), g, rDen);
      g := GcdInteger(num, g);
      num := TruncDiv(num, g);
      den := den * TruncDiv(rDen, g);
      CoprimeNegate(rNum, rDen);
      FastSum(a, b, -rNum, rDen, TruncDiv(b, g0), TruncDiv(rDen, g0), num, TruncDiv(rDen, g));
      NonZeroProduct(b, rDen);
      NegateFactor(rNum, b);
      ReduceUnique(Value(), a * rDen - rNum * b, b * rDen);
      seen := [g0, TruncDiv(b, g0), TruncDiv(rDen, g0), g, num, TruncDiv(rDen, g), den];
      SumFits(a, b, rNum, rDen, TruncDiv(b, g0), TruncDiv(rDen, g0), g, TruncDiv(rDen, g), num, den);
    }

    /** `seen` lists every value the operator computes on the way. */
    method MulAssign(r: Rational) returns (ghost seen: seq<int>)
      requires Valid() && r.Valid()
      modifies this
      ensures Valid() && Value() == Product(old(Value()), old(r.Value()))
      ensures AllWithin(seen, [0, old(num), old(den), old(r.num), old(r.den), num, den])
    {
      var rNum, rDen := r.num, r.den;
      ghost var a, b := num, den;
      GcdPositive(num, rDen);
      GcdPositive(rNum, den);
      DivGcd(num, rDen);
      DivGcd(rNum, den);
      var gcd1 := GcdInteger(num, rDen);
      var gcd2 := GcdInteger(rNum, den);
      num := TruncDiv(num, gcd1) * TruncDiv(rNum, gcd2);
      den := TruncDiv(den, gcd2) * TruncDiv(rDen, gcd1);
      ghost var a1, d1 := TruncDiv(a, gcd1), TruncDiv(rDen, gcd1);
      ghost var c1, b1 := TruncDiv(rNum, gcd2), TruncDiv(b, gcd2);
      FastProduct(a, b, rNum, rDen, a1, d1, c1, b1);
      NonZeroProduct(b, rDen);
      ReduceUnique(Value(), a * rNum, b * rDen);
      seen := [gcd1, gcd2, a1, c1, num, b1, d1, den];
      CrossGcdsFit(a, b, rNum, rDen, a1, d1, c1, b1, num, den);
    }

    method DivAssign(r: Rational) returns (thrown: bool)
      requires Valid() && r.Valid()
      modifies this
      ensures Valid()
      ensures thrown <==> old(r.num) == 0
      ensures thrown ==> Value() == old(Value())
      ensures !thrown ==> Value() == Quotient(old(Value()), old(r.Value()))
    {
      var rNum, rDen := r.num, r.den;
      if rNum == 0 {
        return true;
      }
      if num == 0 {
        ZeroQuotient(Value(), r.Value());
        return false;
      }
      ghost var a, b := num, den;
      GcdPositive(num, rNum);
      GcdPositive(rDen, den);
      DivGcd(num, rNum);
      DivGcd(rDen, den);
      var gcd1 := GcdInteger(num, rNum);
      var gcd2 := GcdInteger(rDen, den);
      num := TruncDiv(num, gcd1) * TruncDiv(rDen, gcd2);
      den := TruncDiv(den, gcd2) * TruncDiv(rNum, gcd1);
      FastQuotient(a, b, rNum, rDen,
                   TruncDiv(a, gcd1), TruncDiv(rNum, gcd1), TruncDiv(rDen, gcd2), TruncDiv(b, gcd2));
      if den < 0 {
        num := -num;
        den := -den;
      }
      NonZeroProduct(b, rNum);
      ReduceUnique(Value(), a * rDen, b * rNum);
      return false;
    }

    // ----- arithmetic with an integer ---------------------------------------------------

    method AddInt(i: int)
      requires Valid()
      modifies this
      ensures Valid() && Value() == Sum(old(Value()), Whole(i))
    {
      WholeReduced(i);
      CoprimeShift(num, den, i);
      num := num + i * den;
      ReduceUnique(Value(), old(num) * 1 + i * den, den * 1);
    }

    method SubInt(i: int)
      requires Valid()
      modifies this
      ensures Valid() && Value() == Difference(old(Value()), Whole(i))
    {
      WholeReduced(i);
      CoprimeShift(num, den, -i);
      NegateFactor(i, den);
      num := num - i * den;
      ReduceUnique(Value(), old(num) * 1 - i * den, den * 1);
    }

    method MulInt(i: int)
      requires Valid()
      modifies this
      ensures Valid() && Value() == Product(old(Value()), Whole(i))
    {
      ghost var a, b := num, den;
      WholeReduced(i);
      WholeReduced(num);
      GcdPositive(i, den);
      DivGcd(i, den);
      var gcd := GcdInteger(i, den);
      num := num * TruncDiv(i, gcd);
      den := TruncDiv(den, gcd);
      FastProduct(a, b, i, 1, a, 1, TruncDiv(i, gcd), den);
      ReduceUnique(Value(), a * i, b * 1);
    }

    method DivInt(i: int) returns (thrown: bool)
      requires Valid()
      modifies this
      ensures Valid()
      ensures thrown <==> i == 0
      ensures thrown ==> Value() == old(Value())
      ensures !thrown ==> Reduced(Whole(i)) && Value() == Quotient(old(Value()), Whole(i))
    {
      if i == 0 {
        return true;
      }
      WholeReduced(i);
      if num == 0 {
        ZeroQuotient(Value(), Whole(i));
        return false;
      }
      ghost var a, b := num, den;
      GcdPositive(num, i);
      DivGcd(num, i);
      var gcd := GcdInteger(num, i);
      num := TruncDiv(num, gcd);
      den := den * TruncDiv(i, gcd);
      WholeReduced(b);
      CoprimeSymmetric(b, 1);
      FastQuotient(a, b, i, 1, num, TruncDiv(i, gcd), 1, b);
      if den < 0 {
        num := -num;
        den := -den;
      }
      NonZeroProduct(b, i);
      ReduceUnique(Value(), a * 1, b * i);
      return false;
    }

    method Increment()
      requires Valid()
      modifies this
      ensures Valid() && Value() == Sum(old(Value()), Whole(1))
    {
      WholeReduced(1);
      CoprimeShift(num, den, 1);
      num := num + den;
      ReduceUnique(Value(), old(num) * 1 + 1 * den, den * 1);
    }

    method Decrement()
      requires Valid()
      modifies this
      ensures Valid() && Value() == Difference(old(Value()), Whole(1))
    {
      WholeReduced(1);
      CoprimeShift(num, den, -1);
      num := num - den;
      ReduceUnique(Value(), old(num) * 1 - 1 * den, den * 1);
    }

    /** Unary minus, through the normalising constructor. */
    method Negated() returns (r: Rational)
      requires Valid()
      ensures fresh(r) && r.Valid() && r.Value() == Negation(Value())
    {
      var thrown;
      thrown, r := Make(-num, den);
      CoprimeNegate(num, den);
      ReduceUnique(Negation(Value()), -num, den);
    }

    method Absolute() returns (r: Rational)
      requires Valid()
      ensures r.Valid() && r.Value() == if num < 0 then Negation(Value()) else Value()
    {
      if num >= 0 {
        r := this;
      } else {
        r := Negated();
      }
    }

    // ----- comparison -----------------------------------------------------------------------

    /** Comparing the fields compares the values. */
    predicate Equals(r: Rational): (same: bool)
      reads this, r
      ensures Valid() && r.Valid() ==> (same <==> Val(Value()) == Val(r.Value()))
    {
      EqualFields(Value(), r.Value());
      num == r.num && den == r.den
    }

    predicate EqualsInt(i: int): (same: bool)
      reads this
      ensures Valid() ==> (same <==> Val(Value()) == i as real)
    {
      WholeReduced(i);
      EqualFields(Value(), Whole(i));
      den == 1 && num == i
    }

    /** Compares by expanding both fractions into continued fractions.  `seen`
        lists every field value the two expansions go through. */
    method LessThan(r: Rational) returns (less: bool, ghost seen: seq<int>)
      requires den > 0 && r.den > 0
      ensures less <==> Less(Value(), r.Value())
      ensures AllWithin(seen, [0, num, den, r.num, r.den])
    {
      ghost var inputs := [0, num, den, r.num, r.den];
      ghost var more: seq<int>;
      var ts, rs: Expansion;
      ts, seen := FirstTerm(num, den, inputs);
      rs, more := FirstTerm(r.num, r.den, inputs);
      seen := seen + more;
      var reverse := false;

      while true
        invariant ts.Proper() && rs.Proper()
        invariant Less(Value(), r.Value()) <==> if reverse then rs.Below(ts) else ts.Below(rs)
        invariant AllWithin(seen, inputs)
        invariant AllWithin(ts.Fields(), inputs) && AllWithin(rs.Fields(), inputs)
        decreases ts.d
      {
        QuotientsDecide(ts, rs);
        QuotientsDecide(rs, ts);
        if ts.q != rs.q {
          return if reverse then ts.q > rs.q else ts.q < rs.q, seen;
        }
        reverse := !reverse;
        if ts.r == 0 || rs.r == 0 {
          break;
        }
        ReciprocalsReverse(ts, rs);
        NextFits(ts, inputs);
        NextFits(rs, inputs);
        NextProper(ts);
        NextProper(rs);
        ts := ts.Next();
        rs := rs.Next();
        seen := seen + ts.Fields() + rs.Fields();
      }
      RemaindersDecide(ts, rs);
      if ts.r == rs.r {
        less := false;
      } else {
        less := (ts.r != 0) != reverse;
      }
    }

    /** `this < i`: floor division decides. */
    method LessThanInt(i: int) returns (less: bool)
      requires den > 0
      ensures less <==> Less(Value(), Whole(i))
    {
      var q, r := TruncDiv(num, den), TruncMod(num, den);
      TruncDivMod(num, den);
      while r < 0
        invariant num == den * q + r && r < den
        decreases -r
      {
        Distribute(den, q, -1);
        r := r + den;
        q := q - 1;
      }
      FloorDecides(num, den, q, r, i);
      less := q < i;
    }

    /** `this > i`. */
    method GreaterThanInt(i: int) returns (greater: bool)
      requires Valid()
      ensures greater <==> Less(Whole(i), Value())
    {
      WholeReduced(i);
      Trichotomy(Value(), Whole(i));
      var less := LessThanInt(i);
      greater := if EqualsInt(i) then false else !less;
    }

    // ----- the invariant checks -----------------------------------------------------------------

    static function InnerGcd(a: int, b: int): int
      decreases Abs(b)
    {
      if b == 0 then a
      else
        TruncDivMod(a, b);
        InnerGcd(b, TruncMod(a, b))
    }

    static function InnerAbs(x: int): int {
      if x < 0 then -x else x
    }

    static predicate IsNormalized(n: int, d: int) {
      d > 0 && (n != 0 || d == 1) && InnerAbs(InnerGcd(n, d)) == 1
    }

    method TestInvariant() returns (ok: bool)
      ensures ok <==> Valid()
    {
      var g := GcdInteger(num, den);
      ok := den > 0 && g == 1;
    }
  }

  /** The recursive gcd is the gcd up to its sign, whatever the signs of its arguments. */
  lemma {:induction false} InnerGcdIsGcd(a: int, b: int)
    ensures Rational.InnerAbs(Rational.InnerGcd(a, b)) == Gcd(a, b)
    decreases Abs(b)
  {
    if b == 0 {
      GcdZero(a);
    } else {
      GcdTruncMod(a, b);
      InnerGcdIsGcd(b, TruncMod(a, b));
    }
  }

  /** The compile-time check accepts exactly what the representation invariant allows. */
  lemma IsNormalizedAgrees(n: int, d: int)
    ensures Rational.IsNormalized(n, d) <==> Reduced(Fraction(n, d))
  {
    InnerGcdIsGcd(n, d);
    if n == 0 {
      GcdZero(d);
    }
  }

  lemma ZeroQuotient(p: Fraction, q: Fraction)
    requires Reduced(p) && Reduced(q) && p.num == 0 && q.num != 0
    ensures p == Quotient(p, q)
  {
    NonZeroProduct(p.den, q.num);
    ReduceUnique(p, p.num * q.den, p.den * q.num);
  }
}
