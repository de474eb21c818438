/** The order of fractions, and the continued-fraction expansion by which
    operator< decides it without multiplying. */
module ContinuedFractions {
  import opened Arithmetic
  import opened NumberTheory
  import opened Fractions
  import opened Ranges

  /** The order by cross multiplication, which the class avoids computing. */
  predicate Less(p: Fraction, q: Fraction) {
    p.num * q.den < q.num * p.den
  }

  // ----- one term of an expansion -----------------------------------------------------------

  datatype Expansion = Expansion(n: int, d: int, q: int, r: int) {
    predicate Proper() {
      n == d * q + r && 0 <= r < d
    }

    predicate Below(e: Expansion) {
      n * e.d < e.n * d
    }

    function Fields(): seq<int> {
      [n, d, q, r]
    }

    /** The expansion of the reciprocal of the fractional part. */
    function Next(): Expansion
      requires r != 0
    {
      Expansion(d, r, TruncDiv(d, r), TruncMod(d, r))
    }
  }

  lemma NextProper(t: Expansion)
    requires t.Proper() && t.r != 0
    ensures t.Next().Proper() && 1 <= t.Next().q <= t.d
  {
    TruncDivMod(t.d, t.r);
    var e := t.Next();
    MultipleIsLarge(t.r, e.q);
    MultipleIsLarge(e.q, t.r);
  }

  /** The first differing quotient orders the fractions; equal quotients leave the
      order to the fractional parts. */
  lemma QuotientsDecide(t: Expansion, s: Expansion)
    requires t.Proper() && s.Proper()
    ensures t.q < s.q ==> t.Below(s)
    ensures t.q == s.q ==> (t.Below(s) <==> t.r * s.d < s.r * t.d)
  {
    MixedCross(t.d, t.q, t.r, s.d);
    MixedCross(s.d, s.q, s.r, t.d);
    var m := t.d * s.d;
    FractionalPart(t.d, t.r, s.d);
    FractionalPart(s.d, s.r, t.d);
    Distribute(m, s.q, -t.q);
    MultipleIsLarge(m, s.q - t.q);
  }

  lemma MixedCross(d: int, q: int, r: int, e: int)
    ensures (d * q + r) * e == (d * e) * q + r * e
    ensures d * e == e * d
  {}

  lemma FractionalPart(d: int, r: int, e: int)
    requires 0 <= r < d && 0 < e
    ensures 0 <= r * e < d * e && 0 < d * e
  {}

  /** Taking reciprocals of the fractional parts turns the order round. */
  lemma ReciprocalsReverse(t: Expansion, s: Expansion)
    requires t.Proper() && s.Proper() && t.q == s.q && t.r != 0 && s.r != 0
    ensures t.Below(s) <==> s.Next().Below(t.Next())
    ensures s.Below(t) <==> t.Next().Below(s.Next())
  {
    QuotientsDecide(t, s);
    QuotientsDecide(s, t);
  }

  /** Where an expansion ends, the fraction whose expansion goes on is the larger. */
  lemma RemaindersDecide(t: Expansion, s: Expansion)
    requires t.Proper() && s.Proper() && t.q == s.q && (t.r == 0 || s.r == 0)
    ensures t.Below(s) <==> t.r == 0 && s.r != 0
    ensures s.Below(t) <==> s.r == 0 && t.r != 0
  {
    QuotientsDecide(t, s);
    QuotientsDecide(s, t);
    MultipleIsLarge(t.d, s.r);
    MultipleIsLarge(s.d, t.r);
  }

  /** All fields of the next term lie within the old fields, and so within any
      bounds for those. */
  lemma NextFits(t: Expansion, bounds: seq<int>)
    requires t.Proper() && t.r != 0 && 0 in bounds && AllWithin(t.Fields(), bounds)
    ensures AllWithin(t.Next().Fields(), bounds)
  {
    NextProper(t);
    assert Within(t.Fields()[1], bounds) && Within(t.Fields()[3], bounds);
    var e := t.Next();
    BelowBound(e.q, t.d, bounds);
    BelowBound(e.r, t.r, bounds);
  }

  lemma BelowBound(x: int, y: int, bounds: seq<int>)
    requires 0 <= x <= y && 0 in bounds && Within(y, bounds)
    ensures Within(x, bounds)
  {}

  /** The first term: the truncated quotient and remainder of n/d, with a negative
      remainder moved up into the next lower quotient. */
  method FirstTerm(n: int, d: int, ghost bounds: seq<int>) returns (e: Expansion, ghost seen: seq<int>)
    requires d > 0 && 0 in bounds && n in bounds && d in bounds
    ensures e.Proper() && e.n == n && e.d == d
    ensures AllWithin(seen, bounds) && AllWithin(e.Fields(), bounds)
  {
    var q, r := TruncDiv(n, d), TruncMod(n, d);
    FirstTermFits(n, d);
    seen := [n, d, q, r];
    while r < 0
      invariant n == d * q + r && -d < r < d
      invariant if n < 0 then n <= q <= 0 && n <= r && (r < 0 ==> n < q) else 0 <= q <= n && 0 <= r
      invariant AllWithin(seen, bounds)
      decreases -r
    {
      Distribute(d, q, -1);
      r := r + d;
      q := q - 1;
      seen := seen + [r, q];
    }
    e := Expansion(n, d, q, r);
  }

  lemma FirstTermFits(n: int, d: int)
    requires d > 0
    ensures n == d * TruncDiv(n, d) + TruncMod(n, d) && -d < TruncMod(n, d) < d
    ensures n >= 0 ==> 0 <= TruncDiv(n, d) <= n && 0 <= TruncMod(n, d) <= n
    ensures n < 0 ==> n <= TruncDiv(n, d) <= 0 && n <= TruncMod(n, d) <= 0
    ensures TruncMod(n, d) < 0 ==> n < TruncDiv(n, d)
  {
    TruncDivMod(n, d);
    QuotientFits(n, d, TruncDiv(n, d), TruncMod(n, d));
  }

  lemma QuotientFits(n: int, d: int, q: int, r: int)
    requires d > 0 && n == d * q + r
    requires if n >= 0 then 0 <= r && 0 <= q else r <= 0 && q <= 0
    ensures if n >= 0 then q <= n - r && r <= n else n - r <= q && n <= r
  {
    Distribute(q, d - 1, 1);
    if n >= 0 { NaturalProduct(q, d - 1); } else { NegateFactor(q, d - 1); NaturalProduct(-q, d - 1); }
  }

  // ----- comparison with an integer ------------------------------------------------------------

  /** n/d < i exactly when the floor of n/d is below i. */
  lemma FloorDecides(n: int, d: int, q: int, r: int, i: int)
    requires n == d * q + r && 0 <= r < d
    ensures q < i <==> n < i * d
  {
    Distribute(d, i, -q);
    MultipleIsLarge(d, i - q);
  }

  // ----- a total order -----------------------------------------------------------------------------

  lemma LessIsRealOrder(p: Fraction, q: Fraction)
    requires p.den > 0 && q.den > 0
    ensures Less(p, q) <==> Val(p) < Val(q)
  {
    var x, y := Val(p), Val(q);
    ValByProduct(p, x);
    ValByProduct(q, y);
    Casts(p, q);
    RealScale(p.num as real, p.den as real, x, q.den as real);
    RealScale(q.num as real, q.den as real, y, p.den as real);
    RealOrder(x, y, p.den as real * q.den as real);
  }

  lemma RealOrder(x: real, y: real, m: real)
    requires m > 0.0
    ensures x < y <==> x * m < y * m
  {
    if x < y {
      assert (y - x) * m > 0.0;
    } else {
      assert (x - y) * m >= 0.0;
    }
  }

  /** Of two reduced fractions one is less, the other is, or their fields agree. */
  lemma Trichotomy(p: Fraction, q: Fraction)
    requires Reduced(p) && Reduced(q)
    ensures !Less(p, q) && !Less(q, p) <==> p == q
    ensures !(Less(p, q) && Less(q, p))
  {
    if !Less(p, q) && !Less(q, p) {
      ReducedUnique(p, q);
    }
  }

  lemma LessTransitive(p: Fraction, q: Fraction, r: Fraction)
    requires p.den > 0 && q.den > 0 && r.den > 0
    ensures Less(p, q) && Less(q, r) ==> Less(p, r)
    ensures !Less(q, p) && !Less(r, q) ==> !Less(r, p)
  {
    LessIsRealOrder(p, q);
    LessIsRealOrder(q, p);
    LessIsRealOrder(q, r);
    LessIsRealOrder(r, q);
    LessIsRealOrder(p, r);
    LessIsRealOrder(r, p);
  }
}
