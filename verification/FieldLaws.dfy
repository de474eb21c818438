/** What the reduced form buys: the operators form a field on the stored
    numerators and denominators, and no chain of them drifts from the exact value. */
module FieldLaws {
  import opened Arithmetic
  import opened NumberTheory
  import opened Fractions

  lemma NegationIsExact(p: Fraction)
    requires Reduced(p)
    ensures Reduced(Negation(p)) && Val(Negation(p)) == -Val(p)
  {
    CoprimeNegate(p.num, p.den);
    ValByProduct(p, Val(p));
    ValByProduct(Negation(p), -Val(p));
  }

  lemma SumCommutes(p: Fraction, q: Fraction)
    requires Reduced(p) && Reduced(q)
    ensures Sum(p, q) == Sum(q, p)
  {
    SumIsExact(p, q);
    SumIsExact(q, p);
    ReducedValueUnique(Sum(p, q), Sum(q, p));
  }

  lemma SumAssociates(p: Fraction, q: Fraction, r: Fraction)
    requires Reduced(p) && Reduced(q) && Reduced(r)
    ensures Reduced(Sum(p, q)) && Reduced(Sum(q, r))
    ensures Sum(Sum(p, q), r) == Sum(p, Sum(q, r))
  {
    SumIsExact(p, q);
    SumIsExact(q, r);
    SumIsExact(Sum(p, q), r);
    SumIsExact(p, Sum(q, r));
    ReducedValueUnique(Sum(Sum(p, q), r), Sum(p, Sum(q, r)));
  }

  lemma ProductCommutes(p: Fraction, q: Fraction)
    requires Reduced(p) && Reduced(q)
    ensures Product(p, q) == Product(q, p)
  {
    ProductIsExact(p, q);
    ProductIsExact(q, p);
    ReducedValueUnique(Product(p, q), Product(q, p));
  }

  lemma ProductAssociates(p: Fraction, q: Fraction, r: Fraction)
    requires Reduced(p) && Reduced(q) && Reduced(r)
    ensures Reduced(Product(p, q)) && Reduced(Product(q, r))
    ensures Product(Product(p, q), r) == Product(p, Product(q, r))
  {
    ProductIsExact(p, q);
    ProductIsExact(q, r);
    ProductIsExact(Product(p, q), r);
    ProductIsExact(p, Product(q, r));
    RealAssociative(Val(p), Val(q), Val(r));
    ReducedValueUnique(Product(Product(p, q), r), Product(p, Product(q, r)));
  }

  lemma RealAssociative(x: real, y: real, z: real)
    ensures (x * y) * z == x * (y * z)
  {}

  lemma RealDistributive(x: real, y: real, z: real)
    ensures x * (y + z) == x * y + x * z
  {}

  lemma Distributes(p: Fraction, q: Fraction, r: Fraction)
    requires Reduced(p) && Reduced(q) && Reduced(r)
    ensures Reduced(Sum(q, r)) && Reduced(Product(p, q)) && Reduced(Product(p, r))
    ensures Product(p, Sum(q, r)) == Sum(Product(p, q), Product(p, r))
  {
    SumIsExact(q, r);
    ProductIsExact(p, q);
    ProductIsExact(p, r);
    ProductIsExact(p, Sum(q, r));
    SumIsExact(Product(p, q), Product(p, r));
    RealDistributive(Val(p), Val(q), Val(r));
    ReducedValueUnique(Product(p, Sum(q, r)), Sum(Product(p, q), Product(p, r)));
  }

  /** Units, and subtraction and division as inverses. */
  lemma Inverses(p: Fraction, q: Fraction)
    requires Reduced(p) && Reduced(q)
    ensures Reduced(Whole(0)) && Reduced(Whole(1)) && Reduced(Negation(q)) && Reduced(Sum(p, q))
    ensures Sum(p, Whole(0)) == p && Product(p, Whole(1)) == p
    ensures Sum(q, Negation(q)) == Whole(0)
    ensures Difference(p, q) == Sum(p, Negation(q))
    ensures Difference(Sum(p, q), q) == p
  {
    WholeReduced(0);
    WholeReduced(1);
    NegationIsExact(q);
    SumIsExact(p, q);
    SumIsExact(p, Whole(0));
    ProductIsExact(p, Whole(1));
    SumIsExact(q, Negation(q));
    SumIsExact(p, Negation(q));
    DifferenceIsExact(p, q);
    DifferenceIsExact(Sum(p, q), q);
    ReducedValueUnique(Sum(p, Whole(0)), p);
    ReducedValueUnique(Product(p, Whole(1)), p);
    ReducedValueUnique(Sum(q, Negation(q)), Whole(0));
    ReducedValueUnique(Difference(p, q), Sum(p, Negation(q)));
    ReducedValueUnique(Difference(Sum(p, q), q), p);
  }

  lemma QuotientUndoesProduct(p: Fraction, q: Fraction)
    requires Reduced(p) && Reduced(q) && q.num != 0
    ensures Reduced(Product(p, q)) && Quotient(Product(p, q), q) == p
  {
    ProductIsExact(p, q);
    QuotientIsExact(Product(p, q), q);
    RealCancel(Val(p), Val(q));
    ReducedValueUnique(Quotient(Product(p, q), q), p);
  }

  lemma ProductUndoesQuotient(p: Fraction, q: Fraction)
    requires Reduced(p) && Reduced(q) && q.num != 0
    ensures Reduced(Quotient(p, q)) && Product(Quotient(p, q), q) == p
  {
    QuotientIsExact(p, q);
    ProductIsExact(Quotient(p, q), q);
    RealCancel(Val(p), Val(q));
    ReducedValueUnique(Product(Quotient(p, q), q), p);
  }

  lemma RealCancel(x: real, y: real)
    requires y != 0.0
    ensures (x * y) / y == x && (x / y) * y == x
  {
    RealQuotient(x * y, y, x);
    RealQuotient(x, y, x / y);
  }

  // ----- chains of compound assignments ----------------------------------------------------------

  datatype Operand = Other(q: Fraction) | Int(i: int) | Self
  datatype Operator = Plus | Minus | Times | Over
  datatype Assignment = Assignment(op: Operator, arg: Operand)

  ghost predicate WellFormed(s: Assignment) {
    s.arg.Other? ==> Reduced(s.arg.q)
  }

  ghost function Resolve(arg: Operand, p: Fraction): (q: Fraction)
    requires Reduced(p) && (arg.Other? ==> Reduced(arg.q))
    ensures Reduced(q)
  {
    match arg
    case Other(q) => q
    case Int(i) => WholeReduced(i); Whole(i)
    case Self => p
  }

  /** One operator; division by zero throws and leaves the value alone. */
  ghost function Operate(op: Operator, p: Fraction, q: Fraction): Fraction
    requires Reduced(p) && Reduced(q)
  {
    match op
    case Plus => Sum(p, q)
    case Minus => Difference(p, q)
    case Times => Product(p, q)
    case Over => if q.num == 0 then p else Quotient(p, q)
  }

  /** The same operator on real numbers. */
  function RealOperate(op: Operator, x: real, y: real): real {
    match op
    case Plus => x + y
    case Minus => x - y
    case Times => x * y
    case Over => if y == 0.0 then x else x / y
  }

  lemma OperateIsExact(op: Operator, p: Fraction, q: Fraction)
    requires Reduced(p) && Reduced(q)
    ensures Reduced(Operate(op, p, q)) && Val(Operate(op, p, q)) == RealOperate(op, Val(p), Val(q))
  {
    match op
    case Plus => SumIsExact(p, q);
    case Minus => DifferenceIsExact(p, q);
    case Times => ProductIsExact(p, q);
    case Over =>
      ValByProduct(q, 0.0);
      if q.num != 0 { QuotientIsExact(p, q); }
  }

  ghost function RealResolve(arg: Operand, x: real): real
    requires arg.Other? ==> Reduced(arg.q)
  {
    match arg
    case Other(q) => Val(q)
    case Int(i) => i as real
    case Self => x
  }

  ghost function Apply(s: Assignment, p: Fraction): (r: Fraction)
    requires Reduced(p) && WellFormed(s)
    ensures Reduced(r)
  {
    OperateIsExact(s.op, p, Resolve(s.arg, p));
    Operate(s.op, p, Resolve(s.arg, p))
  }

  ghost function RealApply(s: Assignment, x: real): real
    requires WellFormed(s)
  {
    RealOperate(s.op, x, RealResolve(s.arg, x))
  }

  ghost function ApplyAll(steps: seq<Assignment>, p: Fraction): (r: Fraction)
    requires Reduced(p) && forall s :: s in steps ==> WellFormed(s)
    ensures Reduced(r)
  {
    if steps == [] then p else ApplyAll(steps[1..], Apply(steps[0], p))
  }

  ghost function RealApplyAll(steps: seq<Assignment>, x: real): real
    requires forall s :: s in steps ==> WellFormed(s)
  {
    if steps == [] then x else RealApplyAll(steps[1..], RealApply(steps[0], x))
  }

  lemma ApplyIsExact(s: Assignment, p: Fraction)
    requires Reduced(p) && WellFormed(s)
    ensures Val(Apply(s, p)) == RealApply(s, Val(p))
  {
    if s.arg.Int? {
      WholeReduced(s.arg.i);
    }
    OperateIsExact(s.op, p, Resolve(s.arg, p));
  }

  /** After any chain of operators the fields are the reduced form of the exact result. */
  lemma {:induction false} ChainIsExact(steps: seq<Assignment>, p: Fraction)
    requires Reduced(p) && forall s :: s in steps ==> WellFormed(s)
    ensures Reduced(ApplyAll(steps, p))
    ensures Val(ApplyAll(steps, p)) == RealApplyAll(steps, Val(p))
  {
    if steps != [] {
      ApplyIsExact(steps[0], p);
      ChainIsExact(steps[1..], Apply(steps[0], p));
    }
  }

  /** So two chains end in the same fields exactly when they denote the same number. */
  lemma ChainsAgree(steps: seq<Assignment>, p: Fraction, steps': seq<Assignment>, p': Fraction)
    requires Reduced(p) && Reduced(p')
    requires forall s :: s in steps ==> WellFormed(s)
    requires forall s :: s in steps' ==> WellFormed(s)
    ensures ApplyAll(steps, p) == ApplyAll(steps', p')
       <==> RealApplyAll(steps, Val(p)) == RealApplyAll(steps', Val(p'))
  {
    ChainIsExact(steps, p);
    ChainIsExact(steps', p');
    if Val(ApplyAll(steps, p)) == Val(ApplyAll(steps', p')) {
      ReducedValueUnique(ApplyAll(steps, p), ApplyAll(steps', p'));
    }
  }
}
