/**
  The public face of HigherLogics.Locale/Money.cs: a multi-currency amount and
  its equality, ordering and arithmetic operators.

  A `Money` holds an array that no operation writes after construction, so
  the model keeps its contents as a sequence; the operators are functions over
  the specification functions of module MoneyOps, which the array methods
  there are proved to compute.
 */
module MoneyModel {
  import opened Outcomes
  import FixedPoint
  import MoneyOps

  type Fixed = FixedPoint.Fixed

  /** A value as the public constructor and the operators build it: its
      entry array, never null. */
  datatype Money = Money(values: seq<Fixed>)

  /** `new Money(amount, currency)`: a single entry, which is trivially sorted. */
  function Create(amount: real, currency: nat): (m: Money)
    ensures |m.values| == 1 && m.values[0].value == amount && m.values[0].units == currency
    ensures MoneyOps.SortedByCurrency(m.values)
  {
    Money([FixedPoint.Fixed(amount, currency)])
  }

  /** `Equals`: element-wise equality of the entry sequences (SequenceEqual). */
  function Equals(a: Money, b: Money): (r: bool)
    ensures r <==> a == b
  {
    |a.values| == |b.values| &&
    forall i :: 0 <= i < |a.values| ==> FixedPoint.Equals(a.values[i], b.values[i])
  }

  /** Length of the longest common prefix of two entry sequences. */
  function CommonPrefix(a: seq<Fixed>, b: seq<Fixed>): (k: nat)
    ensures k <= |a| && k <= |b| && a[..k] == b[..k]
    ensures k < |a| && k < |b| ==> a[k] != b[k]
  {
    if |a| == 0 || |b| == 0 || a[0] != b[0] then 0
    else
      var k := 1 + CommonPrefix(a[1..], b[1..]);
      assert a[..k] == [a[0]] + a[1..][..k - 1];
      assert b[..k] == [b[0]] + b[1..][..k - 1];
      k
  }

  /** The LINQ pipeline of `CompareTo`: zip, compare pairwise, take the first
      non-zero comparison; `First` throws when there is none. */
  function FirstNonZero(a: seq<Fixed>, b: seq<Fixed>): (r: Result<int>)
    ensures var k := CommonPrefix(a, b);
      r == if k < |a| && k < |b| then Success(FixedPoint.CompareTo(a[k], b[k])) else Failure(InvalidOperation)
  {
    if |a| == 0 || |b| == 0 then Failure(InvalidOperation)
    else
      var c := FixedPoint.CompareTo(a[0], b[0]);
      if c != 0 then Success(c) else FirstNonZero(a[1..], b[1..])
  }

  /** `CompareTo`: decided by the first differing pair of entries; it throws
      when one entry list is a prefix of the other, so it never returns 0,
      not even when comparing a value with itself. */
  function CompareTo(a: Money, b: Money): (r: Result<int>)
    ensures r.Failure? <==> a.values <= b.values || b.values <= a.values
    ensures r.Success? ==> r.value != 0
    ensures r.Success? ==> var k := CommonPrefix(a.values, b.values);
      a.values[..k] == b.values[..k] && r.value == FixedPoint.CompareTo(a.values[k], b.values[k])
  {
    CommonPrefixAndPrefixes(a.values, b.values);
    FirstNonZero(a.values, b.values)
  }

  /** The common prefix runs to the end of one list exactly when that list is
      a prefix of the other. */
  lemma CommonPrefixAndPrefixes(a: seq<Fixed>, b: seq<Fixed>)
    ensures var k := CommonPrefix(a, b);
      (k == |a| || k == |b|) <==> (a <= b || b <= a)
  {
    var k := CommonPrefix(a, b);
    if k < |a| && k < |b| {
      assert a[k] != b[k];
    } else if k == |a| {
      assert a == a[..k];
    } else {
      assert b == b[..k];
    }
  }

  lemma {:induction false} CommonPrefixSymmetric(a: seq<Fixed>, b: seq<Fixed>)
    ensures CommonPrefix(a, b) == CommonPrefix(b, a)
  {
    if |a| > 0 && |b| > 0 && a[0] == b[0] {
      CommonPrefixSymmetric(a[1..], b[1..]);
    }
  }

  /** Where `CompareTo` answers, swapping the operands flips the answer. */
  lemma CompareToAntisymmetric(a: Money, b: Money)
    requires CompareTo(a, b).Success?
    ensures CompareTo(b, a) == Success(-CompareTo(a, b).value)
  {
    CommonPrefixSymmetric(a.values, b.values);
    var k := CommonPrefix(a.values, b.values);
    FixedPoint.CompareToAntisymmetric(a.values[k], b.values[k]);
  }

  /** Whether two currencies' ordinals are two or more apart, so that the
      merge's comparison of them matches no case. */
  predicate FarApart(c: nat, d: nat) {
    c + 1 < d || d + 1 < c
  }

  lemma OneEntryOperands(lhs: Money, rhs: Money, op: MoneyOps.MergeOp)
    ensures |lhs.values| == 1 && |rhs.values| == 1 ==>
      MoneyOps.MergeValues(lhs.values, rhs.values, op) ==
        if lhs == rhs then Success([MoneyOps.Combine(op, lhs.values[0], rhs.values[0])])
        else if FarApart(lhs.values[0].units, rhs.values[0].units) then Success([FixedPoint.Default, FixedPoint.Default])
        else Failure(IndexOutOfRange)
  {
    if |lhs.values| == 1 && |rhs.values| == 1 {
      MoneyOps.SingleEntryMerge(lhs.values[0], rhs.values[0], op);
      assert lhs.values == [lhs.values[0]] && rhs.values == [rhs.values[0]];
    }
  }

  /** `lhs + rhs`. Two one-entry values add only when they are identical.
      Any other pair of one-entry values either makes the merge read past
      the end of an input or, when the currencies' ordinals are two or more
      apart, gives two default entries (zero of the currency with ordinal 0). */
  function Add(lhs: Money, rhs: Money): (r: Result<Money>)
    ensures |lhs.values| == 1 && |rhs.values| == 1 ==>
      r == if lhs == rhs then Success(Money([FixedPoint.Plus(lhs.values[0], rhs.values[0])]))
           else if FarApart(lhs.values[0].units, rhs.values[0].units) then Success(Money([FixedPoint.Default, FixedPoint.Default]))
           else Failure(IndexOutOfRange)
  {
    OneEntryOperands(lhs, rhs, MoneyOps.Sum);
    match MoneyOps.MergeValues(lhs.values, rhs.values, MoneyOps.Sum)
    case Failure(e) => Failure(e)
    case Success(s) => Success(Money(s))
  }

  /** `lhs - rhs`. Two one-entry values subtract only when they are
      identical; other pairs behave as for `Add`. */
  function Subtract(lhs: Money, rhs: Money): (r: Result<Money>)
    ensures |lhs.values| == 1 && |rhs.values| == 1 ==>
      r == if lhs == rhs then Success(Money([FixedPoint.Fixed(0.0, lhs.values[0].units)]))
           else if FarApart(lhs.values[0].units, rhs.values[0].units) then Success(Money([FixedPoint.Default, FixedPoint.Default]))
           else Failure(IndexOutOfRange)
  {
    OneEntryOperands(lhs, rhs, MoneyOps.Difference);
    match MoneyOps.MergeValues(lhs.values, rhs.values, MoneyOps.Difference)
    case Failure(e) => Failure(e)
    case Success(s) => Success(Money(s))
  }

  /** `money * constant`: every entry scaled, currencies and order unchanged. */
  function Multiply(m: Money, constant: real): (r: Money)
    ensures |r.values| == |m.values|
    ensures forall i :: 0 <= i < |m.values| ==>
              r.values[i].units == m.values[i].units && r.values[i].value == m.values[i].value * constant
  {
    Money(MoneyOps.ScaleAll(m.values, constant))
  }

  /** `constant * money`: the same as `money * constant`. */
  function MultiplyLeft(constant: real, m: Money): (r: Money)
    ensures r == Multiply(m, constant)
  {
    Money(MoneyOps.ScaleAll(m.values, constant))
  }

  /** `money / constant`: multiplying back by the constant restores the value. */
  function Divide(m: Money, constant: real): (r: Money)
    requires constant != 0.0
    ensures |r.values| == |m.values|
    ensures Multiply(r, constant) == m
  {
    Money(MoneyOps.DivideAll(m.values, constant))
  }

  /** Unary `-money`, defined as `-1 * money`: every amount negated. */
  function Negate(m: Money): (r: Money)
    ensures r == MultiplyLeft(-1.0, m)
    ensures forall i :: 0 <= i < |m.values| ==>
              r.values[i].units == m.values[i].units && r.values[i].value == -m.values[i].value
  {
    MultiplyLeft(-1.0, m)
  }

  /** Expressions over the public Money API. */
  datatype Term =
    | Literal(amount: real, currency: nat)
    | Sum(left: Term, right: Term)
    | Difference(left: Term, right: Term)
    | Scaled(term: Term, factor: real)
    | Quotient(term: Term, divisor: real)
    | Negation(term: Term)

  /** Evaluates a term, throwing where the source throws. */
  function Eval(t: Term): Result<Money> {
    match t
    case Literal(a, c) => Success(Create(a, c))
    case Sum(l, r) =>
      (match (Eval(l), Eval(r))
       case (Success(x), Success(y)) => Add(x, y)
       case (Failure(e), _) => Failure(e)
       case (_, Failure(e)) => Failure(e))
    case Difference(l, r) =>
      (match (Eval(l), Eval(r))
       case (Success(x), Success(y)) => Subtract(x, y)
       case (Failure(e), _) => Failure(e)
       case (_, Failure(e)) => Failure(e))
    case Scaled(u, c) =>
      (match Eval(u)
       case Success(x) => Success(Multiply(x, c))
       case Failure(e) => Failure(e))
    case Quotient(u, c) =>
      (match Eval(u)
       case Success(x) => if c == 0.0 then Failure(DivideByZero) else Success(Divide(x, c))
       case Failure(e) => Failure(e))
    case Negation(u) =>
      (match Eval(u)
       case Success(x) => Success(Negate(x))
       case Failure(e) => Failure(e))
  }

  /** No sequence of operators applied to values from the public
      constructor ever builds a value holding two real currencies: the
      constructor makes one entry, scaling keeps the shape, and `+`/`-` give
      either one combined entry or, when no case of the merge matches,
      nothing but default entries. */
  lemma {:induction false} EveryValueHasOneEntryOrDefaults(t: Term)
    requires Eval(t).Success?
    ensures MoneyOps.OneEntryOrDefaults(Eval(t).value.values)
  {
    match t
    case Literal(_, _) =>
    case Sum(l, r) =>
      EveryValueHasOneEntryOrDefaults(l); EveryValueHasOneEntryOrDefaults(r);
      MoneyOps.MergeKeepsShape(Eval(l).value.values, Eval(r).value.values, MoneyOps.Sum);
    case Difference(l, r) =>
      EveryValueHasOneEntryOrDefaults(l); EveryValueHasOneEntryOrDefaults(r);
      MoneyOps.MergeKeepsShape(Eval(l).value.values, Eval(r).value.values, MoneyOps.Difference);
    case Scaled(u, c) =>
      EveryValueHasOneEntryOrDefaults(u);
      MoneyOps.ScaleKeepsShape(Eval(u).value.values, c);
    case Quotient(u, c) =>
      EveryValueHasOneEntryOrDefaults(u);
      MoneyOps.DivideKeepsShape(Eval(u).value.values, c);
    case Negation(u) =>
      EveryValueHasOneEntryOrDefaults(u);
      MoneyOps.ScaleKeepsShape(Eval(u).value.values, -1.0);
  }

  /** So adding amounts of two different currencies never gives a value
      holding both: it throws when their ordinals are adjacent, and gives
      two default entries otherwise. */
  lemma AddingTwoCurrencies(a: real, c: nat, b: real, d: nat)
    requires c != d
    ensures Eval(Sum(Literal(a, c), Literal(b, d))) ==
      if FarApart(c, d) then Success(Money([FixedPoint.Default, FixedPoint.Default]))
      else Failure(IndexOutOfRange)
  {
  }
}
