/**
  A number tagged with its units (HigherLogics.Locale/Fixed.cs).

  The source's `decimal` is modelled as an exact `real`; the units type is an
  enum (in practice `Currency`), modelled by its ordinal, which is what the
  default comparer and equality of an enum look at.
 */
module FixedPoint {

  datatype Fixed = Fixed(value: real, units: nat)

  /** The order `CompareTo` is meant to implement: units first, the value breaks ties. */
  ghost predicate Precedes(a: Fixed, b: Fixed) {
    a.units < b.units || (a.units == b.units && a.value < b.value)
  }

  /** `Equals`: both the value and the units agree. */
  function Equals(a: Fixed, b: Fixed): (r: bool)
    ensures r <==> a == b
  {
    a.value == b.value && a.units == b.units
  }

  /** `decimal.CompareTo`: -1, 0 or 1. */
  function CompareValues(x: real, y: real): (r: int)
    ensures -1 <= r <= 1
    ensures r < 0 <==> x < y
    ensures r == 0 <==> x == y
  {
    if x < y then -1 else if x == y then 0 else 1
  }

  /** `CompareTo`: the units decide unless they are equal, then the values
      do. The units are compared by the default comparer of a byte-backed
      enum, which returns the difference of the two ordinals, not just its
      sign. That is the behaviour of .NET Core 3.0 and later, the runtime
      this model assumes; on .NET Framework it returns -1, 0 or 1. */
  function CompareTo(a: Fixed, b: Fixed): (r: int)
    ensures r == 0 <==> Equals(a, b)
    ensures r < 0 <==> Precedes(a, b)
    ensures r > 0 <==> Precedes(b, a)
    ensures a.units != b.units ==> r == a.units - b.units
    ensures a.units == b.units ==> -1 <= r <= 1
  {
    var x := a.units - b.units;
    if x == 0 then CompareValues(a.value, b.value) else x
  }

  /** Swapping the operands of `CompareTo` negates the answer. */
  lemma CompareToAntisymmetric(a: Fixed, b: Fixed)
    ensures CompareTo(a, b) == -CompareTo(b, a)
  {
  }

  /** `Precedes` is transitive, so `CompareTo` is a total order. */
  lemma PrecedesTransitive(a: Fixed, b: Fixed, c: Fixed)
    requires Precedes(a, b) && Precedes(b, c)
    ensures Precedes(a, c)
  {
  }

  /** `default(Fixed<T>)`, what a freshly allocated array holds: a zero
      amount of the enum member with ordinal 0. */
  const Default: Fixed := Fixed(0.0, 0)

  /** `value / constant`: keeps the units; the result times the constant gives the value back. */
  function Divide(f: Fixed, constant: real): (r: Fixed)
    requires constant != 0.0
    ensures r.units == f.units
    ensures r.value * constant == f.value
  {
    Fixed(f.value / constant, f.units)
  }

  /** `value * constant`: keeps the units; dividing by a non-zero constant undoes it. */
  function Multiply(f: Fixed, constant: real): (r: Fixed)
    ensures r.units == f.units
    ensures constant != 0.0 ==> Divide(r, constant) == f
  {
    Fixed(f.value * constant, f.units)
  }

  /** `constant * value`: the same as `value * constant`. */
  function MultiplyLeft(constant: real, f: Fixed): (r: Fixed)
    ensures r == Multiply(f, constant)
  {
    Multiply(f, constant)
  }

  /** `lhs * rhs`: the left operand scaled by the right one's value; the right one's units are dropped. */
  function MultiplyFixed(lhs: Fixed, rhs: Fixed): (r: Fixed)
    ensures r.units == lhs.units
    ensures r.value == lhs.value * rhs.value
  {
    Multiply(lhs, rhs.value)
  }

  /** `lhs + rhs`: the values add up, the units are the left operand's. */
  function Plus(lhs: Fixed, rhs: Fixed): (r: Fixed)
    ensures r.units == lhs.units
    ensures r.value - rhs.value == lhs.value
  {
    Fixed(lhs.value + rhs.value, lhs.units)
  }

  /** `lhs - rhs`: the values subtract, the units are the left operand's; adding `rhs` back restores `lhs`. */
  function Minus(lhs: Fixed, rhs: Fixed): (r: Fixed)
    ensures r.units == lhs.units
    ensures Plus(r, rhs) == lhs
  {
    Fixed(lhs.value - rhs.value, lhs.units)
  }

  /** The right operand's units never matter to `+`, `-` or `*`: only its value does. */
  lemma RightUnitsIgnored(lhs: Fixed, rhs: Fixed, units: nat)
    ensures Plus(lhs, rhs) == Plus(lhs, Fixed(rhs.value, units))
    ensures Minus(lhs, rhs) == Minus(lhs, Fixed(rhs.value, units))
    ensures MultiplyFixed(lhs, rhs) == MultiplyFixed(lhs, Fixed(rhs.value, units))
  {
  }

  /** So adding amounts of different units is not commutative: the result takes the left operand's units. */
  lemma PlusNotCommutativeAcrossUnits(a: Fixed, b: Fixed)
    requires a.units != b.units
    ensures Plus(a, b) != Plus(b, a)
    ensures Plus(a, b).value == Plus(b, a).value
  {
  }
}
