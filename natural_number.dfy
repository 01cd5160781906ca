/**
 * Peano natural numbers: a number is either Zero or the successor of a
 * number, and every operator is defined by structural recursion over that
 * shape, never by going through machine integers.
 *
 * The integer meaning of a Nat is `ToInt`, which the original computes with
 * its own `==` and saturating `-`; `Depth` counts the Succ layers and is the
 * reference against which `ToInt` is proved. Every operator's contract, or a
 * lemma beside it, states what it computes in terms of `ToInt`.
 */
module NaturalNumber {

  import Arithmetic

  /** A natural number in unary: Zero, or the successor of another Nat. */
  datatype Nat = Zero | Succ(Nat)

  /** The optional result of `Pred`: absent for Zero. */
  datatype Option<T> = None | Some(value: T)

  /** The number of Succ layers above Zero: the intended value of a Nat. */
  ghost function Depth(n: Nat): (d: nat)
  {
    match n
    case Zero => 0
    case Succ(m) => 1 + Depth(m)
  }

  /** Integer exponentiation with x^0 = 1 for every x, including 0. */
  ghost function Power(x: nat, k: nat): (p: nat)
  {
    if k == 0 then 1 else x * Power(x, k - 1)
  }

  // ---------------------------------------------------------------------
  // Construction and conversion
  // ---------------------------------------------------------------------

  /**
   * Wraps `accum` in `n` further Succ layers, carrying the partial result in
   * the accumulator. The integer side is a `nat`: a negative argument, on
   * which the original does not return (it crashes), cannot be passed.
   * The contract counts layers with `Depth` rather than `ToInt`, because
   * `ToInt` itself calls `FromInt`; `ToInt`'s contract equates the two.
   */
  function FromInt(n: nat, accum: Nat := Zero): (r: Nat)
    ensures Depth(r) == n + Depth(accum)
  {
    if n == 0 then accum else FromInt(n - 1, Succ(accum))
  }

  /**
   * The integer value of a Nat. As in the original, the test for zero is the
   * Nat equality `Eq` against the literal 0 and the recursive step goes
   * through the saturating subtraction of the literal 1; both literals are
   * built with `FromInt`, as integer-literal conversion does.
   */
  function ToInt(n: Nat): (r: nat)
    ensures r == Depth(n)
    decreases Depth(n)
  {
    if Eq(n, FromInt(0)) then 0
    else
      assert FromInt(1) == Succ(Zero);
      1 + ToInt(Sub(n, FromInt(1)))
  }

  /** Construction from an integer literal: the value is the literal. */
  function Literal(value: nat): (r: Nat)
    ensures ToInt(r) == value
  {
    FromInt(value)
  }

  /** The `integerValue` accessor; converting it back gives the same Nat. */
  function IntegerValue(n: Nat): (v: nat)
    ensures FromInt(v) == n
  {
    FromIntInverse(n);
    ToInt(n)
  }

  // ---------------------------------------------------------------------
  // Arithmetic
  // ---------------------------------------------------------------------

  /** Addition, moving one Succ at a time from `a` onto `b`. */
  function Add(a: Nat, b: Nat): (r: Nat)
    ensures ToInt(r) == ToInt(a) + ToInt(b)
  {
    match (a, b)
    case (_, Zero) => a
    case (Zero, _) => b
    case (Succ(predA), _) => Add(predA, Succ(b))
  }

  /**
   * Subtraction that stops at Zero instead of going negative: a larger
   * subtrahend gives Zero, otherwise the result has as many Succ layers as
   * the difference. Stated with `Depth`, because `ToInt` calls `Sub`.
   */
  function Sub(a: Nat, b: Nat): (r: Nat)
    ensures Depth(a) < Depth(b) ==> r == Zero
    ensures Depth(a) >= Depth(b) ==> Depth(r) == Depth(a) - Depth(b)
  {
    match (a, b)
    case (Zero, Zero) | (Zero, Succ(_)) => Zero
    case (Succ(_), Zero) => a
    case (Succ(predA), Succ(predB)) => Sub(predA, predB)
  }

  /** Multiplication as repeated addition. */
  function Mul(a: Nat, b: Nat): (r: Nat)
    ensures ToInt(r) == ToInt(a) * ToInt(b)
  {
    match (a, b)
    case (_, Zero) | (Zero, _) => Zero
    case (Succ(predA), _) =>
      var p := Mul(predA, b);
      MulStep(predA, b, p);
      Add(p, b)
  }

  /** One more copy of `b` on top of `predA * b` is `Succ(predA) * b`. */
  lemma MulStep(predA: Nat, b: Nat, p: Nat)
    requires ToInt(p) == ToInt(predA) * ToInt(b)
    ensures ToInt(Add(p, b)) == ToInt(Succ(predA)) * ToInt(b)
  {
    var x, y := ToInt(predA), ToInt(b);
    assert ToInt(Succ(predA)) == x + 1;
    Arithmetic.MulSuccLeft(x, y);
  }

  /**
   * Exponentiation as repeated multiplication. The zero-exponent case is
   * matched first, so Zero to the power Zero is Succ(Zero).
   */
  function Pow(a: Nat, b: Nat): (r: Nat)
    ensures ToInt(r) == Power(ToInt(a), ToInt(b))
  {
    match (a, b)
    case (_, Zero) => Succ(Zero)
    case (Zero, Succ(predB)) =>
      PowerStep(0, ToInt(predB));
      Zero
    case (Succ(_), Succ(predB)) =>
      var p := Pow(a, predB);
      assert ToInt(b) == ToInt(predB) + 1;
      PowerStep(ToInt(a), ToInt(predB));
      Mul(a, p)
  }

  /** One more factor in the exponent multiplies by the base once more. */
  lemma PowerStep(x: nat, k: nat)
    ensures Power(x, k + 1) == x * Power(x, k)
  {
  }

  // ---------------------------------------------------------------------
  // Equality and ordering
  // ---------------------------------------------------------------------

  /** Structural equality, peeling one Succ from each side per step. */
  function Eq(a: Nat, b: Nat): (r: bool)
    ensures r <==> a == b
  {
    match (a, b)
    case (Zero, Zero) => true
    case (Zero, Succ(_)) | (Succ(_), Zero) => false
    case (Succ(predA), Succ(predB)) => Eq(predA, predB)
  }

  /** Strict ordering; nothing is below Zero. */
  function Less(a: Nat, b: Nat): (r: bool)
    ensures r <==> ToInt(a) < ToInt(b)
  {
    match (a, b)
    case (Zero, Succ(_)) => true
    case (_, Zero) => false
    case (Succ(predA), Succ(predB)) => Less(predA, predB)
  }

  /**
   * The absolute difference: the larger minus the smaller. The original's
   * test `a > b` is the library default `b < a`.
   */
  function Distance(a: Nat, b: Nat): (r: Nat)
    ensures ToInt(r) ==
      if ToInt(a) >= ToInt(b) then ToInt(a) - ToInt(b) else ToInt(b) - ToInt(a)
  {
    if Less(b, a) then Sub(a, b) else Sub(b, a)
  }

  /**
   * The remainder, by subtracting the divisor while the dividend is not
   * smaller than it. With a Zero divisor the original calls itself on the
   * same arguments for ever (see ModByZeroMakesNoProgress), hence the
   * precondition; the measure is the dividend's value.
   */
  function Mod(a: Nat, b: Nat): (r: Nat)
    requires b != Zero
    ensures Less(r, b)
    ensures ToInt(r) == ToInt(a) % ToInt(b)
    decreases ToInt(a)
  {
    if Less(a, b) then
      Arithmetic.ModOfSmaller(ToInt(a), ToInt(b));
      a
    else
      var d := Distance(a, b);
      assert ToInt(d) == ToInt(a) - ToInt(b) < ToInt(a);
      var r := Mod(d, b);
      Arithmetic.ModOfDifference(ToInt(a), ToInt(b));
      r
  }

  /** The predecessor: absent for Zero, the inner Nat for a Succ. */
  function Pred(n: Nat): (r: Option<Nat>)
    ensures r.None? <==> n == Zero
    ensures r.Some? ==> Succ(r.value) == n && ToInt(r.value) + 1 == ToInt(n)
  {
    match n
    case Zero => None
    case Succ(p) => Some(p)
  }

  // ---------------------------------------------------------------------
  // Conversion properties
  // ---------------------------------------------------------------------

  /** A Nat is determined by its value: equal values mean equal Nats. */
  lemma {:induction false} ToIntInjective(a: Nat, b: Nat)
    requires ToInt(a) == ToInt(b)
    ensures a == b
  {
    match (a, b)
    case (Zero, Zero) =>
    case (Succ(predA), Succ(predB)) => ToIntInjective(predA, predB);
    case (Zero, Succ(_)) =>
    case (Succ(_), Zero) =>
  }

  /** Converting a Nat to an integer and back gives the same Nat. */
  lemma FromIntInverse(n: Nat)
    ensures FromInt(ToInt(n)) == n
  {
    ToIntInjective(FromInt(ToInt(n)), n);
  }

  // ---------------------------------------------------------------------
  // Addition
  // ---------------------------------------------------------------------

  /** Zero is a left and a right identity of addition. */
  lemma AddIdentity(a: Nat)
    ensures Add(a, Zero) == a && Add(Zero, a) == a
  {
  }

  lemma AddCommutative(a: Nat, b: Nat)
    ensures Add(a, b) == Add(b, a)
  {
    ToIntInjective(Add(a, b), Add(b, a));
  }

  lemma AddAssociative(a: Nat, b: Nat, c: Nat)
    ensures Add(Add(a, b), c) == Add(a, Add(b, c))
  {
    ToIntInjective(Add(Add(a, b), c), Add(a, Add(b, c)));
  }

  // ---------------------------------------------------------------------
  // Subtraction
  // ---------------------------------------------------------------------

  /** Subtracting Zero changes nothing. */
  lemma SubZero(a: Nat)
    ensures Sub(a, Zero) == a
  {
  }

  // ---------------------------------------------------------------------
  // Multiplication
  // ---------------------------------------------------------------------

  /** Zero annihilates on either side. */
  lemma MulZero(a: Nat)
    ensures Mul(a, Zero) == Zero && Mul(Zero, a) == Zero
  {
  }

  lemma MulCommutative(a: Nat, b: Nat)
    ensures Mul(a, b) == Mul(b, a)
  {
    ToIntInjective(Mul(a, b), Mul(b, a));
  }

  /**
   * The recursive case of `*` holds whatever the right operand is, Zero
   * included: `Succ(predA) * b == predA * b + b`.
   */
  lemma MulSuccUnfold(predA: Nat, b: Nat)
    ensures Mul(Succ(predA), b) == Add(Mul(predA, b), b)
  {
  }

  /** Exchanging the middle two of four summands. */
  lemma AddExchange(w: Nat, x: Nat, y: Nat, z: Nat)
    ensures Add(Add(w, x), Add(y, z)) == Add(Add(w, y), Add(x, z))
  {
    ToIntInjective(Add(Add(w, x), Add(y, z)), Add(Add(w, y), Add(x, z)));
  }

  /** Left distributivity, by induction on the left factor. */
  lemma {:induction false} MulDistributesOverAdd(a: Nat, b: Nat, c: Nat)
    ensures Mul(a, Add(b, c)) == Add(Mul(a, b), Mul(a, c))
  {
    match a
    case Zero =>
    case Succ(predA) =>
      MulDistributesOverAdd(predA, b, c);
      MulSuccUnfold(predA, Add(b, c));
      MulSuccUnfold(predA, b);
      MulSuccUnfold(predA, c);
      AddExchange(Mul(predA, b), Mul(predA, c), b, c);
  }

  // ---------------------------------------------------------------------
  // Exponentiation
  // ---------------------------------------------------------------------

  /** Every base, Zero included, to the power Zero is one. */
  lemma PowZeroExponent(a: Nat)
    ensures Pow(a, Zero) == Succ(Zero)
  {
  }

  /** Zero to any positive power is Zero. */
  lemma PowZeroBase(b: Nat)
    ensures Pow(Zero, Succ(b)) == Zero
  {
  }

  // ---------------------------------------------------------------------
  // Equality and ordering
  // ---------------------------------------------------------------------

  /** Structural equality is equality of values. */
  lemma EqValue(a: Nat, b: Nat)
    ensures Eq(a, b) <==> ToInt(a) == ToInt(b)
  {
    if ToInt(a) == ToInt(b) {
      ToIntInjective(a, b);
    }
  }

  lemma LessIrreflexive(a: Nat)
    ensures !Less(a, a)
  {
  }

  lemma LessTransitive(a: Nat, b: Nat, c: Nat)
    requires Less(a, b) && Less(b, c)
    ensures Less(a, c)
  {
  }

  /** Exactly one of a < b, a == b and b < a holds. */
  lemma Trichotomy(a: Nat, b: Nat)
    ensures Less(a, b) || Eq(a, b) || Less(b, a)
    ensures !(Less(a, b) && Eq(a, b))
    ensures !(Less(a, b) && Less(b, a))
    ensures !(Eq(a, b) && Less(b, a))
  {
    EqValue(a, b);
  }

  // ---------------------------------------------------------------------
  // Distance, modulus
  // ---------------------------------------------------------------------

  lemma DistanceSymmetric(a: Nat, b: Nat)
    ensures Distance(a, b) == Distance(b, a)
  {
    ToIntInjective(Distance(a, b), Distance(b, a));
  }

  /** A dividend below the divisor is its own remainder. */
  lemma ModSmallDividend(a: Nat, b: Nat)
    requires b != Zero && Less(a, b)
    ensures Mod(a, b) == a
  {
  }

  /**
   * With a Zero divisor the recursive step of the remainder is never the
   * base case and is taken on the very same arguments, so the original's
   * recursion does not end.
   */
  lemma ModByZeroMakesNoProgress(a: Nat)
    ensures !Less(a, Zero) && Distance(a, Zero) == a
  {
  }
}
