# Peano natural numbers, verified

A model of `Nat`, a unary natural-number type: a value is `Zero` or
`Succ(n)`, and conversion, addition, saturating subtraction,
multiplication, exponentiation, equality, strict ordering, distance,
remainder and predecessor are all defined by structural recursion over that
shape. The model keeps the original's definitions case for case:

- same match order, so `Zero ^ Zero` is `Succ(Zero)`;
- `toInt` goes through the type's own `==` and saturating `-` against the
  literals 0 and 1;
- `distance` tests `a > b` as `b < a`;
- the remainder subtracts through `distance`.

Each operation is then proved to agree with the integer operation it stands
for.

Files:

- `natural_number.dfy` (module `NaturalNumber`): the datatype, the
  operators, and the lemmas about them. `Depth`, the count of `Succ`
  layers, is the reference meaning. `ToInt` is proved equal to it. `ToInt`
  itself calls `FromInt`, `Sub` and `Eq`: `FromInt` and `Sub` are stated
  with `Depth`, and `Eq` as structural equality (its value statement is the
  lemma `EqValue`). Every other operator is stated in terms of `ToInt`.
- `arithmetic.dfy` (module `Arithmetic`): integer facts about
  multiplication and remainder that the multiplication and remainder proofs
  need.
- `demo.dfy` (module `Demo`): the sample values the original prints,
  restated as equalities between `Nat`s and as the Boolean results of `==`
  and `<`.

Integer arguments are Dafny `nat`s. Integer-literal conversion is the
explicit call `Literal(k)`, which is `FromInt(k)`.

## Model

| member | source | states |
|---|---|---|
| NaturalNumber.ToInt | NaturalNumber/main.swift:24-29 | the value computed through `==` and saturating `-` is the number of `Succ` layers, and the recursion terminates |
| NaturalNumber.FromInt | NaturalNumber/main.swift:17-22 | `fromInt(n, accum)` wraps `accum` in exactly n more `Succ`s: its `Succ` count, which `ToInt` equals, is n plus the accumulator's |
| NaturalNumber.Literal | NaturalNumber/main.swift:13-15 | a Nat built from the integer literal k has value k (`toInt(fromInt(k)) == k`) |
| NaturalNumber.IntegerValue | NaturalNumber/main.swift:31-33 | converting `integerValue` back with `fromInt` gives the same Nat |
| NaturalNumber.FromIntInverse | NaturalNumber/main.swift:17-29 | `fromInt(toInt(n)) == n` for every Nat |
| NaturalNumber.ToIntInjective | NaturalNumber/main.swift:24-29 | Nats with equal integer values are equal |
| NaturalNumber.Add | NaturalNumber/main.swift:41-50 | the value of `a + b` is the sum of the values |
| NaturalNumber.AddIdentity | NaturalNumber/main.swift:43-46 | `Zero` is a left and right identity of `+` |
| NaturalNumber.AddCommutative | NaturalNumber/main.swift:41-50 | `a + b == b + a` |
| NaturalNumber.AddAssociative | NaturalNumber/main.swift:41-50 | `(a + b) + c == a + (b + c)` |
| NaturalNumber.Sub | NaturalNumber/main.swift:53-62 | `a - b` is `Zero` when a has fewer `Succ`s than b, and otherwise has `Depth(a) - Depth(b)` of them, which by `ToInt`'s contract is `toInt(a) - toInt(b)` |
| NaturalNumber.SubZero | NaturalNumber/main.swift:55-58 | `a - Zero == a` |
| NaturalNumber.Mul | NaturalNumber/main.swift:65-72 | the value of `a * b` is the product of the values |
| NaturalNumber.MulZero | NaturalNumber/main.swift:67-68 | `Zero` annihilates on either side of `*` |
| NaturalNumber.MulCommutative | NaturalNumber/main.swift:65-72 | `a * b == b * a` |
| NaturalNumber.MulDistributesOverAdd | NaturalNumber/main.swift:65-72 | `a * (b + c) == a * b + a * c` |
| NaturalNumber.Pow | NaturalNumber/main.swift:75-84 | the value of `a ^ b` is `toInt(a)` raised to `toInt(b)`, with 0 to the power 0 being 1 |
| NaturalNumber.PowZeroExponent | NaturalNumber/main.swift:77-78 | `a ^ Zero == Succ(Zero)` for every a, `Zero` included |
| NaturalNumber.PowZeroBase | NaturalNumber/main.swift:79-80 | `Zero ^ Succ(b) == Zero` |
| NaturalNumber.Eq | NaturalNumber/main.swift:88-97 | `==` holds exactly when the two Nats are structurally identical |
| NaturalNumber.EqValue | NaturalNumber/main.swift:88-97 | `==` holds exactly when the integer values are equal |
| NaturalNumber.Less | NaturalNumber/main.swift:101-110 | `a < b` holds exactly when `toInt(a) < toInt(b)` |
| NaturalNumber.LessIrreflexive | NaturalNumber/main.swift:101-110 | `a < a` never holds |
| NaturalNumber.LessTransitive | NaturalNumber/main.swift:101-110 | `a < b` and `b < c` give `a < c` |
| NaturalNumber.Trichotomy | NaturalNumber/main.swift:88-110 | exactly one of `a < b`, `a == b`, `b < a` holds |
| NaturalNumber.Distance | NaturalNumber/main.swift:113-118 | the value of `distance(a, b)` is the absolute difference of the values |
| NaturalNumber.DistanceSymmetric | NaturalNumber/main.swift:113-118 | `distance(a, b) == distance(b, a)` |
| NaturalNumber.Mod | NaturalNumber/main.swift:121-126 | for a non-zero divisor the remainder is below the divisor and its value is `toInt(a) % toInt(b)` |
| NaturalNumber.ModSmallDividend | NaturalNumber/main.swift:122-123 | a dividend below the divisor is its own remainder |
| NaturalNumber.ModByZeroMakesNoProgress | NaturalNumber/main.swift:121-126 | with divisor `Zero` the base case never applies and the recursive call gets the same dividend, so the original does not terminate |
| NaturalNumber.Pred | NaturalNumber/main.swift:130-137 | `pred` is absent exactly for `Zero`; otherwise it returns the Nat one below |
| Demo.AdditionAndSubtraction | NaturalNumber/main.swift:150-151 | `1 + 2 == 3`, `4 - 2 == 2` |
| Demo.Multiplication | NaturalNumber/main.swift:152-154 | `4 * 0 == 0`, `4 * 1 == 4`, `4 * 2 == 8` |
| Demo.Exponentiation | NaturalNumber/main.swift:156-158 | `2 ^ 1 == 2`, `2 ^ 4 == 16`, `3 ^ 2 == 9` |
| Demo.EqualityAndOrdering | NaturalNumber/main.swift:160-171 | `2 == 1` is false, `2 == 2` is true, `2 < 1` is false, `1 < 3` is true, `1 > 3` and `2 > 2` are false |
| Demo.Remainders | NaturalNumber/main.swift:164-166 | `2 % 2 == 0`, `1 % 2 == 1`, `(5 + 5) % 4 == 2` |
| Demo.PredecessorAndDistance | NaturalNumber/main.swift:176-180 | `pred(Zero)` is absent, `pred(3) == 2`, `distance(3, 1) == 2`, and `distance(2, 1) == distance(1, 2)` |

## Left out

- `description` (main.swift:35-37): decimal formatting by the host library; no logic of its own.
- The integer-literal protocol (main.swift:13-15): modelled as the explicit call `Literal(k)`.
- The `print` calls of the sample block (main.swift:140-180): only their values are restated, in `Demo`.
- `!=`, `>`, `min` and `max`: these come from the host library's equality and ordering defaults. `>` is written as `b < a` where `distance` uses it. The `min(2, 3)` and `max(1, 2, 3)` sample lines are not restated.
- Negative arguments to `fromInt`: the original does not return on them (it crashes, by stack overflow or by the overflow trap of `n-1` at the smallest `Int`). The model's `FromInt` takes a `nat`, so they cannot be passed.
- Machine-integer overflow in `toInt` and `fromInt`: the integer side is unbounded.
- Stack depth: every operation recurses as deep as its operands' values, and the model says nothing about that cost.
- NaturalNumber.Mod: requires a non-zero divisor. With `Zero` the original never returns, and `ModByZeroMakesNoProgress` shows why.
