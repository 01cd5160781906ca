/**
 * The sample values the original prints after its definitions, restated as
 * equalities between Nats and as the Boolean results of `Eq` and `Less`
 * (printing itself is not modelled).
 */
module Demo {

  import opened NaturalNumber

  lemma AdditionAndSubtraction()
    ensures Add(Succ(Zero), Succ(Succ(Zero))) == Literal(3)
    ensures Sub(Literal(4), Succ(Succ(Zero))) == Succ(Succ(Zero))
  {
    var one, two := Succ(Zero), Succ(Succ(Zero));
    ToIntInjective(Add(one, two), Literal(3));
    ToIntInjective(Sub(Literal(4), two), two);
  }

  lemma Multiplication()
    ensures Mul(Literal(4), Zero) == Zero
    ensures Mul(Literal(4), Succ(Zero)) == Literal(4)
    ensures Mul(Literal(4), Succ(Succ(Zero))) == Literal(8)
  {
    ToIntInjective(Mul(Literal(4), Succ(Zero)), Literal(4));
    ToIntInjective(Mul(Literal(4), Succ(Succ(Zero))), Literal(8));
  }

  lemma Exponentiation()
    ensures Pow(Succ(Succ(Zero)), Succ(Zero)) == Succ(Succ(Zero))
    ensures Pow(Succ(Succ(Zero)), Literal(4)) == Literal(16)
    ensures Pow(Literal(3), Succ(Succ(Zero))) == Literal(9)
  {
    var two := Succ(Succ(Zero));
    assert Power(2, 4) == 16;
    ToIntInjective(Pow(two, Literal(4)), Literal(16));
    assert Power(3, 2) == 9;
    ToIntInjective(Pow(Literal(3), two), Literal(9));
  }

  lemma EqualityAndOrdering()
    ensures !Eq(Succ(Succ(Zero)), Succ(Zero))
    ensures Eq(Succ(Succ(Zero)), Succ(Succ(Zero)))
    ensures !Less(Succ(Succ(Zero)), Succ(Zero))
    ensures Less(Succ(Zero), Literal(3))
    ensures !Less(Literal(3), Succ(Zero))
    ensures !Less(Succ(Succ(Zero)), Succ(Succ(Zero)))
  {
  }

  lemma Remainders()
    ensures Mod(Succ(Succ(Zero)), Succ(Succ(Zero))) == Zero
    ensures Mod(Succ(Zero), Succ(Succ(Zero))) == Succ(Zero)
    ensures Mod(Add(Literal(5), Literal(5)), Literal(4)) == Succ(Succ(Zero))
  {
    var two := Succ(Succ(Zero));
    ToIntInjective(Mod(two, two), Zero);
    var r := Mod(Add(Literal(5), Literal(5)), Literal(4));
    assert ToInt(r) == 10 % 4 == 2;
    ToIntInjective(r, two);
  }

  lemma PredecessorAndDistance()
    ensures Pred(Zero) == None
    ensures Pred(Literal(3)) == Some(Succ(Succ(Zero)))
    ensures Distance(Literal(3), Succ(Zero)) == Succ(Succ(Zero))
    ensures Distance(Succ(Succ(Zero)), Succ(Zero)) == Distance(Succ(Zero), Succ(Succ(Zero)))
  {
    ToIntInjective(Pred(Literal(3)).value, Succ(Succ(Zero)));
    ToIntInjective(Distance(Literal(3), Succ(Zero)), Succ(Succ(Zero)));
    DistanceSymmetric(Succ(Succ(Zero)), Succ(Zero));
  }
}
