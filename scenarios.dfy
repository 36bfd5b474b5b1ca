/** The checks that `main` in Rational.kt prints, stated as lemmas: each holds
    for the canonical model and, where the check goes through `equals` or
    `toString`, for the source's own members as written too. */
module Scenarios {
  import opened Integers
  import opened Wrappers
  import opened Decimal
  import opened Rationals
  import opened Operators
  import opened AsWritten

  /** `5 divBy 6 == 1 divBy 2 + 1 divBy 3`. */
  lemma SumScenario()
    ensures IntDivBy(5, 6).Ok? && IntDivBy(1, 2).Ok? && IntDivBy(1, 3).Ok?
    ensures Equals(IntDivBy(5, 6).value, Some(Plus(IntDivBy(1, 2).value, IntDivBy(1, 3).value)))
    ensures EqualsAsWritten(IntDivBy(5, 6).value, Some(Plus(IntDivBy(1, 2).value, IntDivBy(1, 3).value)))
  {
  }

  /** `1 divBy 6 == 1 divBy 2 - 1 divBy 3`. */
  lemma DifferenceScenario()
    ensures IntDivBy(1, 6).Ok? && IntDivBy(1, 2).Ok? && IntDivBy(1, 3).Ok?
    ensures Equals(IntDivBy(1, 6).value, Some(Minus(IntDivBy(1, 2).value, IntDivBy(1, 3).value)))
    ensures EqualsAsWritten(IntDivBy(1, 6).value, Some(Minus(IntDivBy(1, 2).value, IntDivBy(1, 3).value)))
  {
  }

  /** `1 divBy 6 == 1 divBy 2 * 1 divBy 3`. */
  lemma ProductScenario()
    ensures IntDivBy(1, 6).Ok? && IntDivBy(1, 2).Ok? && IntDivBy(1, 3).Ok?
    ensures Equals(IntDivBy(1, 6).value, Some(Times(IntDivBy(1, 2).value, IntDivBy(1, 3).value)))
    ensures EqualsAsWritten(IntDivBy(1, 6).value, Some(Times(IntDivBy(1, 2).value, IntDivBy(1, 3).value)))
  {
  }

  /** `3 divBy 2 == (1 divBy 2) / (1 divBy 3)`. */
  lemma QuotientScenario()
    ensures IntDivBy(3, 2).Ok? && IntDivBy(1, 2).Ok? && IntDivBy(1, 3).Ok?
    ensures Div(IntDivBy(1, 2).value, IntDivBy(1, 3).value).Ok?
    ensures Equals(IntDivBy(3, 2).value, Some(Div(IntDivBy(1, 2).value, IntDivBy(1, 3).value).value))
    ensures EqualsAsWritten(IntDivBy(3, 2).value, Some(Div(IntDivBy(1, 2).value, IntDivBy(1, 3).value).value))
  {
  }

  /** `-1 divBy 2 == -(1 divBy 2)`. */
  lemma NegationScenario()
    ensures IntDivBy(-1, 2).Ok? && IntDivBy(1, 2).Ok?
    ensures Equals(IntDivBy(-1, 2).value, Some(UnaryMinus(IntDivBy(1, 2).value)))
    ensures EqualsAsWritten(IntDivBy(-1, 2).value, Some(UnaryMinus(IntDivBy(1, 2).value)))
  {
  }

  /** `(2 divBy 1).toString() == "2"`. */
  lemma WholeNumberTextScenario()
    ensures IntDivBy(2, 1).Ok?
    ensures ToString(IntDivBy(2, 1).value) == "2"
    ensures ToStringAsWritten(IntDivBy(2, 1).value) == "2"
  {
    var r := Rational(2, 1);
    assert Format(r) == "2" by { assert IntToString(2) == "2"; }
    assert Gcd(2, 1) == 1;
    assert ToString(r) == "2" by { CanonicalOfReduced(r); }
    assert Reduce(AdjustSigns(r)) == r;
  }

  /** `(-2 divBy 4).toString() == "-1/2"`. */
  lemma NegativeFractionTextScenario()
    ensures IntDivBy(-2, 4).Ok?
    ensures ToString(IntDivBy(-2, 4).value) == "-1/2"
    ensures ToStringAsWritten(IntDivBy(-2, 4).value) == "-1/2"
  {
    var r, c := Rational(-2, 4), Rational(-1, 2);
    assert Format(c) == "-1/2" by { assert IntToString(-1) == "-1" && IntToString(2) == "2"; }
    HalfOfMinusTwoQuarters();
    assert AdjustSigns(r) == r;
  }

  lemma HalfOfMinusTwoQuarters()
    ensures Canonical(Rational(-2, 4)) == Rational(-1, 2)
    ensures Reduce(Rational(-2, 4)) == Rational(-1, 2)
  {
    var r, c := Rational(-2, 4), Rational(-1, 2);
    assert Gcd(1, 2) == 1;
    CanonicalOfReduced(c);
    SameValueIff(r, c);
    CanonicalUnique(r, c);
    assert Gcd(2, 4) == 2;
  }

  /** `"117/1098".toRational().toString() == "13/122"`. */
  lemma ParsedTextScenario()
    ensures ToRational("117/1098") == Ok(Rational(117, 1098))
    ensures ToString(Rational(117, 1098)) == "13/122"
    ensures ToStringAsWritten(Rational(117, 1098)) == "13/122"
  {
    Numerals();
    ParseOfLiteral();
    TextOfReduced();
  }

  lemma ParseOfLiteral()
    requires IntToString(117) == "117" && IntToString(1098) == "1098"
    ensures ToRational("117/1098") == Ok(Rational(117, 1098))
  {
    ToRationalOfPair(117, 1098);
    assert IntToString(117) + "/" + IntToString(1098) == "117/1098";
  }

  lemma TextOfReduced()
    requires IntToString(13) == "13" && IntToString(122) == "122"
    ensures ToString(Rational(117, 1098)) == "13/122"
    ensures ToStringAsWritten(Rational(117, 1098)) == "13/122"
  {
    var r, c := Rational(117, 1098), Rational(13, 122);
    assert Format(c) == "13/122";
    CanonicalOfLiteral();
    ReduceOfLiteral();
    assert AdjustSigns(r) == r;
  }

  lemma CanonicalOfLiteral()
    ensures Canonical(Rational(117, 1098)) == Rational(13, 122)
  {
    var r, c := Rational(117, 1098), Rational(13, 122);
    assert Gcd(13, 122) == 1 by {
      assert Gcd(13, 122) == Gcd(122, 13) == Gcd(13, 5) == Gcd(5, 3);
      assert Gcd(5, 3) == Gcd(3, 2) == Gcd(2, 1) == Gcd(1, 0);
    }
    CanonicalOfReduced(c);
    SameValueIff(r, c);
    CanonicalUnique(r, c);
  }

  lemma ReduceOfLiteral()
    ensures Reduce(Rational(117, 1098)) == Rational(13, 122)
  {
    GcdOfLiteral();
  }

  lemma GcdOfLiteral()
    ensures Gcd(117, 1098) == 9
  {
    assert Gcd(9, 0) == 9;
    assert Gcd(18, 9) == 9;
    assert Gcd(27, 18) == 9;
    assert Gcd(45, 27) == 9;
    assert Gcd(117, 45) == 9;
    assert Gcd(1098, 117) == 9;
  }

  /** The decimal text of the numbers in ParsedTextScenario, digit by digit. */
  lemma Numerals()
    ensures IntToString(117) == "117" && IntToString(1098) == "1098"
    ensures IntToString(13) == "13" && IntToString(122) == "122"
  {
    assert NatToString(1) == "1" && NatToString(11) == "11";
    assert NatToString(10) == "10" && NatToString(109) == "109";
    assert NatToString(12) == "12";
  }

  /** `1 divBy 2 < 2 divBy 3`. */
  lemma OrderScenario()
    ensures IntDivBy(1, 2).Ok? && IntDivBy(2, 3).Ok?
    ensures Less(IntDivBy(1, 2).value, IntDivBy(2, 3).value)
  {
  }

  /** `1 divBy 2 in 1 divBy 3..2 divBy 3`. */
  lemma RangeScenario()
    ensures IntDivBy(1, 2).Ok? && IntDivBy(1, 3).Ok? && IntDivBy(2, 3).Ok?
    ensures Contains(RangeTo(IntDivBy(1, 3).value, IntDivBy(2, 3).value), IntDivBy(1, 2).value)
  {
  }

  /** `2000000000L divBy 4000000000L == 1 divBy 2`. */
  lemma LongScenario()
    ensures LongDivBy(2000000000, 4000000000).Ok? && IntDivBy(1, 2).Ok?
    ensures Equals(LongDivBy(2000000000, 4000000000).value, Some(IntDivBy(1, 2).value))
    ensures EqualsAsWritten(LongDivBy(2000000000, 4000000000).value, Some(IntDivBy(1, 2).value))
  {
  }

  /** The 39- and 40-digit pair of `main` equals 1 divBy 2. `main` reads the two
      numbers from text with `toBigInteger`; here they are integer literals, so
      this lemma does not cover that reading, which `ParseInt` models. */
  lemma BigIntegerScenario()
    ensures BigIntegerDivBy(912016490186296920119201192141970416029, 1824032980372593840238402384283940832058).Ok?
    ensures IntDivBy(1, 2).Ok?
    ensures Equals(BigIntegerDivBy(912016490186296920119201192141970416029, 1824032980372593840238402384283940832058).value, Some(IntDivBy(1, 2).value))
    ensures EqualsAsWritten(BigIntegerDivBy(912016490186296920119201192141970416029, 1824032980372593840238402384283940832058).value, Some(IntDivBy(1, 2).value))
  {
  }

  /** `String.toRational` with a zero denominator fails as construction does. */
  lemma ZeroDenominatorText()
    ensures ToRational("1/0") == Err(InvalidArgument)
  {
    assert IntToString(1) == "1" && IntToString(0) == "0";
    ToRationalOfPair(1, 0);
    assert "1" + "/" + "0" == "1/0";
  }

  /** An unreadable numerator or denominator is a parse failure, even when the
      other piece would make the denominator zero. */
  lemma UnreadableTokenText()
    ensures ToRational("x/0") == Err(ParseError)
    ensures ToRational("1/y") == Err(ParseError)
  {
    SplitTwo("x", "0");
    assert "x" + "/" + "0" == "x/0";
    SplitTwo("1", "y");
    assert "1" + "/" + "y" == "1/y";
  }

  /** A lone '/' splits into two empty pieces, neither of which is a number. */
  lemma EmptyTokensText()
    ensures ToRational("/") == Err(ParseError)
  {
    SplitTwo("", "");
    assert "" + "/" + "" == "/";
  }

  /** Pieces after the second are ignored. */
  lemma ExtraTokenText()
    ensures ToRational("1/2/x") == Ok(Rational(1, 2))
  {
    assert IntToString(1) == "1" && IntToString(2) == "2";
    ToRationalIgnoresExtraTokens("1", "2", "x");
    ToRationalOfPair(1, 2);
    assert "1" + "/" + "2" + "/" + "x" == "1/2/x";
    assert "1" + "/" + "2" == "1/2";
  }

  /** Without a '/', the whole text is one integer: a leading '+' is accepted,
      a lone sign or empty text is not. */
  lemma IntegerText()
    ensures ToRational("+3") == Ok(Rational(3, 1))
    ensures ToRational("-") == Err(ParseError)
    ensures ToRational("") == Err(ParseError)
  {
    assert "+3"[1..] == "3";
  }
}
