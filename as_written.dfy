/** The class's `equals` and `toString` as Rational.kt writes them. Both move
    the sign with two conditions that compare the numerator against 1, so a
    numerator of exactly 1 keeps a negative denominator, and `toString` prints
    a numerator of 1 alone. The lemmas here say exactly when each member agrees
    with the canonical version in Rationals, and give an input where it does
    not; the rest of the model uses the canonical versions. */
module AsWritten {
  import opened Integers
  import opened Wrappers
  import opened Decimal
  import opened Rationals
  import opened Operators

  /** The sign adjustment of both members: a numerator below 1 over a negative
      denominator takes both magnitudes; a numerator above 1 over a negative
      denominator negates the numerator and takes the denominator's magnitude;
      anything else, numerator 1 included, is left alone. The value never
      changes, and a negative denominator survives exactly when the numerator
      is 1. */
  function AdjustSigns(p: Rational): (q: Rational)
    ensures q.num * p.den == p.num * q.den
    ensures Abs(q.den) == Abs(p.den)
    ensures q.den < 0 <==> p.den < 0 && p.num == 1
  {
    if p.num < 1 && p.den < 0 then Rational(Abs(p.num), Abs(p.den))
    else if p.num > 1 && p.den < 0 then Rational(-p.num, Abs(p.den))
    else p
  }

  /** Both parts divided by BigInteger.gcd of the two, with BigInteger's
      truncating division. */
  function Reduce(p: Rational): (q: Rational)
    requires Valid(p)
    ensures q == Rational(p.num / Gcd(Abs(p.num), Abs(p.den)), p.den / Gcd(Abs(p.num), Abs(p.den)))
  {
    var g := Gcd(Abs(p.num), Abs(p.den));
    ReduceByGcd(p.num, p.den);
    MulDivCancel(g, p.num / g);
    MulDivCancel(g, p.den / g);
    QuotExact(p.num, g);
    QuotExact(p.den, g);
    Rational(Quot(p.num, g), Quot(p.den, g))
  }

  /** The pair `equals` compares for one operand: reduce, then adjust signs.
      It is the canonical form except on defective operands, where both signs
      of the canonical form are flipped. */
  function Normalise(r: Rational): (n: Rational)
    requires Valid(r)
    ensures !Defective(r) ==> n == Canonical(r)
    ensures Defective(r) ==> n == Rational(-Canonical(r).num, -Canonical(r).den)
  {
    AdjustSigns(Reduce(r))
  }

  /** `equals` as written: `None` (null or another class) is unequal; otherwise
      the two normalised pairs must match. That agrees with value equality
      except that a defective operand never equals a non-defective one,
      whatever their values. */
  function EqualsAsWritten(a: Rational, other: Option<Rational>): (eq: bool)
    requires Valid(a) && (other.Some? ==> Valid(other.value))
    ensures eq <==> other.Some? && Value(a) == Value(other.value) && Defective(a) == Defective(other.value)
  {
    match other
    case None => false
    case Some(b) =>
      CanonicalUnique(a, b);
      Normalise(a) == Normalise(b)
  }

  /** The operands on which the sign adjustment misfires: reduced numerator 1
      over a negative reduced denominator, that is, the values -1/k. */
  predicate Defective(r: Rational)
    requires Valid(r)
  {
    Reduce(r).num == 1 && Reduce(r).den < 0
  }

  /** 2/-4 and -1/2 are the same number, yet `equals` as written tells them apart. */
  lemma EqualsAsWrittenMissesSign()
    ensures Equals(Rational(2, -4), Some(Rational(-1, 2)))
    ensures !EqualsAsWritten(Rational(2, -4), Some(Rational(-1, 2)))
  {
    SameValueIff(Rational(2, -4), Rational(-1, 2));
    assert Gcd(2, 4) == 2;
  }

  /** `toString` as written: adjust signs first; a numerator of 1 is then printed
      alone as "1", anything else is reduced and formatted, which gives the
      intended text. */
  function ToStringAsWritten(r: Rational): (s: string)
    requires Valid(r)
    ensures AdjustSigns(r).num != 1 ==> s == ToString(r)
    ensures AdjustSigns(r).num == 1 ==> s == "1"
  {
    var p := AdjustSigns(r);
    if p.num != 1 then
      assert p.den > 0;
      SameValueIff(p, r);
      CanonicalUnique(p, r);
      assert Reduce(p) == Canonical(p);
      Format(Reduce(p))
    else
      IntToString(p.num)
  }

  /** `toString` as written prints the canonical text exactly when the
      sign-adjusted numerator is not 1, or the value is 1. */
  lemma ToStringAsWrittenIff(r: Rational)
    requires Valid(r)
    ensures ToStringAsWritten(r) == ToString(r) <==> AdjustSigns(r).num != 1 || r.num == r.den
  {
    var p := AdjustSigns(r);
    var one := Rational(1, 1);
    CanonicalOfReduced(one);
    assert Format(one) == ToString(one);
    if p.num == 1 {
      ToStringInjective(r, one);
      SameValueIff(r, one);
    }
  }

  /** 1/2 is printed as "1". */
  lemma ToStringAsWrittenDropsDenominator()
    ensures ToStringAsWritten(Rational(1, 2)) == "1"
    ensures ToString(Rational(1, 2)) == "1/2"
  {
    assert IntToString(1) == "1" && IntToString(2) == "2";
    assert Canonical(Rational(1, 2)) == Rational(1, 2) by {
      assert Gcd(1, 2) == 1;
      CanonicalOfReduced(Rational(1, 2));
    }
  }

  /** 1/-1 is printed as "1". */
  lemma ToStringAsWrittenDropsSign()
    ensures ToStringAsWritten(Rational(1, -1)) == "1"
    ensures ToString(Rational(1, -1)) == "-1"
  {
    assert IntToString(1) == "1" && IntToString(-1) == "-1";
    var r, c := Rational(1, -1), Rational(-1, 1);
    assert Gcd(1, 1) == 1;
    CanonicalOfReduced(c);
    SameValueIff(r, c);
    CanonicalUnique(r, c);
  }
}
