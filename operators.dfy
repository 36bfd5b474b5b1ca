/** The top-level declarations of Rational.kt around the class: the arithmetic
    operators, the inclusive range, the `divBy` constructors from Int, Long and
    BigInteger, and `String.toRational`. Every operator returns a new Rational
    and none of them reduces its result. */
module Operators {
  import opened Integers
  import opened Wrappers
  import opened Decimal
  import opened Rationals

  // ---------------------------------------------------------------------------
  // Arithmetic

  /** `unaryMinus`: negate the numerator, keep the denominator. */
  function UnaryMinus(a: Rational): (r: Rational)
    requires Valid(a)
    ensures Valid(r) && Value(r) == -Value(a)
    ensures r.den == a.den
  {
    Rational(-a.num, a.den)
  }

  /** `plus`: equal denominators add the numerators over the shared denominator;
      otherwise cross-multiply. Either way the value is the exact sum. */
  function Plus(a: Rational, b: Rational): (r: Rational)
    requires Valid(a) && Valid(b)
    ensures Valid(r) && Value(r) == Value(a) + Value(b)
  {
    if a.den == b.den then
      SameDenominatorSum(a.num, b.num, a.den);
      Rational(a.num + b.num, a.den)
    else
      CrossSum(a.num, a.den, b.num, b.den);
      Rational(a.num * b.den + b.num * a.den, a.den * b.den)
  }

  /** `minus`: the same two paths as `plus`, subtracting. */
  function Minus(a: Rational, b: Rational): (r: Rational)
    requires Valid(a) && Valid(b)
    ensures Valid(r) && Value(r) == Value(a) - Value(b)
  {
    if a.den == b.den then
      SameDenominatorDifference(a.num, b.num, a.den);
      Rational(a.num - b.num, a.den)
    else
      CrossDifference(a.num, a.den, b.num, b.den);
      Rational(a.num * b.den - b.num * a.den, a.den * b.den)
  }

  /** `times`: numerators times numerators over denominators times denominators. */
  function Times(a: Rational, b: Rational): (r: Rational)
    requires Valid(a) && Valid(b)
    ensures Valid(r) && Value(r) == Value(a) * Value(b)
  {
    ProductOfQuotients(a.num, a.den, b.num, b.den);
    Rational(a.num * b.num, a.den * b.den)
  }

  /** `div`: a times the reciprocal of b. The constructor throws exactly when
      b's numerator is 0, because the new denominator is then 0. */
  function Div(a: Rational, b: Rational): (r: Result<Rational, Error>)
    requires Valid(a) && Valid(b)
    ensures r.Err? <==> b.num == 0
    ensures r.Err? ==> r.error == InvalidArgument
    ensures r.Ok? ==> Valid(r.value) && Value(r.value) == Value(a) / Value(b)
  {
    if b.num == 0 then
      Make(a.num * b.den, a.den * b.num)
    else
      QuotientOfQuotients(a.num, a.den, b.num, b.den);
      Make(a.num * b.den, a.den * b.num)
  }

  lemma SameDenominatorSum(x: int, y: int, d: int)
    requires d != 0
    ensures (x + y) as real / d as real == x as real / d as real + y as real / d as real
  {
  }

  lemma SameDenominatorDifference(x: int, y: int, d: int)
    requires d != 0
    ensures (x - y) as real / d as real == x as real / d as real - y as real / d as real
  {
  }

  lemma CrossSum(x: int, y: int, u: int, v: int)
    requires y != 0 && v != 0
    ensures y * v != 0
    ensures (x * v + u * y) as real / (y * v) as real == x as real / y as real + u as real / v as real
  {
  }

  lemma CrossDifference(x: int, y: int, u: int, v: int)
    requires y != 0 && v != 0
    ensures y * v != 0
    ensures (x * v - u * y) as real / (y * v) as real == x as real / y as real - u as real / v as real
  {
  }

  lemma ProductOfQuotients(x: int, y: int, u: int, v: int)
    requires y != 0 && v != 0
    ensures y * v != 0
    ensures (x * u) as real / (y * v) as real == (x as real / y as real) * (u as real / v as real)
  {
  }

  lemma QuotientOfQuotients(x: int, y: int, u: int, v: int)
    requires y != 0 && v != 0 && u != 0
    ensures y * u != 0
    ensures (x * v) as real / (y * u) as real == (x as real / y as real) / (u as real / v as real)
  {
  }

  /** The equal-denominator shortcut of `plus` is only an optimisation: the
      cross-multiplied result is equal to it. */
  lemma PlusFastPathAgrees(a: Rational, b: Rational)
    requires Valid(a) && Valid(b) && a.den == b.den
    ensures Equals(Rational(a.num + b.num, a.den), Some(Rational(a.num * b.den + b.num * a.den, a.den * b.den)))
  {
    var fast, cross := Rational(a.num + b.num, a.den), Rational(a.num * b.den + b.num * a.den, a.den * b.den);
    assert Value(fast) == Value(a) + Value(b) by { SameDenominatorSum(a.num, b.num, a.den); }
    assert Value(cross) == Value(a) + Value(b) by { CrossSum(a.num, a.den, b.num, b.den); }
  }

  /** The same for `minus`. */
  lemma MinusFastPathAgrees(a: Rational, b: Rational)
    requires Valid(a) && Valid(b) && a.den == b.den
    ensures Equals(Rational(a.num - b.num, a.den), Some(Rational(a.num * b.den - b.num * a.den, a.den * b.den)))
  {
    var fast, cross := Rational(a.num - b.num, a.den), Rational(a.num * b.den - b.num * a.den, a.den * b.den);
    assert Value(fast) == Value(a) - Value(b) by { SameDenominatorDifference(a.num, b.num, a.den); }
    assert Value(cross) == Value(a) - Value(b) by { CrossDifference(a.num, a.den, b.num, b.den); }
  }

  /** a + (-a) is 0/1 in canonical form. */
  lemma PlusUnaryMinusIsZero(a: Rational)
    requires Valid(a)
    ensures Canonical(Plus(a, UnaryMinus(a))) == Rational(0, 1)
  {
    var zero := Rational(0, 1);
    CanonicalOfReduced(zero);
    CanonicalUnique(Plus(a, UnaryMinus(a)), zero);
  }

  /** a * (1/1) has the canonical form of a. */
  lemma TimesOneIsIdentity(a: Rational)
    requires Valid(a)
    ensures Canonical(Times(a, Rational(1, 1))) == Canonical(a)
  {
    CanonicalUnique(Times(a, Rational(1, 1)), a);
  }

  /** a / a is 1/1 in canonical form for every non-zero a. */
  lemma DivSelfIsOne(a: Rational)
    requires Valid(a) && a.num != 0
    ensures Div(a, a).Ok? && Canonical(Div(a, a).value) == Rational(1, 1)
  {
    var one := Rational(1, 1);
    CanonicalOfReduced(one);
    assert Value(a) != 0.0;
    CanonicalUnique(Div(a, a).value, one);
  }

  /** (a + b) - b has the canonical form of a. */
  lemma PlusThenMinusCancels(a: Rational, b: Rational)
    requires Valid(a) && Valid(b)
    ensures Canonical(Minus(Plus(a, b), b)) == Canonical(a)
  {
    CanonicalUnique(Minus(Plus(a, b), b), a);
  }

  // ---------------------------------------------------------------------------
  // Inclusive ranges

  /** `RationalRange`: the two endpoints of a ClosedRange, in the order given. */
  datatype RationalRange = RationalRange(start: Rational, endInclusive: Rational)

  predicate ValidRange(range: RationalRange)
  {
    Valid(range.start) && Valid(range.endInclusive)
  }

  /** `rangeTo`: a range from a to b. The end is rebuilt through the constructor,
      which cannot throw for a valid b; the endpoints are never swapped. */
  function RangeTo(a: Rational, b: Rational): (range: RationalRange)
    requires Valid(a) && Valid(b)
    ensures ValidRange(range) && range.start == a && range.endInclusive == b
  {
    RationalRange(a, Make(b.num, b.den).value)
  }

  /** ClosedRange.contains: x >= start && x <= endInclusive, by `compareTo`. */
  function Contains(range: RationalRange, x: Rational): (inside: bool)
    requires ValidRange(range) && Valid(x)
    ensures inside <==> Value(range.start) <= Value(x) <= Value(range.endInclusive)
  {
    CompareTo(x, range.start) >= 0 && CompareTo(x, range.endInclusive) <= 0
  }

  /** A range whose start lies above its end contains nothing. */
  lemma EmptyWhenReversed(range: RationalRange, x: Rational)
    requires ValidRange(range) && Valid(x)
    requires Less(range.endInclusive, range.start)
    ensures !Contains(range, x)
  {
  }

  /** A range whose start is not above its end holds both its endpoints. */
  lemma EndpointsContained(range: RationalRange)
    requires ValidRange(range)
    requires LessOrEqual(range.start, range.endInclusive)
    ensures Contains(range, range.start) && Contains(range, range.endInclusive)
  {
  }

  // ---------------------------------------------------------------------------
  // divBy

  newtype Int32 = x: int | -0x8000_0000 <= x < 0x8000_0000

  newtype Int64 = x: int | -0x8000_0000_0000_0000 <= x < 0x8000_0000_0000_0000

  /** `Int.divBy`: both operands widened to BigInteger, then the constructor. */
  function IntDivBy(n: Int32, d: Int32): (r: Result<Rational, Error>)
    ensures r.Ok? <==> d != 0
    ensures r.Ok? ==> Valid(r.value) && Value(r.value) == n as real / d as real
    ensures r == BigIntegerDivBy(n as int, d as int)
  {
    Make(n as int, d as int)
  }

  /** `Long.divBy`: the same for 64-bit operands. */
  function LongDivBy(n: Int64, d: Int64): (r: Result<Rational, Error>)
    ensures r.Ok? <==> d != 0
    ensures r.Ok? ==> Valid(r.value) && Value(r.value) == n as real / d as real
    ensures r == BigIntegerDivBy(n as int, d as int)
  {
    Make(n as int, d as int)
  }

  /** `BigInteger.divBy`: the constructor itself. */
  function BigIntegerDivBy(n: int, d: int): (r: Result<Rational, Error>)
    ensures r.Ok? <==> d != 0
    ensures r.Ok? ==> Valid(r.value) && Value(r.value) == n as real / d as real
    ensures r.Err? ==> r.error == InvalidArgument
  {
    Make(n, d)
  }

  // ---------------------------------------------------------------------------
  // String.toRational

  /** The pieces `String.toRational` reads are all numerals: the first two
      pieces of the split on '/' when there is one, the whole text otherwise. */
  predicate ReadsNumerals(s: string)
  {
    if '/' in s then
      var tokens := Split(s, '/');
      IsNumeral(tokens[0]) && IsNumeral(tokens[1])
    else
      IsNumeral(s)
  }

  /** `String.toRational`: with a '/', the first two pieces of the split are read
      as numerator and denominator and any further pieces are ignored; without
      one, the whole text is the numerator over 1. Unreadable text is a
      ParseError (the numerator is read first); a zero denominator is the
      constructor's InvalidArgument, which only the '/' form can reach. */
  function ToRational(s: string): (r: Result<Rational, Error>)
    ensures r.Ok? ==> Valid(r.value) && ReadsNumerals(s)
    ensures r == Err(ParseError) <==> !ReadsNumerals(s)
    ensures r == Err(InvalidArgument) ==> '/' in s
  {
    if '/' in s then
      var tokens := Split(s, '/');
      match ParseInt(tokens[0])
      case None => Err(ParseError)
      case Some(n) =>
        match ParseInt(tokens[1])
        case None => Err(ParseError)
        case Some(d) => Make(n, d)
    else
      match ParseInt(s)
      case None => Err(ParseError)
      case Some(n) => Make(n, 1)
  }

  /** Reading a written integer gives that integer over 1. */
  lemma ToRationalOfInteger(p: int)
    ensures ToRational(IntToString(p)) == Ok(Rational(p, 1))
  {
  }

  /** Reading "p/q" builds Rational(p, q), and fails with InvalidArgument
      exactly when q is 0. */
  lemma ToRationalOfPair(p: int, q: int)
    ensures ToRational(IntToString(p) + "/" + IntToString(q)) == Make(p, q)
  {
    var a, b := IntToString(p), IntToString(q);
    SplitTwo(a, b);
    assert '/' in a + "/" + b by { assert (a + "/" + b)[|a|] == '/'; }
  }

  /** Pieces after the second are never read. */
  lemma ToRationalIgnoresExtraTokens(a: string, b: string, rest: string)
    requires '/' !in a && '/' !in b
    ensures ToRational(a + "/" + b + "/" + rest) == ToRational(a + "/" + b)
  {
    SplitTwo(a, b);
    SplitAfterPiece(a, b + "/" + rest, '/');
    SplitAfterPiece(b, rest, '/');
    assert a + "/" + b + "/" + rest == a + ['/'] + (b + "/" + rest);
    assert '/' in a + "/" + b + "/" + rest by { assert (a + "/" + b + "/" + rest)[|a|] == '/'; }
    assert '/' in a + "/" + b by { assert (a + "/" + b)[|a|] == '/'; }
  }

  lemma SplitTwo(a: string, b: string)
    requires '/' !in a && '/' !in b
    ensures Split(a + "/" + b, '/') == [a, b]
  {
    SplitJoin([a, b], '/');
    assert Join([a, b], '/') == a + "/" + b by {
      assert Join([a, b][1..], '/') == b;
    }
  }

  /** Reading back what `ToString` writes gives the canonical form. */
  lemma ToStringRoundTrip(r: Rational)
    requires Valid(r)
    ensures ToRational(ToString(r)) == Ok(Canonical(r))
  {
    var c := Canonical(r);
    if c.den == 1 {
      ToRationalOfInteger(c.num);
    } else {
      ToRationalOfPair(c.num, c.den);
    }
  }

  /** Two Rationals print the same exactly when they are equal. */
  lemma ToStringInjective(a: Rational, b: Rational)
    requires Valid(a) && Valid(b)
    ensures ToString(a) == ToString(b) <==> Equals(a, Some(b))
  {
    ToStringRoundTrip(a);
    ToStringRoundTrip(b);
    CanonicalUnique(a, b);
  }
}
