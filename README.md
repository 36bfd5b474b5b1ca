# Rational numbers over BigInteger

A model of the Kotlin `Rational` class in `Rationals/Task/src/rationals/Rational.kt` and of the operators and helpers around it.

A `Rational` is a numerator and a denominator, both `java.math.BigInteger`, and construction throws `IllegalArgumentException` when the denominator is zero. The class keeps the pair exactly as given and never reduces it on construction. Equality, ordering and printing look at the number the pair denotes, with these exceptions:
- `equals` and `toString` divide both parts by their gcd. They move a negative denominator's sign to the numerator only when the numerator is below 1 or above 1. A numerator of exactly 1 keeps its negative denominator (lines 35, 44, 98 and 106).
- `toString` prints a sign-adjusted numerator of 1 on its own, without reducing and without the denominator (line 66).
- `compareTo` converts both parts of both operands to Float and compares the two Float quotients (lines 20-21).

The first two are source defects. The model states them as written in `AsWritten` and records them under "## Findings". The third is under "## Left out".

The arithmetic operators `-x`, `+`, `-`, `*` and `/` build new pairs by the schoolbook formulas. `/` throws when the divisor's numerator is zero, because the constructor then sees a zero denominator. `rangeTo` builds a `RationalRange` over the closed interval. `divBy` on `Int`, `Long` and `BigInteger` builds a Rational from two integers. `String.toRational` reads `"n/d"` or `"n"`.

In the model:
- Dafny's unbounded `int` stands for `BigInteger`.
- A Rational is the datatype `Rational(num, den)`, and `Valid` holds when `den != 0`.
- The ghost function `Value` gives the real number `num / den`. It is the reference every operation is proved against.
- A thrown exception becomes `Err` of a `Result`. `InvalidArgument` stands for `IllegalArgumentException` and `ParseError` for `NumberFormatException`.
- A nullable operand, or one of another class, becomes `Option`.

Modules:
- `Integers`: magnitudes, BigInteger's truncating quotient and Euclid's gcd, with the divisibility facts the rest needs.
- `Wrappers`: `Option` and `Result`.
- `Decimal`: decimal text of integers as `toString` writes it and as `String.toBigInteger` reads it, and `String.split` on one delimiter character.
- `Rationals`: the class itself, covering construction, the canonical reduced form, `equals`, `compareTo` and `toString` as evidently intended.
- `Operators`: the extension operators, `RationalRange`, `divBy` and `String.toRational`.
- `AsWritten`: `equals` and `toString` exactly as written, with their sign-handling defect. Each is related to the intended version.
- `Scenarios`: each check that `main` prints, proved as a lemma, and some edge cases of `String.toRational`.

Two details of the text formats:
- `String.toRational` reads only the first two pieces of the split on '/' and ignores any further pieces, so "1/2/x" reads as 1/2.
- `String.toBigInteger` is `java.math.BigInteger(String)`, which accepts a leading '+' as well as '-'.

## Model

| member | source | states |
|---|---|---|
| Rationals.Make | Rationals/Task/src/rationals/Rational.kt:9-16 | construction succeeds exactly when the denominator is non-zero, and keeps the pair unreduced; otherwise it fails with InvalidArgument |
| Rationals.Canonical | Rationals/Task/src/rationals/Rational.kt:82-109 | the reduced form has a positive denominator, is in lowest terms (gcd of numerator and denominator is 1) and denotes the same number |
| Rationals.CanonicalUnique | Rationals/Task/src/rationals/Rational.kt:111-115 | two Rationals have the same reduced form if and only if they denote the same number |
| Rationals.CanonicalOfReduced | Rationals/Task/src/rationals/Rational.kt:82-109 | a pair already in lowest terms with positive denominator is left unchanged by reduction |
| Rationals.CanonicalOfZero | Rationals/Task/src/rationals/Rational.kt:82-109 | a zero numerator reduces to 0/1 whatever the denominator's sign |
| Rationals.Equals | Rationals/Task/src/rationals/Rational.kt:70-116 | `equals` holds exactly when the operand is a non-null Rational denoting the same number; null or another class gives false |
| Rationals.EqualsIffCrossProducts | Rationals/Task/src/rationals/Rational.kt:70-116 | `a == b` if and only if a.num * b.den == b.num * a.den |
| Rationals.EqualsIsEquivalence | Rationals/Task/src/rationals/Rational.kt:70-116 | `equals` is reflexive, symmetric and transitive |
| Rationals.CompareTo | Rationals/Task/src/rationals/Rational.kt:18-28 | the result is -1, 0 or 1: negative exactly when this is smaller, zero exactly when equal, positive exactly when larger |
| Rationals.Less | Rationals/Task/src/rationals/Rational.kt:226 | Kotlin's `a < b`, through `compareTo`, holds exactly when a denotes the smaller number |
| Rationals.LessOrEqual | Rationals/Task/src/rationals/Rational.kt:18-28 | Kotlin's `a <= b`, through `compareTo`, holds exactly when a denotes a number no larger than b |
| Rationals.CompareToIsTotalOrder | Rationals/Task/src/rationals/Rational.kt:18-28 | `compareTo` is antisymmetric and transitive, and returns 0 exactly when `equals` holds |
| Rationals.Format | Rationals/Task/src/rationals/Rational.kt:58-62 | the text contains '/' exactly when the denominator is not 1 |
| Rationals.ToString | Rationals/Task/src/rationals/Rational.kt:30-68 | the text contains '/' exactly when the number is not an integer |
| Operators.ToStringRoundTrip | Rationals/Task/src/rationals/Rational.kt:30-68 | reading back the text of r with `toRational` gives r's reduced form |
| Operators.ToStringInjective | Rationals/Task/src/rationals/Rational.kt:30-68 | two Rationals print the same text if and only if they are equal |
| Operators.UnaryMinus | Rationals/Task/src/rationals/Rational.kt:119 | negation is valid, keeps the denominator and denotes the negated number |
| Operators.Plus | Rationals/Task/src/rationals/Rational.kt:121-141 | the sum is valid and denotes the exact sum, on both the equal-denominator path and the cross-multiplying path |
| Operators.PlusFastPathAgrees | Rationals/Task/src/rationals/Rational.kt:126-137 | with equal denominators the shortcut equals the cross-multiplied sum |
| Operators.Minus | Rationals/Task/src/rationals/Rational.kt:143-163 | the difference is valid and denotes the exact difference on both paths |
| Operators.MinusFastPathAgrees | Rationals/Task/src/rationals/Rational.kt:148-159 | with equal denominators the shortcut equals the cross-multiplied difference |
| Operators.Times | Rationals/Task/src/rationals/Rational.kt:165-169 | the product is valid and denotes the exact product |
| Operators.Div | Rationals/Task/src/rationals/Rational.kt:171-175 | division fails with InvalidArgument exactly when the divisor's numerator is 0; otherwise it denotes the exact quotient |
| Operators.PlusUnaryMinusIsZero | Rationals/Task/src/rationals/Rational.kt:119-141 | a + (-a) equals 0 |
| Operators.TimesOneIsIdentity | Rationals/Task/src/rationals/Rational.kt:165-169 | a * 1 equals a |
| Operators.DivSelfIsOne | Rationals/Task/src/rationals/Rational.kt:171-175 | a / a equals 1 for any non-zero a |
| Operators.PlusThenMinusCancels | Rationals/Task/src/rationals/Rational.kt:121-163 | (a + b) - b equals a |
| Operators.RangeTo | Rationals/Task/src/rationals/Rational.kt:176-179 | the range's start is a and its end is b, never swapped |
| Operators.Contains | Rationals/Task/src/rationals/Rational.kt:6 | x is in the closed range exactly when start <= x <= endInclusive by value |
| Operators.EmptyWhenReversed | Rationals/Task/src/rationals/Rational.kt:176-179 | a range whose end is below its start contains nothing |
| Operators.EndpointsContained | Rationals/Task/src/rationals/Rational.kt:176-179 | a range whose start is not above its end contains both endpoints |
| Operators.IntDivBy | Rationals/Task/src/rationals/Rational.kt:182 | `Int.divBy` succeeds exactly when the divisor is non-zero, denotes n/d, and agrees with `BigInteger.divBy` on the widened operands |
| Operators.LongDivBy | Rationals/Task/src/rationals/Rational.kt:184 | `Long.divBy` succeeds exactly when the divisor is non-zero, denotes n/d, and agrees with `BigInteger.divBy` on the widened operands |
| Operators.BigIntegerDivBy | Rationals/Task/src/rationals/Rational.kt:186 | `BigInteger.divBy` succeeds exactly when the divisor is non-zero and denotes n/d; otherwise it fails with InvalidArgument |
| Operators.ToRational | Rationals/Task/src/rationals/Rational.kt:188-200 | parsing fails with ParseError exactly when a piece it reads is not a numeral: the first two pieces of the split on '/', or the whole text when there is no '/'. A successful parse is a valid Rational, and InvalidArgument arises only from text with a '/' |
| Operators.ToRationalOfInteger | Rationals/Task/src/rationals/Rational.kt:196-198 | text of an integer p reads as p/1 |
| Operators.ToRationalOfPair | Rationals/Task/src/rationals/Rational.kt:192-195 | the text "p/q" reads as the pair (p, q), failing with InvalidArgument exactly when q is 0 |
| Operators.ToRationalIgnoresExtraTokens | Rationals/Task/src/rationals/Rational.kt:193-194 | "a/b/rest" reads the same as "a/b" |
| Decimal.NatToString | Rationals/Task/src/rationals/Rational.kt:59-61 | decimal text of a natural number: non-empty digits, no leading zero, and its digits' value is the number |
| Decimal.IntToString | Rationals/Task/src/rationals/Rational.kt:59-61 | BigInteger's text: a '-' exactly for negative values, then the digits of the magnitude without leading zeros. It reads back as the same integer and contains no '/' |
| Decimal.IntToStringInjective | Rationals/Task/src/rationals/Rational.kt:59-61 | different integers have different decimal texts |
| Decimal.ParseInt | Rationals/Task/src/rationals/Rational.kt:194 | reading an integer succeeds exactly on a numeral (an optional '-' or '+', then one or more decimal digits); a leading '-' gives a non-positive value |
| Decimal.Split | Rationals/Task/src/rationals/Rational.kt:193 | splitting gives at least one piece, no piece contains the delimiter, and there are two or more pieces exactly when the delimiter occurs |
| Decimal.JoinSplit | Rationals/Task/src/rationals/Rational.kt:193 | joining the pieces of a split with the delimiter gives back the text |
| Decimal.SplitJoin | Rationals/Task/src/rationals/Rational.kt:193 | splitting a join of delimiter-free pieces gives back the pieces |
| Integers.Quot | Rationals/Task/src/rationals/Rational.kt:84-90 | BigInteger division rounds toward zero: the quotient's magnitude is the quotient of the magnitudes, and it is non-negative when the signs agree and non-positive when they differ, so it rounds toward zero |
| Integers.QuotExact | Rationals/Task/src/rationals/Rational.kt:84-90 | an exact division by the gcd gives the same quotient rounded toward zero or Euclidean, and multiplying back restores the dividend |
| Integers.Gcd | Rationals/Task/src/rationals/Rational.kt:82-87 | the gcd is zero only for two zeros, and gcd(0, d) = d |
| Integers.GcdDivides | Rationals/Task/src/rationals/Rational.kt:82-87 | the gcd divides both arguments |
| Integers.GcdGreatest | Rationals/Task/src/rationals/Rational.kt:82-87 | every common divisor divides the gcd |
| Integers.ReduceByGcd | Rationals/Task/src/rationals/Rational.kt:82-90 | dividing both parts by their gcd is exact and leaves a pair whose gcd is 1 |
| Integers.CoprimePairUnique | Rationals/Task/src/rationals/Rational.kt:111-115 | two pairs in lowest terms with positive denominators that cross-multiply equal are the same pair |
| AsWritten.AdjustSigns | Rationals/Task/src/rationals/Rational.kt:95-109 | the sign adjustment keeps the value and the denominator's magnitude; a negative denominator survives exactly when the numerator is 1 |
| AsWritten.Reduce | Rationals/Task/src/rationals/Rational.kt:82-90 | division by BigInteger.gcd of the pair, rounding toward zero, equals the exact quotient of each part |
| AsWritten.Normalise | Rationals/Task/src/rationals/Rational.kt:82-109 | `equals`' normal form (reduce, then adjust signs) is the reduced form, except for values -1/k, where numerator 1 over -k is kept |
| AsWritten.EqualsAsWritten | Rationals/Task/src/rationals/Rational.kt:70-116 | `equals` as written holds exactly when the operand is non-null, the values are equal, and both or neither operand has the form 1/-k after reduction |
| AsWritten.EqualsAsWrittenMissesSign | Rationals/Task/src/rationals/Rational.kt:95-109 | 2/-4 and -1/2 are the same number, yet `equals` as written says they differ |
| AsWritten.ToStringAsWritten | Rationals/Task/src/rationals/Rational.kt:30-68 | `toString` as written prints the reduced text when the sign-adjusted numerator is not 1, and "1" when it is |
| AsWritten.ToStringAsWrittenIff | Rationals/Task/src/rationals/Rational.kt:30-68 | `toString` as written prints the reduced text exactly when the sign-adjusted numerator is not 1 or the number is 1 |
| AsWritten.ToStringAsWrittenDropsDenominator | Rationals/Task/src/rationals/Rational.kt:51-67 | 1/2 is printed as "1" instead of "1/2" |
| AsWritten.ToStringAsWrittenDropsSign | Rationals/Task/src/rationals/Rational.kt:32-49 | 1/-1 is printed as "1" instead of "-1" |
| Scenarios.SumScenario | Rationals/Task/src/rationals/Rational.kt:206-207 | 1/2 + 1/3 equals 5/6 |
| Scenarios.DifferenceScenario | Rationals/Task/src/rationals/Rational.kt:209-210 | 1/2 - 1/3 equals 1/6 |
| Scenarios.ProductScenario | Rationals/Task/src/rationals/Rational.kt:212-213 | 1/2 * 1/3 equals 1/6 |
| Scenarios.QuotientScenario | Rationals/Task/src/rationals/Rational.kt:215-216 | (1/2) / (1/3) equals 3/2 |
| Scenarios.NegationScenario | Rationals/Task/src/rationals/Rational.kt:218-219 | -(1/2) equals -1/2 |
| Scenarios.WholeNumberTextScenario | Rationals/Task/src/rationals/Rational.kt:221 | 2/1 prints as "2" |
| Scenarios.NegativeFractionTextScenario | Rationals/Task/src/rationals/Rational.kt:222 | -2/4 prints as "-1/2" |
| Scenarios.ParsedTextScenario | Rationals/Task/src/rationals/Rational.kt:223 | "117/1098" reads as 117/1098, which prints as "13/122" |
| Scenarios.OrderScenario | Rationals/Task/src/rationals/Rational.kt:225-226 | 1/2 < 2/3 |
| Scenarios.RangeScenario | Rationals/Task/src/rationals/Rational.kt:228 | 1/2 lies in 1/3..2/3 |
| Scenarios.LongScenario | Rationals/Task/src/rationals/Rational.kt:230 | 2000000000L divBy 4000000000L equals 1/2 |
| Scenarios.BigIntegerScenario | Rationals/Task/src/rationals/Rational.kt:232-233 | the 39/40-digit BigInteger quotient equals 1/2 |
| Scenarios.ZeroDenominatorText | Rationals/Task/src/rationals/Rational.kt:192-195 | "1/0" fails with InvalidArgument |
| Scenarios.UnreadableTokenText | Rationals/Task/src/rationals/Rational.kt:192-195 | "x/0" and "1/y" fail to parse, even where the denominator would be zero |
| Scenarios.EmptyTokensText | Rationals/Task/src/rationals/Rational.kt:192-195 | "/" fails to parse: both pieces are empty |
| Scenarios.ExtraTokenText | Rationals/Task/src/rationals/Rational.kt:193-194 | "1/2/x" reads as 1/2 |
| Scenarios.IntegerText | Rationals/Task/src/rationals/Rational.kt:196-198 | "+3" reads as 3/1, and "-" and "" fail to parse |

## Left out

- Rationals.CompareTo: compares the exact values. The source converts numerator and denominator to Float and subtracts, which overflows to infinity or NaN for large BigIntegers and can call distinct values equal. Floating point is not modelled, and the exact comparison is what the ordering is meant to give.
- `hashCode` is not overridden in the source, so it is inconsistent with `equals`. It is outside the model.
- The `Comparable`/`ClosedRange` interface machinery is not modelled. The model has only `contains`, stated through `compareTo`.
- Printing in `main` is I/O. Its checks are the `Scenarios` lemmas.
- Decimal.ParseInt: reads only ASCII digits. `BigInteger(String)` also accepts other Unicode decimal digits.
- Decimal.ParseInt: its contract says which texts it accepts, but not the value it reads from each. That value is pinned down through `IntToString`'s round trip and the `Scenarios` edge cases.
- Exceptions are reduced to two kinds. The exception class hierarchy, and `NumberFormatException` being an `IllegalArgumentException`, are not modelled.
- `RationalRange` is a value with no checks of its own, like the source class. Kotlin's `in` calls `contains`, which the model states by value.
- Kotlin's `==` on a null receiver never reaches `equals` and is not modelled.

## Findings

| source | as written | input that shows it | evidently intended | confidence | as-written member | corrected member |
|---|---|---|---|---|---|---|
| Rationals/Task/src/rationals/Rational.kt:95-109 | the sign is moved only when the reduced numerator is below or above 1, so a reduced numerator of exactly 1 keeps a negative denominator | `Rational(2, -4) == Rational(-1, 2)` is false | equal values compare equal | high; not executed | AsWritten.EqualsAsWrittenMissesSign | Rationals.Equals |
| Rationals/Task/src/rationals/Rational.kt:51-67 | a sign-adjusted numerator of 1 is printed alone, without reduction or denominator | `Rational(1, 2).toString()` is "1" | "1/2" | high; not executed | AsWritten.ToStringAsWrittenDropsDenominator | Operators.ToStringRoundTrip |
| Rationals/Task/src/rationals/Rational.kt:32-49 | a numerator of 1 over a negative denominator keeps its sign on the denominator, which is then not printed | `Rational(1, -1).toString()` is "1" | "-1" | high; not executed | AsWritten.ToStringAsWrittenDropsSign | Operators.ToStringInjective |
