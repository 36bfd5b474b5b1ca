/** The `Rational` class of Rational.kt: an immutable pair of unbounded integers
    whose constructor rejects a zero denominator. The stored pair is neither
    reduced nor sign-normalised; equality and formatting reduce it on the fly.
    Ordering is exact cross-multiplication (the class itself compares floats). */
module Rationals {
  import opened Integers
  import opened Wrappers
  import opened Decimal

  /** What makes an operation produce no value: IllegalArgumentException from the
      constructor, and NumberFormatException from reading an integer. */
  datatype Error = InvalidArgument | ParseError

  /** A numerator and a denominator exactly as stored. */
  datatype Rational = Rational(num: int, den: int)

  /** The invariant the constructor establishes for every Rational that exists. */
  predicate Valid(r: Rational)
  {
    r.den != 0
  }

  /** The number a Rational stands for. */
  ghost function Value(r: Rational): real
    requires Valid(r)
  {
    r.num as real / r.den as real
  }

  /** Two Rationals stand for the same number exactly when their
      cross-products agree. */
  lemma SameValueIff(a: Rational, b: Rational)
    requires Valid(a) && Valid(b)
    ensures Value(a) == Value(b) <==> a.num * b.den == b.num * a.den
  {
    CrossMultiply(a.num, a.den, b.num, b.den);
  }

  lemma CrossMultiply(x: int, y: int, u: int, v: int)
    requires y != 0 && v != 0
    ensures x as real / y as real == u as real / v as real <==> x * v == u * y
  {
  }

  /** Scaling numerator and denominator by a non-zero factor keeps the value. */
  lemma ScaledQuotient(n: int, d: int, k: int)
    requires d != 0 && k != 0
    ensures (k * n) as real / (k * d) as real == n as real / d as real
  {
  }

  /** The constructor with its `init` check: a zero denominator throws. */
  function Make(n: int, d: int): (r: Result<Rational, Error>)
    ensures r.Ok? <==> d != 0
    ensures r.Ok? ==> Valid(r.value) && r.value.num == n && r.value.den == d
    ensures r.Err? ==> r.error == InvalidArgument
  {
    if d == 0 then Err(InvalidArgument) else Ok(Rational(n, d))
  }

  /** Lowest terms with the sign on the numerator: divide both parts by
      gcd(|num|, |den|), then negate both if the denominator is negative. The
      division is exact, so BigInteger's truncating `/` and Dafny's agree. */
  function Canonical(r: Rational): (c: Rational)
    requires Valid(r)
    ensures c.den > 0 && Gcd(Abs(c.num), c.den) == 1
    ensures Value(c) == Value(r)
  {
    var g := Gcd(Abs(r.num), Abs(r.den));
    ReduceByGcd(r.num, r.den);
    var n, d := r.num / g, r.den / g;
    ScaledQuotient(n, d, g);
    ScaledQuotient(n, d, -1);
    if d < 0 then Rational(-n, -d) else Rational(n, d)
  }

  /** Two Rationals have the same canonical form exactly when they stand for
      the same number. */
  lemma CanonicalUnique(a: Rational, b: Rational)
    requires Valid(a) && Valid(b)
    ensures Canonical(a) == Canonical(b) <==> Value(a) == Value(b)
  {
    var ca, cb := Canonical(a), Canonical(b);
    if Value(a) == Value(b) {
      SameValueIff(ca, cb);
      CoprimePairUnique(ca.num, ca.den, cb.num, cb.den);
    }
  }

  /** A pair already in lowest terms with a positive denominator is its own
      canonical form; in particular canonicalising twice changes nothing. */
  lemma CanonicalOfReduced(r: Rational)
    requires r.den > 0 && Gcd(Abs(r.num), r.den) == 1
    ensures Canonical(r) == r
  {
    assert Gcd(Abs(r.num), Abs(r.den)) == 1;
  }

  /** A zero numerator reduces to 0/1 whatever the sign of the denominator. */
  lemma CanonicalOfZero(r: Rational)
    requires Valid(r) && r.num == 0
    ensures Canonical(r) == Rational(0, 1)
  {
    var zero := Rational(0, 1);
    CanonicalOfReduced(zero);
    CanonicalUnique(r, zero);
  }

  /** `equals`: the operand is a Rational whose canonical form matches. `None`
      stands for a null operand or one of another class. */
  function Equals(a: Rational, other: Option<Rational>): (eq: bool)
    requires Valid(a) && (other.Some? ==> Valid(other.value))
    ensures eq <==> other.Some? && Value(a) == Value(other.value)
  {
    match other
    case None => false
    case Some(b) => CanonicalUnique(a, b); Canonical(a) == Canonical(b)
  }

  /** Equality is cross-multiplication, without any reduction. */
  lemma EqualsIffCrossProducts(a: Rational, b: Rational)
    requires Valid(a) && Valid(b)
    ensures Equals(a, Some(b)) <==> a.num * b.den == b.num * a.den
  {
    SameValueIff(a, b);
  }

  /** Equality on Rationals is reflexive, symmetric and transitive. */
  lemma EqualsIsEquivalence(a: Rational, b: Rational, c: Rational)
    requires Valid(a) && Valid(b) && Valid(c)
    ensures Equals(a, Some(a))
    ensures Equals(a, Some(b)) ==> Equals(b, Some(a))
    ensures Equals(a, Some(b)) && Equals(b, Some(c)) ==> Equals(a, Some(c))
  {
  }

  function Sign(x: int): int
  {
    if x > 0 then 1 else if x < 0 then -1 else 0
  }

  /** `compareTo`, on exact integers: the sign of
      den_a * den_b * (num_a * den_b - num_b * den_a). */
  function CompareTo(a: Rational, b: Rational): (c: int)
    requires Valid(a) && Valid(b)
    ensures -1 <= c <= 1
    ensures c < 0 <==> Value(a) < Value(b)
    ensures c == 0 <==> Value(a) == Value(b)
    ensures c > 0 <==> Value(a) > Value(b)
  {
    var x, y := a.num * b.den - b.num * a.den, a.den * b.den;
    assert Value(a) - Value(b) == x as real / y as real;
    SignOfQuotient(x, y);
    assert a.den * b.den * x == x * y;
    Sign(a.den * b.den * x)
  }

  lemma SignOfQuotient(x: int, y: int)
    requires y != 0
    ensures x as real / y as real < 0.0 <==> x * y < 0
    ensures x as real / y as real == 0.0 <==> x == 0
  {
  }

  /** `compareTo` is a total order consistent with `equals`: antisymmetric,
      transitive, and zero exactly on equal values. */
  lemma CompareToIsTotalOrder(a: Rational, b: Rational, c: Rational)
    requires Valid(a) && Valid(b) && Valid(c)
    ensures CompareTo(a, b) == -CompareTo(b, a)
    ensures CompareTo(a, b) <= 0 && CompareTo(b, c) <= 0 ==> CompareTo(a, c) <= 0
    ensures CompareTo(a, b) == 0 <==> Equals(a, Some(b))
  {
  }

  /** Kotlin's `a < b` and `a <= b` on Comparable values. */
  function Less(a: Rational, b: Rational): (lt: bool)
    requires Valid(a) && Valid(b)
    ensures lt <==> Value(a) < Value(b)
  {
    CompareTo(a, b) < 0
  }

  function LessOrEqual(a: Rational, b: Rational): (le: bool)
    requires Valid(a) && Valid(b)
    ensures le <==> Value(a) <= Value(b)
  {
    CompareTo(a, b) <= 0
  }

  /** The text `toString` builds from a reduced pair: the numerator alone when
      the denominator is 1, otherwise "numerator/denominator". */
  function Format(p: Rational): (s: string)
    ensures '/' in s <==> p.den != 1
  {
    if p.den == 1 then
      IntToString(p.num)
    else
      var s := IntToString(p.num) + "/" + IntToString(p.den);
      assert s[|IntToString(p.num)|] == '/';
      s
  }

  /** `toString` as intended: the canonical form, formatted. */
  function ToString(r: Rational): (s: string)
    requires Valid(r)
    ensures '/' in s <==> Canonical(r).den != 1
  {
    Format(Canonical(r))
  }
}
