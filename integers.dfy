/** Facts about unbounded integers that the rational type relies on: magnitudes,
    the quotient that java.math.BigInteger.divide computes, and Euclid's greatest
    common divisor as BigInteger.gcd computes it. Dafny's `int` stands for
    BigInteger throughout. */
module Integers {

  function Abs(x: int): nat
  {
    if x < 0 then -x else x
  }

  /** `c` is a positive divisor of `x`. */
  predicate Divides(c: int, x: int)
  {
    c > 0 && x % c == 0
  }

  /** Quotient rounded toward zero: BigInteger.divide, Kotlin's `/` on BigInteger.
      Dafny's own `/` is Euclidean and differs from it on negative operands. */
  function Quot(a: int, b: int): (q: int)
    requires b != 0
    ensures Abs(q) == Abs(a) / Abs(b)
    ensures (a < 0) == (b < 0) ==> q >= 0
    ensures (a < 0) != (b < 0) ==> q <= 0
  {
    var m := Abs(a) / Abs(b);
    DivNonNegative(Abs(a), Abs(b));
    if (a < 0) == (b < 0) then m else -m
  }

  /** Euclid's algorithm on magnitudes. gcd(0, d) is d, and gcd(0, 0) is 0. */
  function Gcd(a: nat, b: nat): (g: nat)
    ensures g == 0 <==> a == 0 && b == 0
    ensures a == 0 ==> g == b
    ensures b == 0 ==> g == a
    decreases b
  {
    if b == 0 then a else Gcd(b, a % b)
  }

  // ---------------------------------------------------------------------------
  // Euclidean division helpers

  lemma MulBounds(c: int, x: int)
    requires c > 0
    ensures x >= 1 ==> c * x >= c
    ensures x <= -1 ==> c * x <= -c
  {
  }

  lemma AbsMul(x: int, y: int)
    ensures Abs(x * y) == Abs(x) * Abs(y)
  {
    if x < 0 && y < 0 {
      assert x * y == (-x) * (-y);
    } else if x < 0 {
      assert x * y == -((-x) * y);
    } else if y < 0 {
      assert x * y == -(x * (-y));
    }
  }

  lemma DivNonNegative(x: int, y: int)
    requires x >= 0 && y > 0
    ensures x / y >= 0
  {
    MulBounds(y, x / y);
  }

  /** A non-zero factor cancels. */
  lemma MulCancel(c: int, x: int, y: int)
    requires c != 0 && c * x == c * y
    ensures x == y
  {
    assert c * (x - y) == 0;
  }

  /** Quotient and remainder are determined by the division equation. */
  lemma DivModUnique(x: int, y: int, q: int, r: int)
    requires y > 0 && x == y * q + r && 0 <= r < y
    ensures x / y == q && x % y == r
  {
    var q', r' := x / y, x % y;
    assert y * (q - q') == r' - r;
    MulBounds(y, q - q');
  }

  /** Dividing an exact multiple cancels the factor. */
  lemma MulDivCancel(c: int, k: int)
    requires c != 0
    ensures (c * k) / c == k && (c * k) % c == 0
  {
    if c > 0 {
      DivModUnique(c * k, c, k, 0);
    } else {
      var q, m := (c * k) / c, (c * k) % c;
      assert c * k == c * q + m && 0 <= m < -c;
      assert (-c) * (q - k) == m;
      MulBounds(-c, q - k);
    }
  }

  /** Scaling dividend and divisor by the same factor scales the remainder. */
  lemma ModScale(a: nat, b: nat, k: nat)
    requires b > 0 && k > 0
    ensures (k * a) % (k * b) == k * (a % b)
  {
    var q, r := a / b, a % b;
    assert k * a == (k * b) * q + k * r;
    MulBounds(k, b - r);
    DivModUnique(k * a, k * b, q, k * r);
  }

  /** A divisor of two numbers divides every combination of them. */
  lemma DividesCombination(c: int, x: int, y: int, k: int)
    requires Divides(c, x) && Divides(c, y)
    ensures Divides(c, x * k + y)
  {
    var p, s := x / c, y / c;
    assert x == c * p && y == c * s;
    assert x * k + y == c * (p * k + s);
    MulDivCancel(c, p * k + s);
  }

  /** A positive divisor of a positive number is no larger than it. */
  lemma DivisorAtMost(c: int, x: int)
    requires Divides(c, x) && x > 0
    ensures c <= x
  {
    var k := x / c;
    assert x == c * k;
    if k <= 0 {
      MulBounds(c, -k + 1);
      assert false;
    }
    MulBounds(c, k);
  }

  /** Two positive numbers that divide each other are equal. */
  lemma MutualDivisors(c: int, d: int)
    requires Divides(c, d) && Divides(d, c)
    ensures c == d
  {
    DivisorAtMost(c, d);
    DivisorAtMost(d, c);
  }

  /** An exact quotient is the same whether rounded toward zero or Euclidean. */
  lemma QuotExact(a: int, b: int)
    requires b != 0 && a % b == 0
    ensures Quot(a, b) == a / b && a == b * (a / b)
  {
    var k := a / b;
    assert a == b * k;
    var m := Abs(b);
    assert Abs(a) == m * Abs(k) by {
      if (k < 0) != (b < 0) { assert a <= 0; } else { assert a >= 0; }
    }
    MulDivCancel(m, Abs(k));
  }

  // ---------------------------------------------------------------------------
  // Greatest common divisor

  /** The gcd divides both arguments. */
  lemma {:induction false} GcdDivides(a: nat, b: nat)
    requires a > 0 || b > 0
    ensures Divides(Gcd(a, b), a) && Divides(Gcd(a, b), b)
    decreases b
  {
    if b > 0 {
      var q, r := a / b, a % b;
      GcdDivides(b, r);
      var g := Gcd(b, r);
      assert Gcd(a, b) == g;
      DividesCombination(g, b, r, q);
      assert b * q + r == a;
    }
  }

  /** Every common divisor divides the gcd: the gcd is the greatest one. */
  lemma {:induction false} GcdGreatest(a: nat, b: nat, c: int)
    requires Divides(c, a) && Divides(c, b)
    ensures Gcd(a, b) % c == 0
    decreases b
  {
    if b > 0 {
      assert a % b == b * -(a / b) + a;
      DividesCombination(c, b, a, -(a / b));
      GcdGreatest(b, a % b, c);
    }
  }

  /** gcd(k*a, k*b) = k * gcd(a, b). */
  lemma {:induction false} GcdScale(a: nat, b: nat, k: nat)
    requires k > 0
    ensures Gcd(k * a, k * b) == k * Gcd(a, b)
    decreases b
  {
    if b > 0 {
      ModScale(a, b, k);
      GcdScale(b, a % b, k);
    }
  }

  /** Dividing both arguments by their gcd leaves a coprime pair. */
  lemma ReducedCoprime(a: nat, b: nat)
    requires a > 0 || b > 0
    ensures Gcd(a / Gcd(a, b), b / Gcd(a, b)) == 1
  {
    var g := Gcd(a, b);
    GcdDivides(a, b);
    var a', b' := a / g, b / g;
    assert a == g * a' by { DividesAbs(g, a); }
    assert b == g * b' by { DividesAbs(g, b); }
    GcdScale(a', b', g);
    assert g * Gcd(a', b') == g * 1;
    MulCancel(g, Gcd(a', b'), 1);
  }

  /** Two fractions in lowest terms with positive denominators that are equal
      by cross-multiplication are the same pair. */
  lemma CoprimePairUnique(n1: int, d1: int, n2: int, d2: int)
    requires d1 > 0 && d2 > 0
    requires Gcd(Abs(n1), d1) == 1 && Gcd(Abs(n2), d2) == 1
    requires n1 * d2 == n2 * d1
    ensures n1 == n2 && d1 == d2
  {
    DenominatorDivides(n1, d1, n2, d2);
    DenominatorDivides(n2, d2, n1, d1);
    MutualDivisors(d1, d2);
    SameDenominator(n1, n2, d1);
  }

  /** Cancellation of a common denominator, kept apart from the gcd facts in
      scope at its call so that the solver sees only the product equation. */
  lemma SameDenominator(n1: int, n2: int, d: int)
    requires d != 0 && n1 * d == n2 * d
    ensures n1 == n2
  {
    MulCancel(d, n1, n2);
  }

  /** In n1/d1 == n2/d2 with n1/d1 in lowest terms, d1 divides d2. */
  lemma DenominatorDivides(n1: int, d1: int, n2: int, d2: int)
    requires d1 > 0 && d2 > 0 && Gcd(Abs(n1), d1) == 1
    requires n1 * d2 == n2 * d1
    ensures Divides(d1, d2)
  {
    assert Abs(n1) * d2 == d1 * Abs(n2) by {
      AbsMul(n1, d2);
      AbsMul(n2, d1);
    }
    CoprimeDividesFactor(Abs(n1), d1, d2, Abs(n2));
  }

  /** If d1 divides a * d2 and shares no factor with a, it divides d2. */
  lemma CoprimeDividesFactor(a: nat, d1: nat, d2: nat, b: nat)
    requires d1 > 0 && d2 > 0 && Gcd(a, d1) == 1
    requires a * d2 == d1 * b
    ensures Divides(d1, d2)
  {
    var x, y := d2 * a, d2 * d1;
    assert Divides(d1, x) by { MulDivCancel(d1, b); }
    assert Divides(d1, y) by { MulDivCancel(d1, d2); }
    GcdGreatest(x, y, d1);
    GcdScale(a, d1, d2);
  }

  /** A positive divisor of a magnitude divides the number itself, and the
      quotient's magnitude is the magnitude's quotient. */
  lemma DividesAbs(c: int, x: int)
    requires Divides(c, Abs(x))
    ensures Divides(c, x) && Abs(x / c) == Abs(x) / c && x == c * (x / c)
  {
    var k := Abs(x) / c;
    assert Abs(x) == c * k;
    if x < 0 {
      assert x == c * -k;
      MulDivCancel(c, -k);
    } else {
      MulDivCancel(c, k);
    }
  }

  /** Dividing a pair with non-zero second component by the gcd of the
      magnitudes is exact and leaves a pair in lowest terms. */
  lemma ReduceByGcd(x: int, y: int)
    requires y != 0
    ensures Gcd(Abs(x), Abs(y)) > 0
    ensures x == Gcd(Abs(x), Abs(y)) * (x / Gcd(Abs(x), Abs(y)))
    ensures y == Gcd(Abs(x), Abs(y)) * (y / Gcd(Abs(x), Abs(y)))
    ensures Gcd(Abs(x / Gcd(Abs(x), Abs(y))), Abs(y / Gcd(Abs(x), Abs(y)))) == 1
  {
    var g := Gcd(Abs(x), Abs(y));
    GcdDivides(Abs(x), Abs(y));
    DividesAbs(g, x);
    DividesAbs(g, y);
    ReducedCoprime(Abs(x), Abs(y));
  }
}
