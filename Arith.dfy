/** Mathematical facts about natural numbers that the digit-vector
    operations are specified against: powers of ten, Euclidean division,
    and the greatest common divisor and least common multiple; and the
    product and quotient of two reals under a name. */
module Arith {

  /** x·y. The values of rational products are stated through this name, so
      that two products of equal factors are equal by congruence alone. */
  function Times(x: real, y: real): real
  {
    x * y
  }

  /** x / y under a name, for the same reason. */
  function Over(x: real, y: real): real
    requires y != 0.0
  {
    x / y
  }

  /** A product with a nonzero factor is zero only through the other factor. */
  lemma TimesZero(x: real, c: real)
    requires c != 0.0
    ensures Times(x, c) == 0.0 <==> x == 0.0
  {
    if x != 0.0 {
      assert Times(x, c) / c == x;
    }
  }

  /** Negating a numerator negates the quotient. */
  lemma NegatedQuotient(n: real, d: real)
    requires d != 0.0
    ensures (-n) / d == -(n / d)
  {
    assert (-n) / d * d == -n;
    assert -(n / d) * d == -n;
  }

  /** A borrow out of the top column: when r stays below p and b is at most
      a, r + b = a + borrow·p forces the borrow to be zero, so r = a − b. */
  lemma NoTopBorrow(r: int, b: int, a: int, borrow: int, p: int)
    requires 0 <= r < p && b <= a && 0 <= borrow <= 1
    requires r + b == a + borrow * p
    ensures borrow == 0 && r == a - b
  {
  }

  function Pow10(k: nat): (p: nat)
    ensures p >= 1
  {
    if k == 0 then 1 else 10 * Pow10(k - 1)
  }

  lemma {:induction false} Pow10Add(i: nat, j: nat)
    ensures Pow10(i + j) == Pow10(i) * Pow10(j)
  {
    if i > 0 {
      Pow10Add(i - 1, j);
      assert Pow10(i + j) == 10 * Pow10(i - 1 + j);
      assert 10 * (Pow10(i - 1) * Pow10(j)) == (10 * Pow10(i - 1)) * Pow10(j);
    }
  }

  lemma {:induction false} Pow10Monotone(i: nat, j: nat)
    requires i <= j
    ensures Pow10(i) <= Pow10(j)
  {
    if i < j {
      Pow10Monotone(i, j - 1);
    }
  }

  lemma MulAtLeast(d: int, k: int)
    requires d > 0 && k >= 1
    ensures d * k >= d
  {
    assert d * k == d * (k - 1) + d;
    assert d * (k - 1) >= 0;
  }

  lemma MulMonotone(a: int, b: int, c: int)
    requires a <= b && c >= 0
    ensures a * c <= b * c
  {
    assert b * c - a * c == (b - a) * c;
    assert (b - a) * c >= 0;
  }

  /** Euclidean division is determined by its defining equation. */
  lemma DivModUnique(n: int, d: int, q: int, r: int)
    requires d > 0 && 0 <= r < d && n == d * q + r
    ensures n / d == q && n % d == r
  {
    var q0, r0 := n / d, n % d;
    assert n == d * q0 + r0;
    if q0 < q {
      assert d * q - d * q0 == d * (q - q0);
      MulAtLeast(d, q - q0);
      assert false;
    } else if q0 > q {
      assert d * q0 - d * q == d * (q0 - q);
      MulAtLeast(d, q0 - q);
      assert false;
    }
  }

  lemma MulDivCancel(d: int, k: int)
    requires d > 0
    ensures (d * k) / d == k && (d * k) % d == 0
  {
    DivModUnique(d * k, d, k, 0);
  }

  /** Divisibility: `n` is a multiple of the positive `d`. */
  predicate Divides(d: nat, n: nat)
  {
    d > 0 && n % d == 0
  }

  lemma DividesWitness(d: nat, n: nat)
    requires Divides(d, n)
    ensures n == d * (n / d)
  {
  }

  lemma DividesMultiple(d: nat, k: nat)
    requires d > 0
    ensures Divides(d, d * k)
  {
    MulDivCancel(d, k);
  }

  lemma DividesTransitive(a: nat, b: nat, c: nat)
    requires Divides(a, b) && Divides(b, c)
    ensures Divides(a, c)
  {
    DividesWitness(a, b);
    DividesWitness(b, c);
    assert c == a * ((b / a) * (c / b));
    DividesMultiple(a, (b / a) * (c / b));
  }

  /** The only divisor of 1 is 1. */
  lemma DividesOne(d: nat)
    requires Divides(d, 1)
    ensures d == 1
  {
    if d > 1 {
      DivModUnique(1, d, 0, 1);
    }
  }

  /** (n/d)·(L/G) with n = a·G and L = b·d is the integer a·b. */
  lemma FractionTimesRatio(n: int, d: int, l: int, g: int, a: int, b: int)
    requires d > 0 && g > 0 && n == a * g && l == b * d
    ensures Times((n as real) / (d as real), Over(l as real, g as real)) == (a * b) as real
  {
    var A, B, D, G := a as real, b as real, d as real, g as real;
    assert n as real == A * G && l as real == B * D;
    assert (A * G) / D * ((B * D) / G) == A * B;
  }

  /** A fraction of integers equal to an integer m has numerator m·d. */
  lemma IntegerFraction(n: int, d: int, m: int)
    requires d > 0 && (n as real) / (d as real) == m as real
    ensures n == m * d
  {
    assert n as real == (m as real) * (d as real);
    assert (m as real) * (d as real) == (m * d) as real;
  }

  /** Euclid's algorithm on values: the reference the digit-vector GCD is proved against. */
  function Gcd(a: nat, b: nat): nat
    decreases b
  {
    if b == 0 then a else Gcd(b, a % b)
  }

  lemma GcdZeroLeft(b: nat)
    ensures Gcd(0, b) == b
  {
    if b != 0 {
      assert 0 % b == 0;
    }
  }

  lemma {:induction false} GcdDivides(a: nat, b: nat)
    requires a != 0 || b != 0
    ensures Gcd(a, b) > 0 && Divides(Gcd(a, b), a) && Divides(Gcd(a, b), b)
    decreases b
  {
    if b == 0 {
      MulDivCancel(a, 1);
    } else {
      GcdDivides(b, a % b);
      var g := Gcd(b, a % b);
      var kb, kr := b / g, (a % b) / g;
      DividesWitness(g, b);
      DividesWitness(g, a % b);
      assert a == b * (a / b) + a % b;
      assert b * (a / b) == g * (kb * (a / b));
      assert a == g * (kb * (a / b) + kr);
      DivModUnique(a, g, kb * (a / b) + kr, 0);
    }
  }

  lemma {:induction false} CommonDivisorDividesGcd(a: nat, b: nat, c: nat)
    requires Divides(c, a) && Divides(c, b)
    ensures Divides(c, Gcd(a, b))
    decreases b
  {
    if b != 0 {
      DividesWitness(c, a);
      DividesWitness(c, b);
      var ka, kb := a / c, b / c;
      assert a % b == a - b * (a / b);
      assert b * (a / b) == c * (kb * (a / b));
      assert a % b == c * (ka - kb * (a / b));
      DivModUnique(a % b, c, ka - kb * (a / b), 0);
      CommonDivisorDividesGcd(b, a % b, c);
    }
  }

  lemma GcdSelf(a: nat)
    requires a > 0
    ensures Gcd(a, a) == a
  {
    MulDivCancel(a, 1);
    assert a % a == 0;
    assert Gcd(a, a) == Gcd(a, 0);
  }

  /** A positive number divisible by a multiple `g·h` of itself has `h == 1`. */
  lemma MultipleDividingItself(g: nat, h: nat)
    requires g > 0 && h > 0 && Divides(g * h, g)
    ensures h == 1
  {
    var p := g * h;
    DividesWitness(p, g);
    var m := g / p;
    assert g == p * m;
    if m <= 0 {
      MulMonotone(m, 0, p);
      assert false;
    }
    MulAtLeast(p, m);
    MulAtLeast(g, h);
    assert g * h == g;
    assert g * (h - 1) == 0;
    if h > 1 {
      MulAtLeast(g, h - 1);
      assert false;
    }
  }

  lemma MultipleOfProduct(a: nat, g: nat, h: nat, k: nat)
    requires g > 0 && h > 0 && a == g * (h * k)
    ensures Divides(g * h, a)
  {
    assert a == (g * h) * k;
    DividesMultiple(g * h, k);
  }

  /** Dividing both operands by their gcd leaves coprime numbers. */
  lemma GcdOfQuotients(a: nat, b: nat)
    requires a != 0 || b != 0
    ensures var g := Gcd(a, b); g > 0 && Gcd(a / g, b / g) == 1
  {
    GcdDivides(a, b);
    CoprimeAfterDivision(a, b, Gcd(a, b));
  }

  lemma CoprimeAfterDivision(a: nat, b: nat, g: nat)
    requires a != 0 || b != 0
    requires g > 0 && Gcd(a, b) == g && Divides(g, a) && Divides(g, b)
    ensures Gcd(a / g, b / g) == 1
  {
    DividesWitness(g, a);
    DividesWitness(g, b);
    var a1, b1 := a / g, b / g;
    assert a1 != 0 || b1 != 0;
    GcdDivides(a1, b1);
    var h := Gcd(a1, b1);
    ScaledCommonDivisor(a, g, a1, h);
    ScaledCommonDivisor(b, g, b1, h);
    CommonDivisorDividesGcd(a, b, g * h);
    MultipleDividingItself(g, h);
  }

  /** A divisor `h` of `a1` scales to the divisor `g·h` of `g·a1`. */
  lemma ScaledCommonDivisor(a: nat, g: nat, a1: nat, h: nat)
    requires g > 0 && a == g * a1 && Divides(h, a1)
    ensures Divides(g * h, a)
  {
    DividesWitness(h, a1);
    MultipleOfProduct(a, g, h, a1 / h);
  }

  /** Two numbers that divide each other are equal. */
  lemma MutualDivisors(g: nat, d: nat)
    requires Divides(d, g) && Divides(g, d)
    ensures g == d
  {
    DividesWitness(d, g);
    DividesWitness(g, d);
    var k, m := g / d, d / g;
    assert k >= 1 && m >= 1;
    MulAtLeast(d, k);
    MulAtLeast(g, m);
  }

  /** A positive `d` divides `n` exactly when it is gcd(n, d). */
  lemma GcdOfDivisor(n: nat, d: nat)
    requires d > 0
    ensures Divides(d, n) <==> Gcd(n, d) == d
  {
    GcdDivides(n, d);
    if Divides(d, n) {
      MulDivCancel(d, 1);
      CommonDivisorDividesGcd(n, d, d);
      MutualDivisors(Gcd(n, d), d);
    }
  }

  /** For a divisor `g` of the positive `d`, d / g is 1 exactly when g is d. */
  lemma QuotientIsOne(d: nat, g: nat)
    requires d > 0 && Divides(g, d)
    ensures d / g == 1 <==> g == d
  {
    DividesWitness(g, d);
    MulDivCancel(d, 1);
  }

  /** a·b / gcd(a, b), the value the source's LCM computes. */
  function Lcm(a: nat, b: nat): nat
    requires a > 0 && b > 0
  {
    GcdPositive(a, b);
    a * b / Gcd(a, b)
  }

  lemma GcdPositive(a: nat, b: nat)
    requires a != 0 || b != 0
    ensures Gcd(a, b) > 0
  {
    GcdDivides(a, b);
  }

  lemma LcmIsCommonMultiple(a: nat, b: nat)
    requires a > 0 && b > 0
    ensures Gcd(a, b) > 0 && Lcm(a, b) > 0
    ensures Lcm(a, b) == a * (b / Gcd(a, b)) == b * (a / Gcd(a, b))
    ensures Divides(a, Lcm(a, b)) && Divides(b, Lcm(a, b))
    ensures Gcd(a, b) * Lcm(a, b) == a * b
  {
    GcdDivides(a, b);
    var g := Gcd(a, b);
    DividesWitness(g, a);
    DividesWitness(g, b);
    var a1, b1 := a / g, b / g;
    assert a * b == g * (a * b1);
    assert a * b == g * (a1 * b);
    MulDivCancel(g, a * b1);
    MulDivCancel(g, a1 * b);
    assert Lcm(a, b) == a * b1;
    assert b1 > 0;
    MulAtLeast(a, b1);
    DividesMultiple(a, b1);
    DividesMultiple(b, a1);
    assert b * a1 == a1 * b;
  }

  /** a·b / gcd(a, b) is the least common multiple: it divides every common
      multiple of a and b. */
  lemma LcmIsLeast(a: nat, b: nat, m: nat)
    requires a > 0 && b > 0 && Divides(a, m) && Divides(b, m)
    ensures Divides(Lcm(a, b), m)
  {
    LcmIsCommonMultiple(a, b);
    var g, l := Gcd(a, b), Lcm(a, b);
    // d = gcd(m, l) is itself a common multiple of a and b dividing l
    var d := Gcd(m, l);
    GcdDivides(m, l);
    CommonDivisorDividesGcd(m, l, a);
    CommonDivisorDividesGcd(m, l, b);
    DividesWitness(d, l);
    DividesWitness(a, d);
    DividesWitness(b, d);
    var t, x, y := l / d, d / a, d / b;
    // so l = d·t makes t a common divisor of the coprime a/g and b/g
    QuotientFactor(a, b / g, x, t);
    QuotientFactor(b, a / g, y, t);
    GcdOfQuotients(a, b);
    CommonDivisorDividesGcd(a / g, b / g, t);
    DividesOne(t);
  }

  /** From `a·p == (a·x)·t` with `a` positive, `t` divides `p`. */
  lemma QuotientFactor(a: nat, p: nat, x: nat, t: nat)
    requires a > 0 && t > 0 && a * p == (a * x) * t
    ensures Divides(t, p)
  {
    assert a * p == a * (x * t);
    MulDivCancel(a, p);
    MulDivCancel(a, x * t);
    assert p == x * t;
    DividesMultiple(t, x);
  }
}
