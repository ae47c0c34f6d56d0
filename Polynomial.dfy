/** Polynomials with rational coefficients (src/Polynomial.cpp,
    src/Polynomial.h): a vector of RationalNumbers whose entry i is the
    coefficient of x^i.

    Every operation is specified against `Values`, the coefficient sequence
    as reals, and the sequence algebra of PolyMath. The source's operations
    are `const` and return a new polynomial, so a polynomial is a value here;
    the operations whose bodies are loops over coefficient vectors are
    methods. A polynomial built by the operations keeps every denominator
    nonzero, which is the `Valid` invariant the operations require. */
module Polynomial {
  import opened Arith
  import opened Failures
  import opened NaturalNumber
  import opened IntegerNumber
  import opened RationalNumber
  import opened PolyMath
  import opened PolyAlgebra

  datatype Poly = Poly(coefficients: seq<Rational>)

  /** Every coefficient is a well-formed fraction with a nonzero denominator. */
  predicate CoefficientsValid(c: seq<Rational>)
  {
    forall i :: 0 <= i < |c| ==> WellFormed(c[i]) && Val(c[i].den) != 0
  }

  /** The invariant of a Polynomial: a nonempty vector of valid coefficients. */
  predicate Valid(p: Poly)
  {
    |p.coefficients| > 0 && CoefficientsValid(p.coefficients)
  }

  /** The coefficient values, index i holding the coefficient of x^i. */
  function Values(c: seq<Rational>): (v: seq<real>)
    requires CoefficientsValid(c)
    ensures |v| == |c| && forall i :: 0 <= i < |c| ==> v[i] == RVal(c[i])
  {
    seq(|c|, i requires 0 <= i < |c| => RVal(c[i]))
  }

  /** 0/1, the coefficient every operation pads and fills with. */
  const ZeroCoefficient := Rational(Integer([0], false), [1])

  /** The single-zero polynomial [0/1]. */
  const ZeroPolynomial := Poly([ZeroCoefficient])

  lemma ZeroCoefficientValue()
    ensures WellFormed(ZeroCoefficient) && Val(ZeroCoefficient.den) == 1
    ensures RVal(ZeroCoefficient) == 0.0 && IsZeroCoefficient(ZeroCoefficient)
  {
    assert Val([0]) == 0 && Val([1]) == 1;
  }

  /** The source's zero test on a coefficient: its numerator's magnitude is 0. */
  predicate IsZeroCoefficient(r: Rational)
  {
    !IsNotEqualZero(r.num.magnitude)
  }

  /** A fraction in lowest terms, as `reduce` leaves it. */
  predicate InLowestTerms(r: Rational)
  {
    Gcd(Val(r.num.magnitude), Val(r.den)) == 1
  }

  /** The zero test agrees with the value. */
  lemma ZeroCoefficientIff(r: Rational)
    requires WellFormed(r) && Val(r.den) != 0
    ensures IsZeroCoefficient(r) <==> RVal(r) == 0.0
  {
    var n, d := IVal(r.num) as real, Val(r.den) as real;
    assert RVal(r) * d == n;
  }

  lemma ZeroCoefficientsIff(c: seq<Rational>)
    requires CoefficientsValid(c)
    ensures forall i :: 0 <= i < |c| ==> (IsZeroCoefficient(c[i]) <==> Values(c)[i] == 0.0)
  {
    forall i | 0 <= i < |c| {
      ZeroCoefficientIff(c[i]);
    }
  }

  /** The single-zero polynomial in the source's sense (degree 0, zero
      numerator), which the zero checks of multiply and GCD look for. */
  predicate IsZeroPolynomial(p: Poly)
  {
    |p.coefficients| == 1 && IsZeroCoefficient(p.coefficients[0])
  }

  // ---------------------------------------------------------------- constructors

  /** The explicit vector constructor stores the vector as given: no
      reversal and no trimming. */
  function FromVector(coefficients: seq<Rational>): (p: Poly)
    ensures p.coefficients == coefficients
    ensures CoefficientsValid(coefficients) ==> Values(p.coefficients) == Values(coefficients)
  {
    Poly(coefficients)
  }

  /** The string-vector constructor: coefficient texts highest degree first,
      stored reversed so that entry i is the coefficient of x^i. The first
      text that fails to parse, counting from the end, is the failure. */
  method FromStrings(texts: seq<string>) returns (r: Result<Poly>)
    requires forall i :: 0 <= i < |texts| ==> IsRationalText(texts[i])
    ensures |texts| == 0 ==> r == Err(EmptyInput)
    ensures r.Ok? <==> |texts| > 0 && forall i :: 0 <= i < |texts| ==> RationalNumber.FromString(texts[i]).Ok?
    ensures r.Ok? ==> (|r.value.coefficients| == |texts|
      && forall k :: 0 <= k < |texts| ==> r.value.coefficients[k] == RationalNumber.FromString(texts[|texts| - 1 - k]).value)
  {
    if |texts| == 0 {
      return Err(EmptyInput);
    }
    var coefficients: seq<Rational> := [];
    var i := |texts|;
    while i > 0
      invariant 0 <= i <= |texts| && |coefficients| == |texts| - i
      invariant forall j :: i <= j < |texts| ==> RationalNumber.FromString(texts[j]).Ok?
      invariant forall k :: 0 <= k < |coefficients| ==> coefficients[k] == RationalNumber.FromString(texts[|texts| - 1 - k]).value
    {
      i := i - 1;
      var c := RationalNumber.FromString(texts[i]);
      if c.Err? {
        return Err(c.error);
      }
      coefficients := coefficients + [c.value];
    }
    r := Ok(Poly(coefficients));
  }

  /** The pair constructor: (numerator, denominator) pairs highest degree
      first, stored reversed. */
  method FromPairs(pairs: seq<(int, int)>) returns (r: Result<Poly>)
    requires forall i :: 0 <= i < |pairs| ==>
      -0x7fff_ffff_ffff_ffff <= pairs[i].0 <= 0x7fff_ffff_ffff_ffff
      && -0x8000_0000_0000_0000 <= pairs[i].1 < 0x8000_0000_0000_0000
    ensures r.Ok? <==> |pairs| > 0
    ensures r.Err? ==> r.error == EmptyInput
    ensures r.Ok? ==> (|r.value.coefficients| == |pairs|
      && forall k :: 0 <= k < |pairs| ==>
        var c := r.value.coefficients[k];
        var pair := pairs[|pairs| - 1 - k];
        WellFormed(c) && IVal(c.num) == pair.0 && Val(c.den) == AsUnsigned(pair.1))
  {
    if |pairs| == 0 {
      return Err(EmptyInput);
    }
    var coefficients: seq<Rational> := [];
    var i := |pairs|;
    while i > 0
      invariant 0 <= i <= |pairs| && |coefficients| == |pairs| - i
      invariant forall k :: 0 <= k < |coefficients| ==>
        var c := coefficients[k];
        var pair := pairs[|pairs| - 1 - k];
        WellFormed(c) && IVal(c.num) == pair.0 && Val(c.den) == AsUnsigned(pair.1)
    {
      i := i - 1;
      coefficients := coefficients + [RationalNumber.FromMachine(pairs[i].0, pairs[i].1)];
    }
    r := Ok(Poly(coefficients));
  }

  // ---------------------------------------------------------------- degree and leading coefficient

  /** getDegree: the index of the last coefficient. */
  function GetDegree(p: Poly): (d: nat)
    requires |p.coefficients| > 0
    ensures d < |p.coefficients|
    ensures CoefficientsValid(p.coefficients) ==> forall k :: k > d ==> Coef(Values(p.coefficients), k) == 0.0
  {
    |p.coefficients| - 1
  }

  /** getLeadingCoefficient: the coefficient at the degree. */
  function GetLeadingCoefficient(p: Poly): (c: Rational)
    requires Valid(p)
    ensures WellFormed(c) && Val(c.den) != 0
    ensures RVal(c) == Coef(Values(p.coefficients), GetDegree(p))
  {
    p.coefficients[|p.coefficients| - 1]
  }

  /** For a trimmed polynomial other than zero, the degree is the highest
      power with a nonzero coefficient. */
  lemma DegreeOfTrimmed(p: Poly)
    requires Valid(p) && PolyMath.Trimmed(Values(p.coefficients)) && !IsZero(Values(p.coefficients))
    ensures Coef(Values(p.coefficients), GetDegree(p)) != 0.0
    ensures forall k :: k > GetDegree(p) ==> Coef(Values(p.coefficients), k) == 0.0
  {
  }

  // ---------------------------------------------------------------- add and subtract

  /** add: coefficient-wise sums over the longer vector, zero coefficients
      popped from the top but never the constant term, and every nonzero
      coefficient reduced. */
  method Add(a: Poly, b: Poly) returns (r: Poly)
    requires Valid(a) && Valid(b)
    ensures Valid(r)
    ensures Values(r.coefficients) == Trim(Sum(Values(a.coefficients), Values(b.coefficients)))
    ensures forall k :: 0 <= k < |r.coefficients| && !IsZeroCoefficient(r.coefficients[k]) ==>
      InLowestTerms(r.coefficients[k])
  {
    var longer, shorter := a.coefficients, b.coefficients;
    if |a.coefficients| < |b.coefficients| {
      longer, shorter := b.coefficients, a.coefficients;
    }
    ghost var S := Sum(Values(longer), Values(shorter));
    var result: seq<Rational> := [];
    for i := 0 to |shorter|
      invariant CoefficientsValid(result) && Values(result) == S[..i]
    {
      var s := RationalNumber.Add(longer[i], shorter[i]);
      SumStep(longer, shorter, result, i, s.value);
      result := result + [s.value];
    }
    for i := |shorter| to |longer|
      invariant CoefficientsValid(result) && Values(result) == S[..i]
    {
      SumStep(longer, shorter, result, i, longer[i]);
      result := result + [longer[i]];
    }
    assert S[..|longer|] == S;
    SumSymmetric(Values(a.coefficients), Values(b.coefficients));
    result := PopZeroTop(result);
    result := ReduceNonzero(result);
    r := Poly(result);
  }

  /** Appending a coefficient appends its value. */
  lemma ValuesSnoc(c: seq<Rational>, x: Rational)
    requires CoefficientsValid(c) && WellFormed(x) && Val(x.den) != 0
    ensures CoefficientsValid(c + [x]) && Values(c + [x]) == Values(c) + [RVal(x)]
  {
  }

  /** One step of the summing loops of add: a coefficient whose value is
      entry i of the sum extends the prefix of the sum. */
  lemma SumStep(l: seq<Rational>, s: seq<Rational>, result: seq<Rational>, i: nat, x: Rational)
    requires CoefficientsValid(l) && CoefficientsValid(s) && CoefficientsValid(result)
    requires |s| <= |l| && i < |l| && Values(result) == Sum(Values(l), Values(s))[..i]
    requires WellFormed(x) && Val(x.den) != 0
    requires i < |s| ==> RVal(x) == RVal(l[i]) + RVal(s[i])
    requires i >= |s| ==> x == l[i]
    ensures CoefficientsValid(result + [x])
    ensures Values(result + [x]) == Sum(Values(l), Values(s))[..i + 1]
  {
    var S := Sum(Values(l), Values(s));
    ValuesSnoc(result, x);
    assert S[..i + 1] == S[..i] + [S[i]];
  }

  /** The trailing-zero loop of add: zero coefficients popped from the top
      while more than one is left. */
  method PopZeroTop(c: seq<Rational>) returns (t: seq<Rational>)
    requires |c| > 0 && CoefficientsValid(c)
    ensures 0 < |t| <= |c| && t == c[..|t|]
    ensures CoefficientsValid(t) && Values(t) == Trim(Values(c))
  {
    ghost var S := Values(c);
    t := c;
    while |t| > 1 && IsZeroCoefficient(t[|t| - 1])
      invariant 0 < |t| <= |c| && t == c[..|t|]
      invariant forall k :: |t| <= k < |S| ==> S[k] == 0.0
    {
      ZeroCoefficientIff(t[|t| - 1]);
      t := t[..|t| - 1];
    }
    ZeroCoefficientIff(t[|t| - 1]);
    assert Values(t) == S[..|t|];
    TrimUnique(S, |t|);
  }

  /** The reducing loop of add: every nonzero coefficient reduced. */
  method ReduceNonzero(c: seq<Rational>) returns (d: seq<Rational>)
    requires CoefficientsValid(c)
    ensures CoefficientsValid(d) && Values(d) == Values(c)
    ensures forall k :: 0 <= k < |d| && !IsZeroCoefficient(d[k]) ==> InLowestTerms(d[k])
  {
    d := c;
    for k := 0 to |c|
      invariant |d| == |c| && CoefficientsValid(d)
      invariant forall j :: 0 <= j < |c| ==> RVal(d[j]) == RVal(c[j])
      invariant forall j :: 0 <= j < k && !IsZeroCoefficient(d[j]) ==> InLowestTerms(d[j])
    {
      if !IsZeroCoefficient(d[k]) {
        var reduced := Reduced(d[k]).value;
        d := d[k := reduced];
      }
    }
  }

  /** The reducing loop of multiplyByRational: every coefficient reduced. */
  method ReduceAll(c: seq<Rational>) returns (d: seq<Rational>)
    requires CoefficientsValid(c)
    ensures CoefficientsValid(d) && Values(d) == Values(c)
    ensures forall k :: 0 <= k < |d| ==> InLowestTerms(d[k])
  {
    d := c;
    for k := 0 to |c|
      invariant |d| == |c| && CoefficientsValid(d)
      invariant forall j :: 0 <= j < |c| ==> RVal(d[j]) == RVal(c[j])
      invariant forall j :: 0 <= j < k ==> InLowestTerms(d[j])
    {
      d := d[k := Reduced(d[k]).value];
    }
  }

  /** A numerator negated over the same denominator has the negated value. */
  lemma NegatedValue(c: Rational)
    requires WellFormed(c) && Val(c.den) != 0
    ensures WellFormed(Rational(Negate(c.num), c.den)) && RVal(Rational(Negate(c.num), c.den)) == -RVal(c)
  {
    NegatedQuotient(IVal(c.num) as real, Val(c.den) as real);
  }

  /** subtract: add with every numerator of the subtrahend negated. */
  method Subtract(a: Poly, b: Poly) returns (r: Poly)
    requires Valid(a) && Valid(b)
    ensures Valid(r)
    ensures Values(r.coefficients) == Trim(Sum(Values(a.coefficients), Neg(Values(b.coefficients))))
    ensures forall k :: 0 <= k < |r.coefficients| && !IsZeroCoefficient(r.coefficients[k]) ==>
      InLowestTerms(r.coefficients[k])
  {
    var negated: seq<Rational> := [];
    for i := 0 to |b.coefficients|
      invariant |negated| == i && CoefficientsValid(negated)
      invariant forall k :: 0 <= k < i ==> RVal(negated[k]) == -RVal(b.coefficients[k])
    {
      var c := b.coefficients[i];
      NegatedValue(c);
      negated := negated + [Rational(Negate(c.num), c.den)];
    }
    assert Values(negated) == Neg(Values(b.coefficients));
    r := Add(a, Poly(negated));
  }

  // ---------------------------------------------------------------- scaling

  /** multiplyByRational: [0/1] for a zero scalar; otherwise every
      coefficient multiplied by the scalar and reduced, the length kept. */
  method MultiplyByRational(p: Poly, c: Rational) returns (r: Poly)
    requires Valid(p) && WellFormed(c) && Val(c.den) != 0
    ensures Valid(r)
    ensures IsZeroCoefficient(c) ==> r == ZeroPolynomial
    ensures !IsZeroCoefficient(c) ==> Values(r.coefficients) == Scale(Values(p.coefficients), RVal(c))
    ensures !IsZeroCoefficient(c) ==> forall k :: 0 <= k < |r.coefficients| ==> InLowestTerms(r.coefficients[k])
  {
    if IsZeroCoefficient(c) {
      ZeroCoefficientValue();
      return ZeroPolynomial;
    }
    var result: seq<Rational> := [];
    for i := 0 to |p.coefficients|
      invariant CoefficientsValid(result) && Values(result) == Scale(Values(p.coefficients), RVal(c))[..i]
    {
      var m := CoefficientProduct(p.coefficients[i], c);
      ScaledAt(p.coefficients, c, i, m);
      PrefixStep(result, Scale(Values(p.coefficients), RVal(c)), i, m);
      result := result + [m];
    }
    assert Scale(Values(p.coefficients), RVal(c))[..|p.coefficients|] == Scale(Values(p.coefficients), RVal(c));
    result := ReduceAll(result);
    r := Poly(result);
  }

  /** The product of two coefficients, seen only through its value: the
      callers' proofs then need no facts about numerators and denominators. */
  method CoefficientProduct(x: Rational, c: Rational) returns (m: Rational)
    requires WellFormed(x) && Val(x.den) != 0 && WellFormed(c) && Val(c.den) != 0
    ensures WellFormed(m) && Val(m.den) != 0 && RVal(m) == Times(RVal(x), RVal(c))
  {
    m := RationalNumber.Multiply(x, c);
  }

  /** The sum of two coefficients, seen only through its value. */
  method CoefficientSum(x: Rational, y: Rational) returns (s: Rational)
    requires WellFormed(x) && Val(x.den) != 0 && WellFormed(y) && Val(y.den) != 0
    ensures WellFormed(s) && Val(s.den) != 0 && RVal(s) == RVal(x) + RVal(y)
  {
    s := RationalNumber.Add(x, y).value;
  }

  /** The difference of two coefficients, seen only through its value. */
  method CoefficientDifference(x: Rational, y: Rational) returns (d: Rational)
    requires WellFormed(x) && Val(x.den) != 0 && WellFormed(y) && Val(y.den) != 0
    ensures WellFormed(d) && Val(d.den) != 0 && RVal(d) == RVal(x) - RVal(y)
  {
    d := RationalNumber.Subtract(x, y).value;
  }

  /** The quotient of two coefficients, the divisor nonzero, seen only
      through its value. */
  method CoefficientQuotient(x: Rational, y: Rational) returns (q: Rational)
    requires WellFormed(x) && Val(x.den) != 0 && WellFormed(y) && Val(y.den) != 0 && !IsZeroCoefficient(y)
    ensures RVal(y) != 0.0
    ensures WellFormed(q) && Val(q.den) != 0 && RVal(q) == Over(RVal(x), RVal(y))
  {
    ZeroCoefficientIff(y);
    q := RationalNumber.Division(x, y).value;
  }

  /** Appending the next entry extends a prefix of a value sequence. */
  lemma PrefixStep(result: seq<Rational>, S: seq<real>, i: nat, x: Rational)
    requires CoefficientsValid(result) && i < |S| && Values(result) == S[..i]
    requires WellFormed(x) && Val(x.den) != 0 && RVal(x) == S[i]
    ensures CoefficientsValid(result + [x]) && Values(result + [x]) == S[..i + 1]
  {
    ValuesSnoc(result, x);
    assert S[..i + 1] == S[..i] + [S[i]];
  }

  lemma ScaledAt(p: seq<Rational>, c: Rational, i: nat, x: Rational)
    requires CoefficientsValid(p) && WellFormed(c) && Val(c.den) != 0 && i < |p|
    requires Val(x.den) != 0 && RVal(x) == Times(RVal(p[i]), RVal(c))
    ensures RVal(x) == Scale(Values(p), RVal(c))[i]
  {
  }

  /** multiplyByXInKPower: k zero coefficients prepended, so coefficient i
      moves to index i + k. */
  method MultiplyByXInKPower(p: Poly, k: nat) returns (r: Poly)
    requires Valid(p)
    ensures Valid(r) && r.coefficients == seq(k, _ => ZeroCoefficient) + p.coefficients
    ensures Values(r.coefficients) == Shift(Values(p.coefficients), k)
  {
    ZeroCoefficientValue();
    var result: seq<Rational> := [];
    for i := 0 to k
      invariant result == seq(i, _ => ZeroCoefficient)
    {
      result := result + [ZeroCoefficient];
    }
    for i := 0 to |p.coefficients|
      invariant result == seq(k, _ => ZeroCoefficient) + p.coefficients[..i]
    {
      result := result + [p.coefficients[i]];
    }
    assert p.coefficients[..|p.coefficients|] == p.coefficients;
    r := Poly(result);
    assert Values(r.coefficients) == Shift(Values(p.coefficients), k);
  }

  // ---------------------------------------------------------------- multiply

  /** multiply: [0/1] when either factor is the single zero; otherwise the
      schoolbook product into n + m − 1 zero-initialised slots, skipping
      zero coefficients of either factor, neither trimmed nor reduced. In
      both cases the coefficients are those of the product. */
  method Multiply(a: Poly, b: Poly) returns (r: Poly)
    requires Valid(a) && Valid(b)
    ensures Valid(r)
    ensures IsZeroPolynomial(a) || IsZeroPolynomial(b) ==> r == ZeroPolynomial
    ensures !IsZeroPolynomial(a) && !IsZeroPolynomial(b) ==>
      Values(r.coefficients) == Conv(Values(a.coefficients), Values(b.coefficients))
    ensures forall k :: Coef(Values(r.coefficients), k) == ConvAt(Values(a.coefficients), Values(b.coefficients), k)
  {
    ghost var A, B := Values(a.coefficients), Values(b.coefficients);
    if IsZeroPolynomial(a) || IsZeroPolynomial(b) {
      ZeroProduct(a, b);
      return ZeroPolynomial;
    }
    var n, m := |a.coefficients|, |b.coefficients|;
    var result := seq(n + m - 1, _ => ZeroCoefficient);
    ZeroRows(result, A, B);
    for i := 0 to n
      invariant CoefficientsValid(result) && Values(result) == ConvRows(A, B, i, 0)
    {
      result := AddRow(a.coefficients, b.coefficients, result, i);
    }
    ConvRowsEnd(A, B);
    r := Poly(result);
    ProductCoefficients(Values(r.coefficients), A, B);
  }

  /** One pass of multiply's outer loop: a_i·b_j added into slot i + j for
      every j, skipped when a_i is zero and for every zero b_j. */
  method AddRow(a: seq<Rational>, b: seq<Rational>, result: seq<Rational>, i: nat) returns (next: seq<Rational>)
    requires CoefficientsValid(a) && CoefficientsValid(b) && CoefficientsValid(result)
    requires i < |a| && 0 < |b| && Values(result) == ConvRows(Values(a), Values(b), i, 0)
    ensures CoefficientsValid(next) && Values(next) == ConvRows(Values(a), Values(b), i + 1, 0)
  {
    next := result;
    if IsZeroCoefficient(a[i]) {
      SkipRow(a, b, result, i);
      return;
    }
    for j := 0 to |b|
      invariant CoefficientsValid(next) && Values(next) == ConvRows(Values(a), Values(b), i, j)
    {
      next := AddColumn(a, b, next, i, j);
    }
    ConvRowsRow(Values(a), Values(b), i);
  }

  /** One pass of multiply's inner loop: a_i·b_j added into slot i + j,
      skipped for a zero b_j. */
  method AddColumn(a: seq<Rational>, b: seq<Rational>, result: seq<Rational>, i: nat, j: nat) returns (next: seq<Rational>)
    requires CoefficientsValid(a) && CoefficientsValid(b) && CoefficientsValid(result)
    requires i < |a| && j < |b| && Values(result) == ConvRows(Values(a), Values(b), i, j)
    ensures CoefficientsValid(next) && Values(next) == ConvRows(Values(a), Values(b), i, j + 1)
  {
    if IsZeroCoefficient(b[j]) {
      SkipColumn(a, b, result, i, j);
      next := result;
    } else {
      next := AddTerm(a, b, result, i, j);
    }
  }

  /** The inner step of multiply: slot i + j replaced by itself plus a_i·b_j. */
  method AddTerm(a: seq<Rational>, b: seq<Rational>, result: seq<Rational>, i: nat, j: nat) returns (next: seq<Rational>)
    requires CoefficientsValid(a) && CoefficientsValid(b) && CoefficientsValid(result)
    requires i < |a| && j < |b| && Values(result) == ConvRows(Values(a), Values(b), i, j)
    ensures CoefficientsValid(next) && Values(next) == ConvRows(Values(a), Values(b), i, j + 1)
  {
    var product := CoefficientProduct(a[i], b[j]);
    var sum := CoefficientSum(result[i + j], product);
    ProductAt(a, b, i, j, product);
    AccumulateStep(a, b, result, i, j, product, sum);
    next := result[i + j := sum];
  }

  /** The single zero times anything has only zero coefficients. */
  lemma ZeroProduct(a: Poly, b: Poly)
    requires Valid(a) && Valid(b) && (IsZeroPolynomial(a) || IsZeroPolynomial(b))
    ensures Valid(ZeroPolynomial)
    ensures forall k :: Coef(Values(ZeroPolynomial.coefficients), k) == ConvAt(Values(a.coefficients), Values(b.coefficients), k)
  {
    ZeroCoefficientValue();
    ZeroCoefficientIff(a.coefficients[0]);
    ZeroCoefficientIff(b.coefficients[0]);
    forall k
      ensures Coef(Values(ZeroPolynomial.coefficients), k) == ConvAt(Values(a.coefficients), Values(b.coefficients), k)
    {
      ConvOfZero(Values(a.coefficients), Values(b.coefficients), k);
    }
  }

  /** The product sequence agrees with ConvAt at every index, inside and out. */
  lemma ProductCoefficients(v: seq<real>, A: seq<real>, B: seq<real>)
    requires |A| > 0 && |B| > 0 && v == Conv(A, B)
    ensures forall k :: Coef(v, k) == ConvAt(A, B, k)
  {
    forall k
      ensures Coef(v, k) == ConvAt(A, B, k)
    {
      if k < 0 || k >= |v| {
        ConvAtOutside(A, B, k);
      }
    }
  }

  /** The zero-initialised slots hold the empty partial product. */
  lemma ZeroRows(result: seq<Rational>, A: seq<real>, B: seq<real>)
    requires |A| > 0 && |B| > 0 && result == seq(|A| + |B| - 1, _ => ZeroCoefficient)
    ensures CoefficientsValid(result) && Values(result) == ConvRows(A, B, 0, 0)
  {
    ZeroCoefficientValue();
    ConvRowsStart(A, B);
  }

  /** A zero a_i adds nothing: row i is done as soon as it starts. */
  lemma SkipRow(A: seq<Rational>, B: seq<Rational>, result: seq<Rational>, i: nat)
    requires CoefficientsValid(A) && CoefficientsValid(B) && CoefficientsValid(result)
    requires i < |A| && 0 < |B| && IsZeroCoefficient(A[i])
    requires Values(result) == ConvRows(Values(A), Values(B), i, 0)
    ensures Values(result) == ConvRows(Values(A), Values(B), i + 1, 0)
  {
    ZeroCoefficientIff(A[i]);
    ConvRowsZeroRow(Values(A), Values(B), i);
  }

  /** A zero b_j adds nothing to row i. */
  lemma SkipColumn(A: seq<Rational>, B: seq<Rational>, result: seq<Rational>, i: nat, j: nat)
    requires CoefficientsValid(A) && CoefficientsValid(B) && CoefficientsValid(result)
    requires i < |A| && j < |B| && IsZeroCoefficient(B[j])
    requires Values(result) == ConvRows(Values(A), Values(B), i, j)
    ensures Values(result) == ConvRows(Values(A), Values(B), i, j + 1)
  {
    ZeroCoefficientIff(B[j]);
    ConvRowsZeroColumn(Values(A), Values(B), i, j);
  }

  /** Entry i + j replaced by itself plus a_i·b_j advances row i. */
  lemma AccumulateStep(A: seq<Rational>, B: seq<Rational>, result: seq<Rational>, i: nat, j: nat, p: Rational, x: Rational)
    requires CoefficientsValid(A) && CoefficientsValid(B) && CoefficientsValid(result)
    requires i < |A| && j < |B| && Values(result) == ConvRows(Values(A), Values(B), i, j)
    requires Val(p.den) != 0 && RVal(p) == Times(Values(A)[i], Values(B)[j])
    requires WellFormed(x) && Val(x.den) != 0 && RVal(x) == RVal(result[i + j]) + RVal(p)
    ensures CoefficientsValid(result[i + j := x])
    ensures Values(result[i + j := x]) == ConvRows(Values(A), Values(B), i, j + 1)
  {
    UpdateValues(result, i + j, x);
    ConvRowsAccumulate(Values(A), Values(B), i, j, RVal(p), RVal(x));
  }

  /** A product of coefficients i of `A` and j of `B` is the product of their values. */
  lemma ProductAt(A: seq<Rational>, B: seq<Rational>, i: nat, j: nat, p: Rational)
    requires CoefficientsValid(A) && CoefficientsValid(B) && i < |A| && j < |B|
    requires Val(p.den) != 0 && RVal(p) == Times(RVal(A[i]), RVal(B[j]))
    ensures RVal(p) == Times(Values(A)[i], Values(B)[j])
  {
  }

  /** Replacing a coefficient replaces its value. */
  lemma UpdateValues(c: seq<Rational>, k: nat, x: Rational)
    requires CoefficientsValid(c) && k < |c| && WellFormed(x) && Val(x.den) != 0
    ensures CoefficientsValid(c[k := x]) && Values(c[k := x]) == Values(c)[k := RVal(x)]
  {
  }

  // ---------------------------------------------------------------- quotient

  /** quotient: DivideByZero when the divisor's top coefficient is zero;
      [0/1] when the dividend is shorter than the divisor; otherwise long
      division, whose quotient q has a − q·b below the divisor's degree,
      with zero entries popped from the top of q and nothing reduced. */
  method Quotient(a: Poly, b: Poly) returns (r: Result<Poly>)
    requires Valid(a) && Valid(b)
    ensures r.Err? <==> IsZeroCoefficient(b.coefficients[|b.coefficients| - 1])
    ensures r.Err? ==> r.error == DivideByZero
    ensures r.Ok? ==> Valid(r.value) && PolyMath.Trimmed(Values(r.value.coefficients))
    ensures r.Ok? && |a.coefficients| < |b.coefficients| ==> r.value == ZeroPolynomial
    ensures r.Ok? && |a.coefficients| >= |b.coefficients| ==>
      |r.value.coefficients| <= |a.coefficients| - |b.coefficients| + 1
    ensures r.Ok? ==> forall k :: k >= |b.coefficients| - 1 ==>
      Coef(Values(a.coefficients), k) == ConvAt(Values(r.value.coefficients), Values(b.coefficients), k)
  {
    var lead := b.coefficients[|b.coefficients| - 1];
    if IsZeroCoefficient(lead) {
      return Err(DivideByZero);
    }
    if |a.coefficients| < |b.coefficients| {
      ShortDividend(a, b);
      return Ok(ZeroPolynomial);
    }
    var quotient := LongDivision(a.coefficients, b.coefficients);
    var trimmed := PopZeroTop(quotient);
    TrimmedQuotient(Values(a.coefficients), Values(quotient), Values(b.coefficients));
    r := Ok(Poly(trimmed));
  }

  /** A dividend shorter than the divisor is all remainder. */
  lemma ShortDividend(a: Poly, b: Poly)
    requires Valid(a) && Valid(b) && |a.coefficients| < |b.coefficients|
    ensures Valid(ZeroPolynomial) && PolyMath.Trimmed(Values(ZeroPolynomial.coefficients))
    ensures forall k :: k >= |b.coefficients| - 1 ==>
      Coef(Values(a.coefficients), k) == ConvAt(Values(ZeroPolynomial.coefficients), Values(b.coefficients), k)
  {
    ZeroCoefficientValue();
    assert Values(ZeroPolynomial.coefficients) == [0.0];
    forall k | k >= |b.coefficients| - 1
      ensures Coef(Values(a.coefficients), k) == ConvAt([0.0], Values(b.coefficients), k)
    {
      ConvOfZero([0.0], Values(b.coefficients), k);
    }
  }

  /** Popping zero entries from the top of the quotient keeps the property. */
  lemma TrimmedQuotient(A: seq<real>, Q: seq<real>, B: seq<real>)
    requires |Q| > 0 && forall k :: k >= |B| - 1 ==> Coef(A, k) == ConvAt(Q, B, k)
    ensures forall k :: k >= |B| - 1 ==> Coef(A, k) == ConvAt(Trim(Q), B, k)
  {
    forall k | k >= |B| - 1
      ensures Coef(A, k) == ConvAt(Trim(Q), B, k)
    {
      TrimConv(Q, B, k);
    }
  }

  /** The column loop of quotient: for each top position of the remainder,
      from the dividend's top down to the divisor's, a nonzero entry is
      divided by the divisor's top coefficient into the quotient, and that
      multiple of the divisor is subtracted from the remainder. */
  method LongDivision(a: seq<Rational>, b: seq<Rational>) returns (quotient: seq<Rational>)
    requires CoefficientsValid(a) && CoefficientsValid(b) && 0 < |b| <= |a|
    requires !IsZeroCoefficient(b[|b| - 1])
    ensures CoefficientsValid(quotient) && |quotient| == |a| - |b| + 1
    ensures forall k :: k >= |b| - 1 ==> Coef(Values(a), k) == ConvAt(Values(quotient), Values(b), k)
  {
    var remainder := a;
    quotient := seq(|a| - |b| + 1, _ => ZeroCoefficient);
    ZeroQuotient(a, b, quotient);
    var pos := |a|;
    while pos >= |b|
      invariant |b| - 1 <= pos <= |a|
      invariant DivisionState(a, b, remainder, quotient, pos)
      decreases pos
    {
      if IsZeroCoefficient(remainder[pos - 1]) {
        SkipTop(a, b, remainder, quotient, pos);
      } else {
        remainder, quotient := EliminateTop(a, b, remainder, quotient, pos);
      }
      pos := pos - 1;
    }
    ResidualVanishes(Values(a), Values(quotient), Values(b));
  }

  /** The state of long division before position `pos` is handled: the
      remainder is a − q·b, its entries from `pos` up are zero, and the
      quotient entries not yet set are zero. */
  predicate DivisionState(a: seq<Rational>, b: seq<Rational>, remainder: seq<Rational>, quotient: seq<Rational>, pos: nat)
    requires CoefficientsValid(a) && CoefficientsValid(b) && 0 < |b| <= |a|
  {
    && CoefficientsValid(remainder) && |remainder| == |a|
    && CoefficientsValid(quotient) && |quotient| == |a| - |b| + 1 && pos <= |a|
    && Values(remainder) == Residual(Values(a), Values(quotient), Values(b))
    && (forall k :: pos <= k < |a| ==> Values(remainder)[k] == 0.0)
    && (forall t :: 0 <= t < pos - |b| + 1 ==> Values(quotient)[t] == 0.0)
  }

  /** The zero-filled quotient leaves the whole dividend as remainder. */
  lemma ZeroQuotient(a: seq<Rational>, b: seq<Rational>, quotient: seq<Rational>)
    requires CoefficientsValid(a) && CoefficientsValid(b) && 0 < |b| <= |a|
    requires quotient == seq(|a| - |b| + 1, _ => ZeroCoefficient)
    ensures DivisionState(a, b, a, quotient, |a|)
  {
    ZeroCoefficientValue();
    ResidualOfZero(Values(a), Values(quotient), Values(b));
  }

  /** A zero entry at pos − 1 needs no elimination. */
  lemma SkipTop(a: seq<Rational>, b: seq<Rational>, remainder: seq<Rational>, quotient: seq<Rational>, pos: nat)
    requires CoefficientsValid(a) && CoefficientsValid(b) && 0 < |b| <= pos <= |a|
    requires |remainder| == |a| && DivisionState(a, b, remainder, quotient, pos) && IsZeroCoefficient(remainder[pos - 1])
    ensures DivisionState(a, b, remainder, quotient, pos - 1)
  {
    ZeroCoefficientIff(remainder[pos - 1]);
  }

  /** One nonzero column of quotient: entry pos − |b| of the quotient set to
      remainder[pos − 1] / lead, and that multiple of the divisor subtracted
      from the remainder entries pos − |b| .. pos − 1, which clears entry
      pos − 1. */
  method EliminateTop(a: seq<Rational>, b: seq<Rational>, remainder: seq<Rational>, quotient: seq<Rational>, pos: nat)
    returns (remainder': seq<Rational>, quotient': seq<Rational>)
    requires CoefficientsValid(a) && CoefficientsValid(b) && 0 < |b| <= pos <= |a|
    requires !IsZeroCoefficient(b[|b| - 1]) && DivisionState(a, b, remainder, quotient, pos)
    ensures DivisionState(a, b, remainder', quotient', pos - 1)
  {
    var t := pos - |b|;
    var coefficient := CoefficientQuotient(remainder[pos - 1], b[|b| - 1]);
    quotient' := quotient[t := coefficient];
    remainder' := SubtractMultiple(b, remainder, t, coefficient);
    EliminatedState(a, b, remainder, quotient, pos, coefficient, remainder');
  }

  /** The facts of one elimination step, from the values alone. */
  lemma EliminatedState(a: seq<Rational>, b: seq<Rational>, remainder: seq<Rational>, quotient: seq<Rational>, pos: nat,
                        c: Rational, remainder': seq<Rational>)
    requires CoefficientsValid(a) && CoefficientsValid(b) && 0 < |b| <= pos <= |a|
    requires DivisionState(a, b, remainder, quotient, pos)
    requires WellFormed(c) && Val(c.den) != 0 && RVal(b[|b| - 1]) != 0.0
    requires RVal(c) == Over(RVal(remainder[pos - 1]), RVal(b[|b| - 1]))
    requires CoefficientsValid(remainder') && |remainder'| == |a|
    requires Values(remainder') == Subtracted(Values(remainder), Values(b), pos - |b|, RVal(c), |b|)
    ensures DivisionState(a, b, remainder', quotient[pos - |b| := c], pos - 1)
  {
    var t := pos - |b|;
    UpdateValues(quotient, t, c);
    ResidualUpdate(Values(a), Values(quotient), Values(b), t, RVal(c));
    EliminatedZeros(b, Values(remainder), pos, RVal(c), Values(remainder'));
  }

  /** After the pass, entry pos − 1 is zero and the entries above are untouched. */
  lemma EliminatedZeros(b: seq<Rational>, R: seq<real>, pos: nat, c: real, R': seq<real>)
    requires CoefficientsValid(b) && 0 < |b| <= pos <= |R| && RVal(b[|b| - 1]) != 0.0
    requires c == Over(R[pos - 1], RVal(b[|b| - 1]))
    requires forall k :: pos <= k < |R| ==> R[k] == 0.0
    requires R' == Subtracted(R, Values(b), pos - |b|, c, |b|)
    ensures forall k :: pos - 1 <= k < |R| ==> R'[k] == 0.0
  {
    Eliminated(R[pos - 1], RVal(b[|b| - 1]), c);
  }

  /** The subtracting loop of quotient: b_j·c taken from entry t + j for
      every j. */
  method SubtractMultiple(b: seq<Rational>, remainder: seq<Rational>, t: nat, c: Rational) returns (next: seq<Rational>)
    requires CoefficientsValid(b) && CoefficientsValid(remainder) && WellFormed(c) && Val(c.den) != 0
    requires t + |b| <= |remainder|
    ensures CoefficientsValid(next) && |next| == |remainder|
    ensures Values(next) == Subtracted(Values(remainder), Values(b), t, RVal(c), |b|)
  {
    ghost var R := Values(remainder);
    next := remainder;
    SubtractedStart(R, Values(b), t, RVal(c));
    for j := 0 to |b|
      invariant CoefficientsValid(next) && |next| == |remainder|
      invariant Values(next) == Subtracted(R, Values(b), t, RVal(c), j)
    {
      next := SubtractTerm(b, next, R, t, c, j);
    }
  }

  /** The inner step of quotient: entry t + j less b_j times the quotient
      coefficient. */
  method SubtractTerm(b: seq<Rational>, remainder: seq<Rational>, ghost R: seq<real>, t: nat, c: Rational, j: nat)
    returns (next: seq<Rational>)
    requires CoefficientsValid(b) && CoefficientsValid(remainder) && WellFormed(c) && Val(c.den) != 0
    requires j < |b| && t + j < |remainder| && |R| == |remainder|
    requires Values(remainder) == Subtracted(R, Values(b), t, RVal(c), j)
    ensures CoefficientsValid(next) && |next| == |remainder|
    ensures Values(next) == Subtracted(R, Values(b), t, RVal(c), j + 1)
  {
    var product := CoefficientProduct(b[j], c);
    var difference := CoefficientDifference(remainder[t + j], product);
    SubtractStep(b, remainder, R, t, c, j, product, difference);
    next := remainder[t + j := difference];
  }

  lemma SubtractStep(b: seq<Rational>, remainder: seq<Rational>, R: seq<real>, t: nat, c: Rational, j: nat, p: Rational, x: Rational)
    requires CoefficientsValid(b) && CoefficientsValid(remainder) && Val(c.den) != 0
    requires j < |b| && t + j < |remainder| && |R| == |remainder|
    requires Values(remainder) == Subtracted(R, Values(b), t, RVal(c), j)
    requires Val(p.den) != 0 && RVal(p) == Times(RVal(b[j]), RVal(c))
    requires WellFormed(x) && Val(x.den) != 0 && RVal(x) == RVal(remainder[t + j]) - RVal(p)
    ensures CoefficientsValid(remainder[t + j := x])
    ensures Values(remainder[t + j := x]) == Subtracted(R, Values(b), t, RVal(c), j + 1)
  {
    UpdateValues(remainder, t + j, x);
    SubtractedStep(R, Values(b), t, RVal(c), j, RVal(p), RVal(x));
  }

  // ---------------------------------------------------------------- remainder

  /** remainder: a − quotient(a, b)·b, failing where quotient fails. The
      ghost `q` is the quotient's coefficient values: a = q·b + r with r
      below b's degree. */
  method Remainder(a: Poly, b: Poly) returns (r: Result<Poly>, ghost q: seq<real>)
    requires Valid(a) && Valid(b)
    ensures r.Err? <==> IsZeroCoefficient(b.coefficients[|b.coefficients| - 1])
    ensures r.Err? ==> r.error == DivideByZero
    ensures r.Ok? ==> Valid(r.value) && PolyMath.Trimmed(Values(r.value.coefficients))
    ensures r.Ok? ==> forall k :: k >= |b.coefficients| - 1 ==> Coef(Values(r.value.coefficients), k) == 0.0
    ensures r.Ok? ==> forall k ::
      Coef(Values(a.coefficients), k) == ConvAt(q, Values(b.coefficients), k) + Coef(Values(r.value.coefficients), k)
  {
    var quotient := Quotient(a, b);
    if quotient.Err? {
      return Err(quotient.error), [];
    }
    var product := Multiply(quotient.value, b);
    var difference := Subtract(a, product);
    q := Values(quotient.value.coefficients);
    RemainderValues(Values(a.coefficients), Values(product.coefficients), q, Values(b.coefficients));
    r := Ok(difference);
  }

  /** a − p with p = q·b: a = q·b + (a − p), and the difference vanishes
      from b's degree up when a and q·b agree there. */
  lemma RemainderValues(A: seq<real>, P: seq<real>, Q: seq<real>, B: seq<real>)
    requires |A| > 0 && |B| > 0
    requires forall k :: Coef(P, k) == ConvAt(Q, B, k)
    requires forall k :: k >= |B| - 1 ==> Coef(A, k) == ConvAt(Q, B, k)
    ensures forall k :: k >= |B| - 1 ==> Coef(Trim(Sum(A, Neg(P))), k) == 0.0
    ensures forall k :: Coef(A, k) == ConvAt(Q, B, k) + Coef(Trim(Sum(A, Neg(P))), k)
  {
    forall k
      ensures Coef(Trim(Sum(A, Neg(P))), k) == Coef(A, k) - ConvAt(Q, B, k)
    {
      DifferenceCoef(A, P, k);
    }
  }

  // ---------------------------------------------------------------- derivative

  /** std::to_string of a count: its decimal digits. */
  function DecimalText(i: nat): (t: string)
    ensures IsDigitString(t) && |t| > 0
  {
    Render(FromNat(i))
  }

  /** The exponent i as a coefficient, read from the text "i/1" as the
      derivative loop builds it. */
  method Power(i: nat) returns (power: Rational)
    ensures WellFormed(power) && Val(power.den) != 0 && RVal(power) == i as real
  {
    var x := Rational(Integer(FromNat(i), false), [1]);
    JoinRoundTrip(x);
    assert IntegerNumber.ToString(x.num) + "/" + Render(x.den) == DecimalText(i) + "/1";
    power := RationalNumber.FromString(DecimalText(i) + "/1").value;
    assert Val([1]) == 1;
  }

  /** derivative: [0/1] for degree 0; otherwise entry i − 1 of a copy set to
      coefficient i times i for i = 1 .. degree, and the top entry dropped. */
  method Derivative(p: Poly) returns (r: Poly)
    requires Valid(p)
    ensures Valid(r)
    ensures GetDegree(p) == 0 ==> r == ZeroPolynomial
    ensures Values(r.coefficients) == Deriv(Values(p.coefficients))
  {
    ghost var V := Values(p.coefficients);
    if GetDegree(p) == 0 {
      ZeroCoefficientValue();
      return ZeroPolynomial;
    }
    var d := p.coefficients;
    DerivPartialStart(V);
    for i := 1 to |p.coefficients|
      invariant CoefficientsValid(d) && Values(d) == DerivPartial(V, i)
    {
      var power := Power(i);
      var product := CoefficientProduct(p.coefficients[i], power);
      DerivativeStep(p.coefficients, d, i, power, product);
      d := d[i - 1 := product];
    }
    DerivPartialEnd(V);
    assert Values(d[..|d| - 1]) == Values(d)[..|d| - 1];
    r := Poly(d[..|d| - 1]);
  }

  lemma DerivativeStep(c: seq<Rational>, d: seq<Rational>, i: nat, power: Rational, x: Rational)
    requires CoefficientsValid(c) && CoefficientsValid(d) && 0 < i < |c|
    requires Values(d) == DerivPartial(Values(c), i)
    requires Val(power.den) != 0 && RVal(power) == i as real
    requires WellFormed(x) && Val(x.den) != 0 && RVal(x) == Times(RVal(c[i]), RVal(power))
    ensures CoefficientsValid(d[i - 1 := x]) && Values(d[i - 1 := x]) == DerivPartial(Values(c), i + 1)
  {
    UpdateValues(d, i - 1, x);
    DerivPartialStep(Values(c), i, RVal(x));
  }

  // ---------------------------------------------------------------- gcd

  /** GCD: undefined when either operand is the single zero; otherwise
      Euclid's algorithm on remainders until the remainder is the single
      zero, and the last divisor made monic by multiplying with 1 over its
      top coefficient. The result divides both operands (cofactors x, y)
      and is a combination s·a + t·b of them, so every common divisor of a
      and b divides it (`DividesCombination`). */
  method GCD(a: Poly, b: Poly) returns (r: Result<Poly>, ghost x: seq<real>, ghost y: seq<real>, ghost s: seq<real>, ghost t: seq<real>)
    requires Valid(a) && Valid(b)
    ensures r.Err? <==> IsZeroPolynomial(a) || IsZeroPolynomial(b) || IsZeroCoefficient(b.coefficients[|b.coefficients| - 1])
    ensures r.Err? ==> r.error == if IsZeroPolynomial(a) || IsZeroPolynomial(b) then UndefinedGcd else DivideByZero
    ensures r.Ok? ==> Valid(r.value) && PolyMath.Trimmed(Values(r.value.coefficients))
    ensures r.Ok? ==> Values(r.value.coefficients)[|r.value.coefficients| - 1] == 1.0
    ensures r.Ok? ==> DividesBy(Values(a.coefficients), Values(r.value.coefficients), x)
    ensures r.Ok? ==> DividesBy(Values(b.coefficients), Values(r.value.coefficients), y)
    ensures r.Ok? ==> Combination(Values(r.value.coefficients), Values(a.coefficients), Values(b.coefficients), s, t)
  {
    if (GetDegree(a) == 0 && GetSign(a.coefficients[0].num) == 0) || (GetDegree(b) == 0 && GetSign(b.coefficients[0].num) == 0) {
      return Err(UndefinedGcd), [], [], [], [];
    }
    r, x, y, s, t := NonzeroGcd(a, b);
  }

  /** GCD of two operands other than the single zero: fails only where the
      first remainder does. */
  method NonzeroGcd(a: Poly, b: Poly) returns (r: Result<Poly>, ghost x: seq<real>, ghost y: seq<real>, ghost s: seq<real>, ghost t: seq<real>)
    requires Valid(a) && Valid(b)
    ensures r.Err? <==> IsZeroCoefficient(b.coefficients[|b.coefficients| - 1])
    ensures r.Err? ==> r.error == DivideByZero
    ensures r.Ok? ==> Valid(r.value) && PolyMath.Trimmed(Values(r.value.coefficients))
    ensures r.Ok? ==> Values(r.value.coefficients)[|r.value.coefficients| - 1] == 1.0
    ensures r.Ok? ==> DividesBy(Values(a.coefficients), Values(r.value.coefficients), x)
    ensures r.Ok? ==> DividesBy(Values(b.coefficients), Values(r.value.coefficients), y)
    ensures r.Ok? ==> Combination(Values(r.value.coefficients), Values(a.coefficients), Values(b.coefficients), s, t)
  {
    var first, q := Remainder(a, b);
    if first.Err? {
      return Err(first.error), [], [], [], [];
    }
    var gcd;
    gcd, x, y, s, t := Euclid(a, b, first.value, q);
    r := Ok(gcd);
  }

  /** GCD past its checks: the last divisor of Euclid's loop, made monic. */
  method Euclid(a: Poly, b: Poly, first: Poly, ghost q: seq<real>)
    returns (g: Poly, ghost x: seq<real>, ghost y: seq<real>, ghost s: seq<real>, ghost t: seq<real>)
    requires Valid(a) && Valid(b) && !IsZeroCoefficient(b.coefficients[|b.coefficients| - 1])
    requires Valid(first) && PolyMath.Trimmed(Values(first.coefficients))
    requires forall k :: k >= |b.coefficients| - 1 ==> Coef(Values(first.coefficients), k) == 0.0
    requires PolyAlgebra.DivisionIdentity(Values(a.coefficients), q, Values(b.coefficients), Values(first.coefficients))
    ensures Valid(g) && PolyMath.Trimmed(Values(g.coefficients))
    ensures Values(g.coefficients)[|g.coefficients| - 1] == 1.0
    ensures DividesBy(Values(a.coefficients), Values(g.coefficients), x)
    ensures DividesBy(Values(b.coefficients), Values(g.coefficients), y)
    ensures Combination(Values(g.coefficients), Values(a.coefficients), Values(b.coefficients), s, t)
  {
    var divisor, u, v, s1, t1 := LastDivisor(a, b, first, q);
    ghost var lead, inverse;
    g, lead, inverse := MakeMonic(divisor);
    ghost var P, G := Values(divisor.coefficients), Values(g.coefficients);
    DividesScaled(Values(a.coefficients), P, u, G, lead);
    DividesScaled(Values(b.coefficients), P, v, G, lead);
    CombinationScaled(G, P, Values(a.coefficients), Values(b.coefficients), s1, t1, inverse);
    x, y, s, t := Scale(u, lead), Scale(v, lead), Scale(s1, inverse), Scale(t1, inverse);
  }

  /** The loop of GCD: from (b, a mod b), replace (p, r) by (r, p mod r)
      until r is the single zero; p is then the last divisor. */
  method LastDivisor(a: Poly, b: Poly, first: Poly, ghost q: seq<real>)
    returns (divisor: Poly, ghost u: seq<real>, ghost v: seq<real>, ghost s: seq<real>, ghost t: seq<real>)
    requires Valid(a) && Valid(b) && !IsZeroCoefficient(b.coefficients[|b.coefficients| - 1])
    requires Valid(first) && PolyMath.Trimmed(Values(first.coefficients))
    requires forall k :: k >= |b.coefficients| - 1 ==> Coef(Values(first.coefficients), k) == 0.0
    requires PolyAlgebra.DivisionIdentity(Values(a.coefficients), q, Values(b.coefficients), Values(first.coefficients))
    ensures Valid(divisor) && !IsZeroCoefficient(divisor.coefficients[|divisor.coefficients| - 1])
    ensures DividesBy(Values(a.coefficients), Values(divisor.coefficients), u)
    ensures DividesBy(Values(b.coefficients), Values(divisor.coefficients), v)
    ensures Combination(Values(divisor.coefficients), Values(a.coefficients), Values(b.coefficients), s, t)
  {
    ghost var A, B := Values(a.coefficients), Values(b.coefficients);
    var p1, p2, remainder := a, b, first;
    ghost var u', v', s', t';
    u, u', v, v', s, t, s', t' := q, [1.0], [1.0], [], [], [1.0], [1.0], Neg(q);
    EuclidStart(A, B, q, Values(remainder.coefficients));
    while !(GetDegree(remainder) == 0 && GetSign(remainder.coefficients[0].num) == 0)
      invariant Valid(p2) && Valid(remainder) && PolyMath.Trimmed(Values(remainder.coefficients))
      invariant !IsZeroCoefficient(p2.coefficients[|p2.coefficients| - 1])
      invariant forall k :: k >= |p2.coefficients| - 1 ==> Coef(Values(remainder.coefficients), k) == 0.0
      invariant EuclidState(A, B, Values(p2.coefficients), Values(remainder.coefficients), u, u', v, v', s, t, s', t')
      decreases |p2.coefficients|
    {
      NextDivisor(p2, remainder);
      p1 := p2;
      p2 := remainder;
      var next, q' := Remainder(p1, p2);
      remainder := next.value;
      EuclidStep(A, B, Values(p1.coefficients), Values(p2.coefficients), Values(remainder.coefficients), q',
        u, u', v, v', s, t, s', t');
      u, u', v, v', s, t, s', t' :=
        Sum(Mul(u, q'), u'), u, Sum(Mul(v, q'), v'), v, s', t', Sum(s, Neg(Mul(q', s'))), Sum(t, Neg(Mul(q', t')));
    }
    LastRemainder(remainder);
    EuclidEnd(A, Values(p2.coefficients), Values(remainder.coefficients), u, u');
    EuclidEnd(B, Values(p2.coefficients), Values(remainder.coefficients), v, v');
    divisor := p2;
  }

  /** The divisor times 1 / its top coefficient: a monic polynomial g with
      divisor = g·lead and g = divisor·inverse. */
  method MakeMonic(divisor: Poly) returns (g: Poly, ghost lead: real, ghost inverse: real)
    requires Valid(divisor) && !IsZeroCoefficient(divisor.coefficients[|divisor.coefficients| - 1])
    ensures Valid(g) && PolyMath.Trimmed(Values(g.coefficients)) && |g.coefficients| == |divisor.coefficients|
    ensures Values(g.coefficients)[|g.coefficients| - 1] == 1.0
    ensures forall j :: Coef(Values(divisor.coefficients), j) == Times(Coef(Values(g.coefficients), j), lead)
    ensures forall j :: Coef(Values(g.coefficients), j) == Times(Coef(Values(divisor.coefficients), j), inverse)
  {
    var top := divisor.coefficients[GetDegree(divisor)];
    var unit := Rational(Integer([1], false), [1]);
    assert Val([1]) == 1;
    var reciprocal := CoefficientQuotient(unit, top);
    ZeroCoefficientIff(reciprocal);
    g := MultiplyByRational(divisor, reciprocal);
    lead, inverse := RVal(top), RVal(reciprocal);
    Normalised(Values(divisor.coefficients), lead, inverse);
  }

  /** A remainder other than the single zero, below the divisor's degree and
      trimmed, is shorter than the divisor and has a nonzero top. */
  lemma NextDivisor(p: Poly, remainder: Poly)
    requires Valid(p) && Valid(remainder) && PolyMath.Trimmed(Values(remainder.coefficients))
    requires forall k :: k >= |p.coefficients| - 1 ==> Coef(Values(remainder.coefficients), k) == 0.0
    requires !(GetDegree(remainder) == 0 && GetSign(remainder.coefficients[0].num) == 0)
    ensures |remainder.coefficients| < |p.coefficients|
    ensures !IsZeroCoefficient(remainder.coefficients[|remainder.coefficients| - 1])
  {
    var n := |remainder.coefficients|;
    ZeroCoefficientsIff(remainder.coefficients);
    if n == 1 {
      assert !IsZeroCoefficient(remainder.coefficients[0]);
    }
    assert Coef(Values(remainder.coefficients), n - 1) != 0.0;
  }

  /** The remainder Euclid's loop stops at is zero everywhere. */
  lemma LastRemainder(remainder: Poly)
    requires Valid(remainder) && GetDegree(remainder) == 0 && GetSign(remainder.coefficients[0].num) == 0
    ensures forall j :: Coef(Values(remainder.coefficients), j) == 0.0
  {
    ZeroCoefficientsIff(remainder.coefficients);
  }

  // ---------------------------------------------------------------- square-free part

  /** makeSquareFree: a constant is returned as it is; otherwise the
      polynomial divided by g = gcd(p, p'). The result r satisfies p = r·g
      exactly, with g monic, dividing p' and a combination of p and p'. It
      fails exactly when the top coefficient of a non-constant p is zero:
      then p' is the single zero (degree 1) or has a zero top coefficient. */
  method MakeSquareFree(p: Poly) returns (r: Result<Poly>, ghost g: seq<real>, ghost y: seq<real>, ghost s: seq<real>, ghost t: seq<real>)
    requires Valid(p)
    ensures GetDegree(p) == 0 ==> r == Ok(p)
    ensures r.Err? <==> GetDegree(p) > 0 && IsZeroCoefficient(p.coefficients[|p.coefficients| - 1])
    ensures r.Err? ==> r.error == if |p.coefficients| == 2 then UndefinedGcd else DivideByZero
    ensures r.Ok? ==> Valid(r.value)
    ensures r.Ok? && GetDegree(p) > 0 ==>
      |g| > 0 && g[|g| - 1] == 1.0
      && DividesBy(Values(p.coefficients), g, Values(r.value.coefficients))
      && DividesBy(Deriv(Values(p.coefficients)), g, y)
      && Combination(g, Values(p.coefficients), Deriv(Values(p.coefficients)), s, t)
  {
    if GetDegree(p) == 0 {
      return Ok(p), [], [], [], [];
    }
    var derivative := Derivative(p);
    DerivativeTop(p, derivative);
    r, g, y, s, t := DivideByGcd(p, derivative);
  }

  /** p divided by g = gcd(p, d), for p other than the single zero. */
  method DivideByGcd(p: Poly, d: Poly) returns (r: Result<Poly>, ghost g: seq<real>, ghost y: seq<real>, ghost s: seq<real>, ghost t: seq<real>)
    requires Valid(p) && Valid(d) && !IsZeroPolynomial(p)
    ensures r.Err? <==> IsZeroPolynomial(d) || IsZeroCoefficient(d.coefficients[|d.coefficients| - 1])
    ensures r.Err? ==> r.error == if IsZeroPolynomial(d) then UndefinedGcd else DivideByZero
    ensures r.Ok? ==> Valid(r.value)
    ensures r.Ok? ==>
      |g| > 0 && g[|g| - 1] == 1.0
      && DividesBy(Values(p.coefficients), g, Values(r.value.coefficients))
      && DividesBy(Values(d.coefficients), g, y)
      && Combination(g, Values(p.coefficients), Values(d.coefficients), s, t)
  {
    var gcd;
    ghost var x;
    gcd, x, y, s, t := GCD(p, d);
    if gcd.Err? {
      return Err(gcd.error), [], [], [], [];
    }
    g := Values(gcd.value.coefficients);
    MonicTop(gcd.value);
    var quotient := Quotient(p, gcd.value);
    ExactQuotient(Values(p.coefficients), g, x, Values(quotient.value.coefficients));
    r := quotient;
  }

  /** The derivative of a non-constant polynomial is the single zero, or has
      a zero top coefficient, exactly when the polynomial's top is zero. */
  lemma DerivativeTop(p: Poly, d: Poly)
    requires Valid(p) && Valid(d) && GetDegree(p) > 0
    requires Values(d.coefficients) == Deriv(Values(p.coefficients))
    ensures !IsZeroPolynomial(p)
    ensures IsZeroPolynomial(d) <==> |p.coefficients| == 2 && IsZeroCoefficient(p.coefficients[1])
    ensures IsZeroCoefficient(d.coefficients[|d.coefficients| - 1]) <==> IsZeroCoefficient(p.coefficients[|p.coefficients| - 1])
  {
    var n := |p.coefficients|;
    ZeroCoefficientIff(p.coefficients[n - 1]);
    ZeroCoefficientIff(d.coefficients[n - 2]);
    DerivTop(Values(p.coefficients));
  }

  /** A monic polynomial's top coefficient is not zero. */
  lemma MonicTop(g: Poly)
    requires Valid(g) && Values(g.coefficients)[|g.coefficients| - 1] == 1.0
    ensures !IsZeroCoefficient(g.coefficients[|g.coefficients| - 1])
  {
    ZeroCoefficientsIff(g.coefficients);
  }

  // ---------------------------------------------------------------- factor out

  /** gcd of the numerators' magnitudes of c[0 .. n−1], folded left from
      c[0] as factorOut does (gcd(0, 0) read as 0). */
  function NumeratorGcd(c: seq<Rational>, n: nat): nat
    requires 0 < n <= |c|
  {
    if n == 1 then Val(c[0].num.magnitude) else Gcd(NumeratorGcd(c, n - 1), Val(c[n - 1].num.magnitude))
  }

  /** lcm of the denominators of c[0 .. n−1], folded left from c[0]. */
  function DenominatorLcm(c: seq<Rational>, n: nat): (l: nat)
    requires 0 < n <= |c| && CoefficientsValid(c)
    ensures l > 0
  {
    if n == 1 then Val(c[0].den)
    else
      var l := DenominatorLcm(c, n - 1);
      LcmIsCommonMultiple(l, Val(c[n - 1].den));
      Lcm(l, Val(c[n - 1].den))
  }

  /** The numerators' gcd is 0 exactly when every numerator is. */
  lemma {:induction false} NumeratorGcdZero(c: seq<Rational>, n: nat)
    requires 0 < n <= |c|
    ensures NumeratorGcd(c, n) == 0 <==> forall j :: 0 <= j < n ==> Val(c[j].num.magnitude) == 0
  {
    if n > 1 {
      NumeratorGcdZero(c, n - 1);
      var g, x := NumeratorGcd(c, n - 1), Val(c[n - 1].num.magnitude);
      if g != 0 || x != 0 {
        GcdPositive(g, x);
      } else {
        GcdZeroLeft(0);
      }
    }
  }

  /** A positive numerator gcd divides every numerator. */
  lemma {:induction false} NumeratorGcdDivides(c: seq<Rational>, n: nat, k: nat)
    requires k < n <= |c| && NumeratorGcd(c, n) > 0
    ensures Divides(NumeratorGcd(c, n), Val(c[k].num.magnitude))
  {
    var g := NumeratorGcd(c, n);
    if n > 1 {
      var h, x := NumeratorGcd(c, n - 1), Val(c[n - 1].num.magnitude);
      GcdDivides(h, x);
      if k < n - 1 {
        if h > 0 {
          NumeratorGcdDivides(c, n - 1, k);
          DividesTransitive(g, h, Val(c[k].num.magnitude));
        } else {
          NumeratorGcdZero(c, n - 1);
          assert Val(c[k].num.magnitude) == 0;
          MulDivCancel(g, 0);
        }
      }
    } else {
      MulDivCancel(g, 1);
    }
  }

  /** Every denominator divides the lcm. */
  lemma {:induction false} DenominatorLcmMultiple(c: seq<Rational>, n: nat, k: nat)
    requires CoefficientsValid(c) && k < n <= |c|
    ensures Divides(Val(c[k].den), DenominatorLcm(c, n))
  {
    if n > 1 {
      var l, d := DenominatorLcm(c, n - 1), Val(c[n - 1].den);
      LcmIsCommonMultiple(l, d);
      if k < n - 1 {
        DenominatorLcmMultiple(c, n - 1, k);
        DividesTransitive(Val(c[k].den), l, Lcm(l, d));
      }
    } else {
      MulDivCancel(Val(c[0].den), 1);
    }
  }

  /** factorOut's failure as written: the gcd of the first two numerators
      is gcd(0, 0) when both are zero, and a lone zero coefficient leaves
      the scalar lcm/0, whose products reduce 0/0. */
  predicate FactorOutFails(c: seq<Rational>)
    requires |c| > 0
  {
    IsZeroCoefficient(c[0]) && (|c| == 1 || IsZeroCoefficient(c[1]))
  }

  /** factorOut as written: nod = gcd of the numerators' magnitudes and nok =
      lcm of the denominators, folded from the first coefficient with
      NaturalNumber's GCD and LCM, then the polynomial multiplied by
      nok/nod. It fails on any polynomial whose first two coefficients are
      zero, such as x². */
  method FactorOutAsWritten(p: Poly) returns (r: Result<Poly>)
    requires Valid(p)
    ensures r.Err? <==> FactorOutFails(p.coefficients)
    ensures r.Err? ==> r.error == UndefinedGcd
    ensures r.Ok? ==> (Valid(r.value) && NumeratorGcd(p.coefficients, |p.coefficients|) > 0
      && Values(r.value.coefficients) == Scale(Values(p.coefficients),
           Over(DenominatorLcm(p.coefficients, |p.coefficients|) as real, NumeratorGcd(p.coefficients, |p.coefficients|) as real)))
  {
    var c := p.coefficients;
    var nod := Abs(c[0].num);
    var nok := c[0].den;
    for i := 1 to |c|
      invariant Canonical(nod) && Val(nod) == NumeratorGcd(c, i)
      invariant Canonical(nok) && Val(nok) == DenominatorLcm(c, i)
      invariant i >= 2 ==> Val(nod) > 0 && !FactorOutFails(c)
    {
      var g := GcdStepAsWritten(c, nod, i);
      if g.Err? {
        return Err(g.error);
      }
      nod := g.value;
      nok := LcmStep(c, nok, i);
    }
    if !IsNotEqualZero(nod) {
      return Err(UndefinedGcd);
    }
    r := ScaleByRatio(p, nok, nod);
  }

  /** factorOut with gcd(0, 0) read as 0, so that zero coefficients are
      passed over: it fails only on a polynomial with no nonzero coefficient,
      and otherwise leaves integer coefficients. */
  method FactorOut(p: Poly) returns (r: Result<Poly>)
    requires Valid(p)
    ensures r.Err? <==> forall k :: 0 <= k < |p.coefficients| ==> IsZeroCoefficient(p.coefficients[k])
    ensures r.Err? ==> r.error == UndefinedGcd
    ensures r.Ok? ==> (Valid(r.value) && NumeratorGcd(p.coefficients, |p.coefficients|) > 0
      && Values(r.value.coefficients) == Scale(Values(p.coefficients),
           Over(DenominatorLcm(p.coefficients, |p.coefficients|) as real, NumeratorGcd(p.coefficients, |p.coefficients|) as real)))
    ensures r.Ok? ==> forall k :: 0 <= k < |r.value.coefficients| ==> Val(r.value.coefficients[k].den) == 1
  {
    var c := p.coefficients;
    var nod := Abs(c[0].num);
    var nok := c[0].den;
    for i := 1 to |c|
      invariant Canonical(nod) && Val(nod) == NumeratorGcd(c, i)
      invariant Canonical(nok) && Val(nok) == DenominatorLcm(c, i)
    {
      nod := GcdStep(c, nod, i);
      nok := LcmStep(c, nok, i);
    }
    NumeratorGcdZero(c, |c|);
    ZeroNumerators(c);
    if !IsNotEqualZero(nod) {
      return Err(UndefinedGcd);
    }
    r := ScaleByRatio(p, nok, nod);
    IntegerCoefficients(p, r.value);
  }

  /** One gcd step of factorOut as written: gcd(0, 0) fails. */
  method GcdStepAsWritten(c: seq<Rational>, nod: Digits, i: nat) returns (r: Result<Digits>)
    requires CoefficientsValid(c) && 0 < i < |c|
    requires Canonical(nod) && Val(nod) == NumeratorGcd(c, i)
    ensures r.Err? <==> Val(nod) == 0 && IsZeroCoefficient(c[i])
    ensures r.Err? ==> r.error == UndefinedGcd
    ensures r.Ok? ==> Canonical(r.value) && Val(r.value) == NumeratorGcd(c, i + 1) && Val(r.value) > 0
  {
    r := NaturalNumber.GCD(nod, Abs(c[i].num));
    if r.Ok? {
      GcdPositive(NumeratorGcd(c, i), Val(c[i].num.magnitude));
    }
  }

  /** One gcd step of the corrected factorOut: gcd(0, 0) is read as 0. */
  method GcdStep(c: seq<Rational>, nod: Digits, i: nat) returns (g: Digits)
    requires CoefficientsValid(c) && 0 < i < |c|
    requires Canonical(nod) && Val(nod) == NumeratorGcd(c, i)
    ensures Canonical(g) && Val(g) == NumeratorGcd(c, i + 1)
  {
    var x := Abs(c[i].num);
    if IsNotEqualZero(nod) || IsNotEqualZero(x) {
      var r := NaturalNumber.GCD(nod, x);
      g := r.value;
    } else {
      GcdZeroLeft(0);
      g := nod;
    }
  }

  /** One lcm step of factorOut. */
  method LcmStep(c: seq<Rational>, nok: Digits, i: nat) returns (l: Digits)
    requires CoefficientsValid(c) && 0 < i < |c|
    requires Canonical(nok) && Val(nok) == DenominatorLcm(c, i)
    ensures Canonical(l) && Val(l) == DenominatorLcm(c, i + 1)
  {
    var r := NaturalNumber.LCM(nok, c[i].den);
    l := r.value;
  }

  /** IsZeroCoefficient reads the numerator's magnitude. */
  lemma ZeroNumerators(c: seq<Rational>)
    requires CoefficientsValid(c)
    ensures forall k :: 0 <= k < |c| ==> (IsZeroCoefficient(c[k]) <==> Val(c[k].num.magnitude) == 0)
  {
  }

  /** The closing multiplyByRational of factorOut: p times nok/nod. */
  method ScaleByRatio(p: Poly, nok: Digits, nod: Digits) returns (r: Result<Poly>)
    requires Valid(p) && Canonical(nok) && Canonical(nod)
    requires Val(nok) == DenominatorLcm(p.coefficients, |p.coefficients|)
    requires Val(nod) == NumeratorGcd(p.coefficients, |p.coefficients|) > 0
    ensures r.Ok? && Valid(r.value)
    ensures Values(r.value.coefficients) == Scale(Values(p.coefficients), Over(Val(nok) as real, Val(nod) as real))
    ensures forall k :: 0 <= k < |r.value.coefficients| ==> InLowestTerms(r.value.coefficients[k])
  {
    var scalar := Rational(Integer(nok, false), nod);
    assert RVal(scalar) == Over(Val(nok) as real, Val(nod) as real);
    var product := MultiplyByRational(p, scalar);
    r := Ok(product);
  }

  /** After factoring out, every coefficient is an integer: n/d · lcm/gcd is
      (n/gcd)·(lcm/d), and a fraction in lowest terms with an integer value
      has denominator 1. */
  lemma IntegerCoefficients(p: Poly, q: Poly)
    requires Valid(p) && Valid(q) && NumeratorGcd(p.coefficients, |p.coefficients|) > 0
    requires Values(q.coefficients) == Scale(Values(p.coefficients),
      Over(DenominatorLcm(p.coefficients, |p.coefficients|) as real, NumeratorGcd(p.coefficients, |p.coefficients|) as real))
    requires forall k :: 0 <= k < |q.coefficients| ==> InLowestTerms(q.coefficients[k])
    ensures forall k :: 0 <= k < |q.coefficients| ==> Val(q.coefficients[k].den) == 1
  {
    var c := p.coefficients;
    forall k | 0 <= k < |q.coefficients|
      ensures Val(q.coefficients[k].den) == 1
    {
      NumeratorGcdDivides(c, |c|, k);
      DenominatorLcmMultiple(c, |c|, k);
      IntegerCoefficient(c[k], q.coefficients[k], NumeratorGcd(c, |c|), DenominatorLcm(c, |c|));
    }
  }

  /** One coefficient x of p becomes y = x·l/g. */
  lemma IntegerCoefficient(x: Rational, y: Rational, g: nat, l: nat)
    requires WellFormed(x) && Val(x.den) != 0 && WellFormed(y) && Val(y.den) != 0 && InLowestTerms(y)
    requires g > 0 && Divides(g, Val(x.num.magnitude)) && Divides(Val(x.den), l)
    requires RVal(y) == Times(RVal(x), Over(l as real, g as real))
    ensures Val(y.den) == 1
  {
    var m := IntegerValue(x, g, l);
    IntegerValued(y, m);
  }

  /** x·l/g is an integer when g divides x's numerator and x's denominator divides l. */
  lemma IntegerValue(x: Rational, g: nat, l: nat) returns (m: int)
    requires WellFormed(x) && Val(x.den) != 0
    requires g > 0 && Divides(g, Val(x.num.magnitude)) && Divides(Val(x.den), l)
    ensures Times(RVal(x), Over(l as real, g as real)) == m as real
  {
    var n, d := IVal(x.num), Val(x.den);
    var a := SignedQuotient(n, g);
    DividesWitness(d, l);
    FractionTimesRatio(n, d, l, g, a, l / d);
    m := a * (l / d);
  }

  /** n / g for a divisor g of |n|, with its sign. */
  lemma SignedQuotient(n: int, g: nat) returns (a: int)
    requires Divides(g, AbsInt(n))
    ensures n == a * g
  {
    DividesWitness(g, AbsInt(n));
    a := if n < 0 then -(AbsInt(n) / g) else AbsInt(n) / g;
  }

  /** A fraction in lowest terms whose value is an integer has denominator 1. */
  lemma IntegerValued(y: Rational, m: int)
    requires WellFormed(y) && Val(y.den) != 0 && InLowestTerms(y) && RVal(y) == m as real
    ensures Val(y.den) == 1
  {
    var n, d := IVal(y.num), Val(y.den);
    IntegerFraction(n, d, m);
    var k: nat := AbsInt(m);
    AbsProduct(m, d);
    DividesMultiple(d, k);
    MulDivCancel(d, 1);
    CommonDivisorDividesGcd(Val(y.num.magnitude), d, d);
    DividesOne(d);
  }

  /** The magnitude of a multiple of a non-negative number. */
  lemma AbsProduct(m: int, d: int)
    requires d >= 0
    ensures AbsInt(m * d) == AbsInt(m) * d
  {
    if m < 0 {
      assert m * d == -((-m) * d);
    }
  }

  /** x² = [0, 0, 1]: a nonzero polynomial on which factorOut as written
      fails, while the corrected FactorOut succeeds. */
  lemma FactorOutRejectsSquare()
    ensures var square := [ZeroCoefficient, ZeroCoefficient, Rational(Integer([1], false), [1])];
      CoefficientsValid(square) && FactorOutFails(square)
      && !IsZero(Values(square)) && !(forall k :: 0 <= k < |square| ==> IsZeroCoefficient(square[k]))
  {
    var square := [ZeroCoefficient, ZeroCoefficient, Rational(Integer([1], false), [1])];
    ZeroCoefficientValue();
    assert Val([1]) == 1;
    assert !IsZeroCoefficient(square[2]);
  }
}
