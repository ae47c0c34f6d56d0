/** Fractions: an Integer numerator over a NaturalNumber denominator
    (src/RationalNumber.cpp, with the (IntegerNumber, NaturalNumber)
    constructor of RationalNumber.h).

    Arithmetic does not reduce; `reduce` divides both parts by their gcd and
    is run by `toString` and `isInteger` before they read the fields. The
    value functions below describe those results; `RationalObject` is the
    object whose `reduce` replaces its fields in place. */
module RationalNumber {
  import opened Arith
  import opened Failures
  import opened NaturalNumber
  import opened IntegerNumber

  datatype Rational = Rational(num: Integer, den: Digits)

  /** Both parts are canonical. The denominator may be zero: nothing in the
      constructors rejects it. */
  predicate WellFormed(r: Rational)
  {
    IntegerNumber.Valid(r.num) && Canonical(r.den)
  }

  /** The value of a fraction with a nonzero denominator. */
  function RVal(r: Rational): real
    requires Val(r.den) != 0
  {
    (IVal(r.num) as real) / (Val(r.den) as real)
  }

  // ---------------------------------------------------------------- arithmetic on reals

  lemma ScaleFraction(p: int, d: int, k: int)
    requires d != 0 && k != 0
    ensures ((p * k) as real) / ((d * k) as real) == (p as real) / (d as real)
  {
    var P, D, K := p as real, d as real, k as real;
    assert (p * k) as real == P * K && (d * k) as real == D * K;
    assert (P * K) / (D * K) == P / D;
  }

  lemma SameDenominator(u: int, v: int, l: int)
    requires l != 0
    ensures (u as real) / (l as real) + (v as real) / (l as real) == ((u + v) as real) / (l as real)
      && (u as real) / (l as real) - (v as real) / (l as real) == ((u - v) as real) / (l as real)
  {
  }

  lemma ProductOfFractions(p: int, d: int, q: int, e: int)
    requires d != 0 && e != 0
    ensures ((p * q) as real) / ((d * e) as real) == Times((p as real) / (d as real), (q as real) / (e as real))
  {
    var P, D, Q, E := p as real, d as real, q as real, e as real;
    assert (p * q) as real == P * Q && (d * e) as real == D * E;
  }

  // ---------------------------------------------------------------- constructors

  /** The (IntegerNumber, NaturalNumber) constructor: both parts as given. */
  function Make(numerator: Integer, denominator: Digits): (r: Rational)
    ensures r.num == numerator && r.den == denominator
  {
    Rational(numerator, denominator)
  }

  /** The two-string constructor: an Integer numerator text and a
      NaturalNumber denominator text, leading zeros kept. */
  function FromStrings(numerator: string, denominator: string): (r: Result<Rational>)
    requires IsIntegerText(numerator) && IsDigitString(denominator)
    ensures r.Ok? <==> |numerator| > 0 && numerator != "-" && |denominator| > 0
    ensures r.Err? ==> r.error == EmptyInput
    ensures r.Ok? ==> r.value.num == IntegerNumber.FromString(numerator).value
    ensures r.Ok? ==> Val(r.value.den) == DecimalValue(denominator) && |r.value.den| == |denominator|
  {
    var n := IntegerNumber.FromString(numerator);
    if n.Err? then Err(n.error)
    else if |denominator| == 0 then Err(EmptyInput)
    else
      DigitsOfValue(denominator);
      Ok(Rational(n.value, DigitsOf(denominator)))
  }

  /** A long long converted to unsigned long long, as the NaturalNumber
      denominator of the pair constructor receives it: a negative value
      wraps around to value + 2^64. */
  function AsUnsigned(d: int): (u: nat)
    requires -0x8000_0000_0000_0000 <= d < 0x8000_0000_0000_0000
    ensures u < 0x1_0000_0000_0000_0000 && u % 0x1_0000_0000_0000_0000 == d % 0x1_0000_0000_0000_0000
  {
    if d < 0 then d + 0x1_0000_0000_0000_0000 else d
  }

  /** The long-long pair constructor: the numerator through Integer's
      long-long constructor, the denominator converted to unsigned long long
      for NaturalNumber's. */
  function FromMachine(numerator: int, denominator: int): (r: Rational)
    requires -0x7fff_ffff_ffff_ffff <= numerator <= 0x7fff_ffff_ffff_ffff
    requires -0x8000_0000_0000_0000 <= denominator < 0x8000_0000_0000_0000
    ensures WellFormed(r) && IVal(r.num) == numerator && Val(r.den) == AsUnsigned(denominator)
    ensures denominator >= 0 ==> Val(r.den) == denominator
  {
    Rational(IntegerNumber.FromMachine(numerator), FromNat(AsUnsigned(denominator)))
  }

  /** The text of a rational literal: an Integer text, optionally followed by
      `/` and a NaturalNumber text. */
  predicate IsRationalText(s: string)
  {
    var i := FirstSlash(s);
    if i == |s| then IsIntegerText(s) else IsIntegerText(s[..i]) && IsDigitString(s[i + 1..])
  }

  /** The position of the first `/`, or |s| when there is none. */
  function FirstSlash(s: string): (i: nat)
    ensures i <= |s| && (i < |s| ==> s[i] == '/')
    ensures forall k :: 0 <= k < i ==> s[k] != '/'
  {
    if |s| == 0 || s[0] == '/' then 0 else 1 + FirstSlash(s[1..])
  }

  /** The one-string constructor: without `/` the whole text is the numerator
      over 1; otherwise the text splits at its first `/`. */
  function FromString(s: string): (r: Result<Rational>)
    requires IsRationalText(s)
    ensures FirstSlash(s) == |s| ==> r == (if IntegerNumber.FromString(s).Ok?
                                             then Ok(Rational(IntegerNumber.FromString(s).value, [1]))
                                             else Err(EmptyInput))
    ensures FirstSlash(s) < |s| ==> r == FromStrings(s[..FirstSlash(s)], s[FirstSlash(s) + 1..])
  {
    var i := FirstSlash(s);
    if i == |s| then
      var n := IntegerNumber.FromString(s);
      if n.Err? then Err(n.error) else Ok(Rational(n.value, [1]))
    else FromStrings(s[..i], s[i + 1..])
  }

  /** fromInteger: the Integer over 1. */
  function FromInteger(i: Integer): (r: Rational)
    requires IntegerNumber.Valid(i)
    ensures WellFormed(r) && r.num == i && Val(r.den) == 1 && RVal(r) == IVal(i) as real
  {
    Rational(i, [1])
  }

  // ---------------------------------------------------------------- reduce

  /** reduce: divide numerator and denominator by gcd(|numerator|, denominator),
      leaving the fraction untouched when that gcd is 1; fails when both are zero. */
  function Reduced(r: Rational): (s: Result<Rational>)
    requires WellFormed(r)
    ensures s.Ok? <==> Val(r.num.magnitude) != 0 || Val(r.den) != 0
    ensures s.Err? ==> s.error == UndefinedGcd
    ensures s.Ok? ==> WellFormed(s.value) && Gcd(Val(s.value.num.magnitude), Val(s.value.den)) == 1
    ensures s.Ok? ==> (Val(s.value.den) == 0 <==> Val(r.den) == 0)
    ensures s.Ok? && Val(r.den) != 0 ==> RVal(s.value) == RVal(r)
  {
    var n, d := Val(r.num.magnitude), Val(r.den);
    if n == 0 && d == 0 then Err(UndefinedGcd)
    else
      var g := Gcd(n, d);
      if g == 1 then Ok(r)
      else
        DividedFacts(r);
        Ok(GcdDivided(r))
  }

  /** `d / g` for a positive `g`. */
  function NatDiv(d: nat, g: nat): nat
    requires g > 0
  {
    d / g
  }

  /** Numerator and denominator divided by their gcd. */
  function GcdDivided(r: Rational): (x: Rational)
    requires WellFormed(r) && (Val(r.num.magnitude) != 0 || Val(r.den) != 0)
    ensures WellFormed(x)
  {
    var n, d := Val(r.num.magnitude), Val(r.den);
    var g := Gcd(n, d);
    GcdPositive(n, d);
    Rational(FromInt(TruncDiv(IVal(r.num), g)), FromNat(NatDiv(d, g)))
  }

  /** The fraction divided through by the gcd is coprime, keeps a zero
      denominator zero and otherwise keeps the value. */
  lemma DividedFacts(r: Rational)
    requires WellFormed(r) && (Val(r.num.magnitude) != 0 || Val(r.den) != 0)
    ensures Gcd(Val(GcdDivided(r).num.magnitude), Val(GcdDivided(r).den)) == 1
    ensures Val(GcdDivided(r).den) == 0 <==> Val(r.den) == 0
    ensures Val(r.den) != 0 ==> RVal(GcdDivided(r)) == RVal(r)
  {
    var n, d := Val(r.num.magnitude), Val(r.den);
    GcdOfQuotients(n, d);
    ReduceFacts(r);
  }

  lemma ReduceFacts(r: Rational)
    requires WellFormed(r) && (Val(r.num.magnitude) != 0 || Val(r.den) != 0)
    ensures var n, d := Val(r.num.magnitude), Val(r.den);
      var g := Gcd(n, d);
      g > 0 && (d / g == 0 <==> d == 0)
      && AbsInt(TruncDiv(IVal(r.num), g)) == n / g
      && (d != 0 ==> ((TruncDiv(IVal(r.num), g) as real) / ((d / g) as real) == RVal(r)))
  {
    var n, d := Val(r.num.magnitude), Val(r.den);
    GcdDivides(n, d);
    assert AbsInt(IVal(r.num)) == n;
    ExactTruncDiv(IVal(r.num), d, Gcd(n, d));
    if d != 0 {
      FractionValue(r, IVal(r.num), d);
    }
  }

  /** Dividing numerator and denominator by a common divisor keeps the value. */
  lemma ExactTruncDiv(v: int, d: nat, g: nat)
    requires Divides(g, AbsInt(v)) && Divides(g, d)
    ensures AbsInt(TruncDiv(v, g)) == AbsInt(v) / g && TruncDiv(v, g) * g == v
    ensures d / g == 0 <==> d == 0
    ensures d != 0 ==> (TruncDiv(v, g) as real) / ((d / g) as real) == (v as real) / (d as real)
  {
    DividesWitness(g, AbsInt(v));
    DividesWitness(g, d);
    var q := TruncDiv(v, g);
    var k: int := AbsInt(v) / g;
    if v < 0 {
      assert q == -k;
      assert v == -(g * k);
    } else {
      assert q == k;
    }
    assert q * g == v;
    if d != 0 {
      ScaleFraction(q, d / g, g);
      assert (d / g) * g == d;
    }
  }

  /** Reducing a reduced fraction changes nothing. */
  lemma ReduceIdempotent(r: Rational)
    requires WellFormed(r) && Reduced(r).Ok?
    ensures Reduced(Reduced(r).value) == Reduced(r)
  {
  }

  // ---------------------------------------------------------------- observers over reduce

  /** toString: the reduced numerator, `/`, and the reduced denominator. */
  function Printed(r: Rational): (t: Result<string>)
    requires WellFormed(r)
    ensures t.Ok? <==> Reduced(r).Ok?
  {
    var s := Reduced(r);
    if s.Err? then Err(s.error)
    else Ok(IntegerNumber.ToString(s.value.num) + "/" + Render(s.value.den))
  }

  /** Reading the printed text back gives the reduced fraction. */
  lemma ToStringRoundTrip(r: Rational)
    requires WellFormed(r) && Printed(r).Ok?
    ensures IsRationalText(Printed(r).value)
    ensures FromString(Printed(r).value) == Reduced(r)
  {
    JoinRoundTrip(Reduced(r).value);
  }

  /** `numerator/denominator` text reads back as the same fraction. */
  lemma JoinRoundTrip(x: Rational)
    requires |x.num.magnitude| > 0 && |x.den| > 0
    ensures var t := IntegerNumber.ToString(x.num) + "/" + Render(x.den);
      IsRationalText(t) && FromString(t) == Ok(x)
  {
    var n, m := IntegerNumber.ToString(x.num), Render(x.den);
    IntegerNumber.ToStringRoundTrip(x.num);
    RenderRoundTrip(x.den);
    NoSlash(x.num);
    SplitAtSlash(n, m);
  }

  /** Text joined at a `/` that the left part does not contain splits back there. */
  lemma SplitAtSlash(n: string, m: string)
    requires IsIntegerText(n) && IsDigitString(m)
    requires forall k :: 0 <= k < |n| ==> n[k] != '/'
    ensures IsRationalText(n + "/" + m) && FromString(n + "/" + m) == FromStrings(n, m)
  {
    var t := n + "/" + m;
    assert t[..|n|] == n && t[|n|] == '/' && t[|n| + 1..] == m;
    FirstSlashAt(t, |n|);
  }

  lemma NoSlash(x: Integer)
    requires |x.magnitude| > 0
    ensures forall k :: 0 <= k < |IntegerNumber.ToString(x)| ==> IntegerNumber.ToString(x)[k] != '/'
  {
    var r := Render(x.magnitude);
    assert forall k :: 0 <= k < |r| ==> IsDigitChar(r[k]);
  }

  lemma {:induction false} FirstSlashAt(s: string, i: nat)
    requires i < |s| && s[i] == '/' && forall k :: 0 <= k < i ==> s[k] != '/'
    ensures FirstSlash(s) == i
  {
    if i > 0 {
      FirstSlashAt(s[1..], i - 1);
    }
  }

  /** isInteger: true exactly when the reduced denominator is 1, which for a
      nonzero denominator is when it divides the numerator. */
  function IsIntegral(r: Rational): (b: Result<bool>)
    requires WellFormed(r)
    ensures b.Ok? <==> Reduced(r).Ok?
    ensures b.Ok? ==> (b.value <==> Reduced(r).value.den == [1])
    ensures b.Ok? && Val(r.den) != 0 ==> (b.value <==> Divides(Val(r.den), Val(r.num.magnitude)))
  {
    var s := Reduced(r);
    if s.Err? then Err(s.error)
    else
      if Val(r.den) != 0 then IntegralIffDivides(r); Ok(s.value.den == [1])
      else Ok(s.value.den == [1])
  }

  lemma IntegralIffDivides(r: Rational)
    requires WellFormed(r) && Val(r.den) != 0
    ensures Reduced(r).value.den == [1] <==> Divides(Val(r.den), Val(r.num.magnitude))
  {
    var n, d := Val(r.num.magnitude), Val(r.den);
    var g := Gcd(n, d);
    GcdDivides(n, d);
    GcdOfDivisor(n, d);
    QuotientIsOne(d, g);
    ReducedDenominator(r);
    CanonicalEqual(Reduced(r).value.den, [1]);
  }

  /** The reduced denominator is the denominator divided by the gcd. */
  lemma ReducedDenominator(r: Rational)
    requires WellFormed(r) && Val(r.den) != 0
    ensures Gcd(Val(r.num.magnitude), Val(r.den)) > 0
    ensures Val(Reduced(r).value.den) == Val(r.den) / Gcd(Val(r.num.magnitude), Val(r.den))
  {
    var n, d := Val(r.num.magnitude), Val(r.den);
    GcdPositive(n, d);
    if Gcd(n, d) == 1 {
      assert Reduced(r).value == r;
    } else {
      assert Reduced(r).value == GcdDivided(r);
    }
  }

  /** A fraction over 1 is worth its numerator. */
  lemma OverOne(s: Rational)
    requires s.den == [1]
    ensures Val(s.den) == 1 && RVal(s) == IVal(s.num) as real
  {
  }

  /** toInteger: fails unless the fraction is an integer, and then yields the
      reduced numerator, whose value is the fraction's. */
  function ToInteger(r: Rational): (i: Result<Integer>)
    requires WellFormed(r)
    ensures i.Ok? <==> IsIntegral(r).Ok? && IsIntegral(r).value
    ensures i.Err? && Reduced(r).Ok? ==> i.error == NotAnInteger
    ensures i.Ok? ==> i.value == Reduced(r).value.num
    ensures i.Ok? && Val(r.den) != 0 ==> IVal(i.value) as real == RVal(r)
  {
    var b := IsIntegral(r);
    if b.Err? then Err(b.error)
    else if !b.value then Err(NotAnInteger)
    else
      OverOne(Reduced(r).value);
      Ok(Reduced(r).value.num)
  }

  // ---------------------------------------------------------------- arithmetic

  /** A signed numerator scaled by `k`, as add and subtract build it: the
      magnitude times k under the original flag. */
  function Scaled(n: Integer, k: nat): (x: Integer)
    requires IntegerNumber.Valid(n)
    ensures IntegerNumber.Valid(x) && IVal(x) == IVal(n) * k
  {
    var p := Val(n.magnitude) * k;
    NegatedFactors(Val(n.magnitude), k);
    IntegerNumber.Make(FromNat(p), n.negative)
  }

  /** add: both numerators brought to lcm(d1, d2) and added; not reduced.
      Fails when a denominator is zero. */
  function Add(a: Rational, b: Rational): (r: Result<Rational>)
    requires WellFormed(a) && WellFormed(b)
    ensures r.Ok? <==> Val(a.den) != 0 && Val(b.den) != 0
    ensures r.Err? ==> r.error == UndefinedLcm
    ensures r.Ok? ==> WellFormed(r.value) && Val(r.value.den) == Lcm(Val(a.den), Val(b.den))
    ensures r.Ok? ==> Val(r.value.den) != 0 && RVal(r.value) == RVal(a) + RVal(b)
  {
    var d1, d2 := Val(a.den), Val(b.den);
    if d1 == 0 || d2 == 0 then Err(UndefinedLcm)
    else
      var l := Lcm(d1, d2);
      CommonDenominator(d1, d2);
      var x, y := Scaled(a.num, l / d1), Scaled(b.num, l / d2);
      var r := Rational(IntegerNumber.Add(x, y), FromNat(l));
      SumValue(a, b, r, l / d1, l / d2);
      Ok(r)
  }

  /** subtract: as add, with an Integer subtraction of the scaled numerators. */
  function Subtract(a: Rational, b: Rational): (r: Result<Rational>)
    requires WellFormed(a) && WellFormed(b)
    ensures r.Ok? <==> Val(a.den) != 0 && Val(b.den) != 0
    ensures r.Err? ==> r.error == UndefinedLcm
    ensures r.Ok? ==> WellFormed(r.value) && Val(r.value.den) == Lcm(Val(a.den), Val(b.den))
    ensures r.Ok? ==> Val(r.value.den) != 0 && RVal(r.value) == RVal(a) - RVal(b)
  {
    var d1, d2 := Val(a.den), Val(b.den);
    if d1 == 0 || d2 == 0 then Err(UndefinedLcm)
    else
      var l := Lcm(d1, d2);
      CommonDenominator(d1, d2);
      var x, y := Scaled(a.num, l / d1), Scaled(b.num, l / d2);
      var r := Rational(IntegerNumber.Subtract(x, y), FromNat(l));
      DifferenceValue(a, b, r, l / d1, l / d2);
      Ok(r)
  }

  /** A fraction whose numerator is the numerators scaled to a common
      denominator and added denotes the sum. */
  lemma SumValue(a: Rational, b: Rational, r: Rational, k1: int, k2: int)
    requires Val(a.den) != 0 && Val(b.den) != 0 && Val(r.den) != 0
    requires Val(r.den) == Val(a.den) * k1 && Val(r.den) == Val(b.den) * k2
    requires IVal(r.num) == IVal(a.num) * k1 + IVal(b.num) * k2
    ensures RVal(r) == RVal(a) + RVal(b)
  {
    var d1, d2, l := Val(a.den), Val(b.den), Val(r.den);
    SumOverCommon(IVal(a.num), IVal(b.num), d1, d2, l, k1, k2);
    FractionValue(r, IVal(a.num) * k1 + IVal(b.num) * k2, l);
    FractionValue(a, IVal(a.num), d1);
    FractionValue(b, IVal(b.num), d2);
  }

  /** The same with the scaled numerators subtracted. */
  lemma DifferenceValue(a: Rational, b: Rational, r: Rational, k1: int, k2: int)
    requires Val(a.den) != 0 && Val(b.den) != 0 && Val(r.den) != 0
    requires Val(r.den) == Val(a.den) * k1 && Val(r.den) == Val(b.den) * k2
    requires IVal(r.num) == IVal(a.num) * k1 - IVal(b.num) * k2
    ensures RVal(r) == RVal(a) - RVal(b)
  {
    var d1, d2, l := Val(a.den), Val(b.den), Val(r.den);
    SumOverCommon(IVal(a.num), IVal(b.num), d1, d2, l, k1, k2);
    FractionValue(r, IVal(a.num) * k1 - IVal(b.num) * k2, l);
    FractionValue(a, IVal(a.num), d1);
    FractionValue(b, IVal(b.num), d2);
  }

  /** lcm(d1, d2) is a positive multiple of both denominators. */
  lemma CommonDenominator(d1: nat, d2: nat)
    requires d1 > 0 && d2 > 0
    ensures var l := Lcm(d1, d2); l > 0 && l == d1 * (l / d1) && l == d2 * (l / d2)
  {
    var l := Lcm(d1, d2);
    LcmIsCommonMultiple(d1, d2);
    DividesWitness(d1, l);
    DividesWitness(d2, l);
  }

  /** Fractions rewritten over a common multiple of their denominators add
      and subtract numerator-wise. */
  lemma SumOverCommon(p: int, q: int, d1: int, d2: int, l: int, k1: int, k2: int)
    requires d1 > 0 && d2 > 0 && l > 0 && l == d1 * k1 && l == d2 * k2
    ensures ((p * k1 + q * k2) as real) / (l as real) == (p as real) / (d1 as real) + (q as real) / (d2 as real)
    ensures ((p * k1 - q * k2) as real) / (l as real) == (p as real) / (d1 as real) - (q as real) / (d2 as real)
  {
    assert k1 != 0 && k2 != 0;
    ScaleFraction(p, d1, k1);
    ScaleFraction(q, d2, k2);
    SameDenominator(p * k1, q * k2, l);
  }

  /** multiply: numerators and denominators multiplied; not reduced. */
  function Multiply(a: Rational, b: Rational): (r: Rational)
    requires WellFormed(a) && WellFormed(b)
    ensures WellFormed(r) && Val(r.den) == Val(a.den) * Val(b.den)
    ensures IVal(r.num) == IVal(a.num) * IVal(b.num)
    ensures Val(a.den) != 0 && Val(b.den) != 0 ==> Val(r.den) != 0 && RVal(r) == Times(RVal(a), RVal(b))
  {
    var r := Rational(IntegerNumber.Multiply(a.num, b.num), FromNat(Val(a.den) * Val(b.den)));
    ProductValue(a, b, r);
    r
  }

  lemma ProductValue(a: Rational, b: Rational, r: Rational)
    requires IVal(r.num) == IVal(a.num) * IVal(b.num) && Val(r.den) == Val(a.den) * Val(b.den)
    ensures Val(a.den) != 0 && Val(b.den) != 0 ==> Val(r.den) != 0 && RVal(r) == Times(RVal(a), RVal(b))
  {
    var n1, d1, n2, d2 := IVal(a.num), Val(a.den), IVal(b.num), Val(b.den);
    if d1 != 0 && d2 != 0 {
      MulAtLeast(d1, d2);
      ProductOfFractions(n1, d1, n2, d2);
      FractionValue(a, n1, d1);
      FractionValue(b, n2, d2);
      FractionValue(r, n1 * n2, d1 * d2);
    }
  }

  lemma FractionValue(r: Rational, n: int, d: int)
    requires IVal(r.num) == n && Val(r.den) == d && d != 0
    ensures RVal(r) == (n as real) / (d as real)
  {
  }

  /** division: fails on a zero divisor numerator; otherwise
      (n1·d2)/(d1·|n2|) with the divisor numerator's flag moved to d2. */
  function Division(a: Rational, b: Rational): (r: Result<Rational>)
    requires WellFormed(a) && WellFormed(b)
    ensures r.Ok? <==> IVal(b.num) != 0
    ensures r.Err? ==> r.error == DivideByZero
    ensures r.Ok? ==> WellFormed(r.value) && Val(r.value.den) == Val(a.den) * Val(b.num.magnitude)
    ensures r.Ok? && Val(a.den) != 0 && Val(b.den) != 0 ==>
      Val(r.value.den) != 0 && RVal(r.value) == Over(RVal(a), RVal(b))
  {
    if GetSign(b.num) == 0 then Err(DivideByZero)
    else
      var flipped := IntegerNumber.Make(b.den, b.num.negative);
      var d1, m2 := Val(a.den), Val(b.num.magnitude);
      var q := Rational(IntegerNumber.Multiply(a.num, flipped), FromNat(d1 * m2));
      if d1 != 0 && Val(b.den) != 0 then
        DivisionValue(a, b, flipped);
        Ok(q)
      else Ok(q)
  }

  lemma DivisionValue(a: Rational, b: Rational, flipped: Integer)
    requires WellFormed(a) && WellFormed(b) && Val(a.den) != 0 && Val(b.den) != 0 && IVal(b.num) != 0
    requires IntegerNumber.Valid(flipped) && Val(flipped.magnitude) == Val(b.den)
    requires flipped.negative == b.num.negative
    ensures var d := Val(a.den) * Val(b.num.magnitude);
      d != 0 && ((IVal(a.num) * IVal(flipped)) as real) / (d as real) == Over(RVal(a), RVal(b))
  {
    MulAtLeast(Val(a.den), Val(b.num.magnitude));
    QuotientOfFractions(IVal(a.num), Val(a.den), IVal(b.num), Val(b.den), IVal(flipped), Val(b.num.magnitude));
  }

  /** n1/d1 divided by n2/d2 is n1·e over d1·m2, where m2 = |n2| and e is
      d2 carrying n2's sign. */
  lemma QuotientOfFractions(n1: int, d1: int, n2: int, d2: int, e: int, m2: int)
    requires d1 > 0 && d2 > 0 && m2 > 0
    requires (n2 == m2 && e == d2) || (n2 == -m2 && e == -d2)
    ensures ((n1 * e) as real) / ((d1 * m2) as real) == ((n1 as real) / (d1 as real)) / ((n2 as real) / (d2 as real))
  {
    ProductOfFractions(n1, d1, e, m2);
    var E, M, N2, D2 := e as real, m2 as real, n2 as real, d2 as real;
    assert E / M == D2 / N2;
    assert 1.0 / (N2 / D2) == D2 / N2;
  }

  // ---------------------------------------------------------------- the object

  /** A RationalNumber object; `Reduce` rewrites its fields although the
      source declares it const, and `ToString` and `IsInteger` run it first. */
  class RationalObject {
    var numerator: Integer
    var denominator: Digits

    function Value(): Rational
      reads this
    {
      Rational(numerator, denominator)
    }

    constructor (r: Rational)
      ensures Value() == r
    {
      numerator := r.num;
      denominator := r.den;
    }

    /** reduce: gcd of |numerator| and the denominator; nothing changes when
        it is 1; otherwise both fields are divided by it. */
    method Reduce() returns (o: Outcome)
      requires WellFormed(Value())
      modifies this
      ensures o.Pass? <==> Reduced(old(Value())).Ok?
      ensures o.Fail? ==> o.error == UndefinedGcd && Value() == old(Value())
      ensures o.Pass? ==> Value() == Reduced(old(Value())).value
    {
      var numeratorAbs := Abs(numerator);
      var gcd := GCD(numeratorAbs, denominator);
      if gcd.Err? {
        return Fail(gcd.error);
      }
      var g := gcd.value;
      CanonicalEqual(g, [1]);
      if |g| == 1 && g[0] == 1 {
        return Pass;
      }
      ghost var n, d := Val(numeratorAbs), Val(denominator);
      GcdDivides(n, d);
      var reducedNumerator := IntegerNumber.Quotient(numerator, IntegerNumber.Make(g, false));
      var reducedDenominator := NaturalNumber.Quotient(denominator, g);
      IntegerUnique(reducedNumerator.value);
      CanonicalUnique(reducedDenominator.value);
      numerator := reducedNumerator.value;
      denominator := reducedDenominator.value;
      o := Pass;
    }

    /** toString: reduce, then print. */
    method ToString() returns (t: Result<string>)
      requires WellFormed(Value())
      modifies this
      ensures t == Printed(old(Value()))
      ensures t.Ok? ==> Value() == Reduced(old(Value())).value
    {
      var o := Reduce();
      if o.Fail? {
        return Err(o.error);
      }
      var n := IntegerNumber.ToString(numerator);
      var d := NaturalNumber.ToString(denominator);
      t := Ok(n + "/" + d.value);
    }

    /** isInteger: reduce, then test the denominator against [1]. */
    method IsInteger() returns (b: Result<bool>)
      requires WellFormed(Value())
      modifies this
      ensures b == IsIntegral(old(Value()))
      ensures b.Ok? ==> Value() == Reduced(old(Value())).value
    {
      var o := Reduce();
      if o.Fail? {
        return Err(o.error);
      }
      b := Ok(|denominator| == 1 && denominator[0] == 1);
    }
  }
}
