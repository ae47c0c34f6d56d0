/** The literal validators (Validator/Validator.cpp).

    Each validator takes its literal by reference and rewrites it into
    normal form: leading zeros removed, `-0` refused, a rational kept as
    `numerator/denominator`. Here a validator returns the outcome and the
    text as the source leaves it, and is specified by a function giving the
    normal form or the failure. The lemmas show that the normal form is the
    canonical printing of the literal's value, and that validating it again
    changes nothing. */
module Validator {
  import opened Arith
  import opened Failures
  import opened NaturalNumber
  import opened IntegerNumber
  import opened RationalNumber
  import opened Parser
  import Lexer
  import Polynomial

  // ---------------------------------------------------------------- naturals

  /** The numeral without its leading zeros, or "0" when only zeros remain. */
  function StripZeros(s: string): (t: string)
    requires IsDigitString(s)
    ensures IsNumeral(t) && (t[0] == '0' ==> t == "0")
    ensures DecimalValue(t) == DecimalValue(s)
  {
    if |s| == 0 then "0"
    else if s[0] == '0' then LeadingZero(s); StripZeros(s[1..])
    else s
  }

  /** A leading zero adds nothing to a numeral's value. */
  lemma {:induction false} LeadingZero(s: string)
    requires IsDigitString(s) && |s| > 0 && s[0] == '0'
    ensures DecimalValue(s) == DecimalValue(s[1..])
  {
    if |s| > 1 {
      var p := s[..|s| - 1];
      LeadingZero(p);
      assert p[1..] == s[1..][..|s| - 2];
    }
  }

  /** validateNaturalNumber's result: the normal form of a nonempty numeral. */
  function ValidatedNatural(s: string): (r: Result<string>)
    ensures r.Ok? <==> IsNumeral(s)
    ensures r.Err? ==> r.error == (if |s| == 0 then EmptyInput else NonDigit)
  {
    if |s| == 0 then Err(EmptyInput)
    else if !IsDigitString(s) then Err(NonDigit)
    else Ok(StripZeros(s))
  }

  /** validateNaturalNumber: fails on an empty or non-digit text and leaves it
      alone; otherwise rewrites it to its normal form. */
  method ValidateNaturalNumber(number: string) returns (o: Outcome, number': string)
    ensures o.Pass? ==> ValidatedNatural(number) == Ok(number')
    ensures o.Fail? ==> ValidatedNatural(number) == Err(o.error) && number' == number
  {
    if |number| == 0 {
      return Fail(EmptyInput), number;
    }
    for k := 0 to |number|
      invariant forall j :: 0 <= j < k ==> IsDigitChar(number[j])
    {
      if !IsDigitChar(number[k]) {
        return Fail(NonDigit), number;
      }
    }
    var pos := 0;
    while pos < |number| && number[pos] == '0'
      invariant 0 <= pos <= |number| && IsDigitString(number[pos..])
      invariant StripZeros(number[pos..]) == StripZeros(number)
    {
      assert number[pos..][1..] == number[pos + 1..];
      pos := pos + 1;
    }
    if pos == |number| {
      number' := "0";
    } else {
      number' := number[pos..];
    }
    o := Pass;
  }

  /** The normal form is the canonical printing of the numeral's value. */
  lemma NaturalCanonical(s: string)
    requires IsNumeral(s)
    ensures ValidatedNatural(s) == Ok(Render(FromNat(DecimalValue(s))))
  {
    var t := StripZeros(s);
    var d := DigitsOf(t);
    DigitsOfValue(t);
    DigitsOfAt(t);
    assert d[|d| - 1] == CharDigit(t[0]);
    CanonicalUnique(d);
    DigitsOfRoundTrip(t);
  }

  /** Validating a normal form gives it back. */
  lemma NaturalIdempotent(s: string)
    requires ValidatedNatural(s).Ok?
    ensures ValidatedNatural(ValidatedNatural(s).value) == ValidatedNatural(s)
  {
    var t := ValidatedNatural(s).value;
    NaturalCanonical(s);
    NaturalCanonical(t);
  }

  /** The normal form of a numeral is "0" exactly when its value is zero. */
  lemma NaturalZero(s: string)
    requires IsNumeral(s)
    ensures ValidatedNatural(s).value == "0" <==> DecimalValue(s) == 0
  {
    NaturalCanonical(s);
    assert DecimalValue("0") == 0 by { assert "0"[..0] == ""; }
    if DecimalValue(s) == 0 {
      assert FromNat(0) == [0];
    }
  }

  // ---------------------------------------------------------------- integers

  /** The text after an optional leading `-`. */
  function Unsigned(s: string): string
  {
    if |s| > 0 && s[0] == '-' then s[1..] else s
  }

  /** The value of a numeral with an optional leading `-`. */
  function SignedValue(s: string): int
    requires IsSignedNumeral(s)
  {
    if s[0] == '-' then 0 - DecimalValue(s[1..]) else DecimalValue(s)
  }

  /** validateIntegerNumber's result: an optional `-` before a natural's
      normal form, with `-0` refused. */
  function ValidatedInteger(s: string): (r: Result<string>)
    ensures r.Err? ==> r.error == (if |s| == 0 then EmptyInput else InvalidInteger)
  {
    if |s| == 0 then Err(EmptyInput)
    else
      var negative := s[0] == '-';
      var n := ValidatedNatural(Unsigned(s));
      if n.Err? then Err(InvalidInteger)
      else
        var t := if negative then "-" + n.value else n.value;
        if t == "-0" then Err(InvalidInteger) else Ok(t)
  }

  /** The text validateIntegerNumber leaves behind when it fails: the `-` is
      already gone when the magnitude is refused, and back for `-0`. */
  function IntegerLeftover(s: string): string
  {
    if |s| == 0 then s
    else if ValidatedNatural(Unsigned(s)).Err? then Unsigned(s)
    else "-0"
  }

  /** validateIntegerNumber. */
  method ValidateIntegerNumber(number: string) returns (o: Outcome, number': string)
    ensures o.Pass? ==> ValidatedInteger(number) == Ok(number')
    ensures o.Fail? ==> ValidatedInteger(number) == Err(o.error) && number' == IntegerLeftover(number)
  {
    if |number| == 0 {
      return Fail(EmptyInput), number;
    }
    var isNegative := false;
    number' := number;
    if number'[0] == '-' {
      isNegative := true;
      number' := number'[1..];
    }
    var natural;
    natural, number' := ValidateNaturalNumber(number');
    if natural.Fail? {
      return Fail(InvalidInteger), number';
    }
    if isNegative {
      number' := "-" + number';
    }
    if number' == "-0" {
      return Fail(InvalidInteger), number';
    }
    o := Pass;
  }

  /** The literals validateIntegerNumber accepts: a numeral with an optional
      `-`, except a negative zero; the normal form is the canonical printing
      of the value. */
  lemma IntegerCanonical(s: string)
    ensures ValidatedInteger(s).Ok? <==> IsSignedNumeral(s) && !(s[0] == '-' && DecimalValue(s[1..]) == 0)
    ensures ValidatedInteger(s).Ok? ==> ValidatedInteger(s).value == IntegerNumber.ToString(FromInt(SignedValue(s)))
  {
    if |s| > 0 && IsNumeral(Unsigned(s)) {
      var u := Unsigned(s);
      NaturalCanonical(u);
      NaturalZero(u);
      var t := ValidatedNatural(u).value;
      if s[0] == '-' {
        assert ("-" + t == "-0") <==> t == "0" by {
          if "-" + t == "-0" { assert t == ("-" + t)[1..]; }
        }
      } else {
        assert t != "-0" by { assert t[0] != '-'; }
      }
    }
  }

  /** Validating an integer's normal form gives it back. */
  lemma IntegerIdempotent(s: string)
    requires ValidatedInteger(s).Ok?
    ensures ValidatedInteger(ValidatedInteger(s).value) == ValidatedInteger(s)
  {
    var t := ValidatedInteger(s).value;
    var n := ValidatedNatural(Unsigned(s)).value;
    NaturalIdempotent(Unsigned(s));
    assert n[0] != '-';
    if s[0] == '-' {
      assert Unsigned(t) == n;
    } else {
      assert Unsigned(t) == n;
    }
  }

  // ---------------------------------------------------------------- rationals

  /** validateRationalNumber's result: split at the first `/`, a valid
      integer numerator over a valid nonzero natural denominator, both in
      normal form. */
  function ValidatedRational(s: string): (r: Result<string>)
    ensures r.Err? && |s| > 0 ==> r.error in {MissingSlash, InvalidNumerator, InvalidDenominator, ZeroDenominator}
  {
    if |s| == 0 then Err(EmptyInput)
    else
      var p := FirstSlash(s);
      if p == |s| then Err(MissingSlash)
      else
        var n := ValidatedInteger(s[..p]);
        if n.Err? then Err(InvalidNumerator)
        else
          var d := ValidatedNatural(s[p + 1..]);
          if d.Err? then Err(InvalidDenominator)
          else if d.value == "0" then Err(ZeroDenominator)
          else Ok(n.value + "/" + d.value)
  }

  /** validateRationalNumber: the text is rewritten only on success. */
  method ValidateRationalNumber(number: string) returns (o: Outcome, number': string)
    ensures o.Pass? ==> ValidatedRational(number) == Ok(number')
    ensures o.Fail? ==> ValidatedRational(number) == Err(o.error) && number' == number
  {
    number' := number;
    if |number| == 0 {
      return Fail(EmptyInput), number';
    }
    var delimiterPos := FirstSlash(number);
    if delimiterPos == |number| {
      return Fail(MissingSlash), number';
    }
    var numerator := number[..delimiterPos];
    var denominator := number[delimiterPos + 1..];
    var checked;
    checked, numerator := ValidateIntegerNumber(numerator);
    if checked.Fail? {
      return Fail(InvalidNumerator), number';
    }
    checked, denominator := ValidateNaturalNumber(denominator);
    if checked.Fail? {
      return Fail(InvalidDenominator), number';
    }
    if denominator == "0" {
      return Fail(ZeroDenominator), number';
    }
    number' := numerator + "/" + denominator;
    o := Pass;
  }

  /** The rational an accepted literal denotes: the canonical numerator over
      the canonical, nonzero denominator. */
  function RationalOf(s: string): (x: Rational)
    requires ValidatedRational(s).Ok?
    ensures WellFormed(x) && Val(x.den) != 0
  {
    var p := FirstSlash(s);
    IntegerCanonical(s[..p]);
    NaturalZero(s[p + 1..]);
    Rational(FromInt(SignedValue(s[..p])), FromNat(DecimalValue(s[p + 1..])))
  }

  /** The normal form of an accepted rational literal is the printing of the
      fraction it denotes, unreduced, and reads back as that fraction. */
  lemma RationalCanonical(s: string)
    requires ValidatedRational(s).Ok?
    ensures var x := RationalOf(s); var t := ValidatedRational(s).value;
      t == IntegerNumber.ToString(x.num) + "/" + Render(x.den)
      && IsRationalText(t) && RationalNumber.FromString(t) == Ok(x)
  {
    var p := FirstSlash(s);
    IntegerCanonical(s[..p]);
    NaturalCanonical(s[p + 1..]);
    JoinRoundTrip(RationalOf(s));
  }

  /** Validating a rational's normal form gives it back. */
  lemma RationalIdempotent(s: string)
    requires ValidatedRational(s).Ok?
    ensures ValidatedRational(ValidatedRational(s).value) == ValidatedRational(s)
  {
    var n, d := RationalParts(s);
    SplitJoined(n, d);
    var t := n + "/" + d;
    assert t[..FirstSlash(t)] == n && t[FirstSlash(t) + 1..] == d;
  }

  /** An accepted rational literal is its validated numerator and
      denominator joined by `/`, each of them already in normal form. */
  lemma RationalParts(s: string) returns (n: string, d: string)
    requires ValidatedRational(s).Ok?
    ensures ValidatedRational(s) == Ok(n + "/" + d)
    ensures ValidatedInteger(n) == Ok(n) && IsSignedNumeral(n)
    ensures ValidatedNatural(d) == Ok(d) && d != "0"
  {
    var p := FirstSlash(s);
    n, d := ValidatedInteger(s[..p]).value, ValidatedNatural(s[p + 1..]).value;
    IntegerIdempotent(s[..p]);
    NaturalIdempotent(s[p + 1..]);
    IntegerCanonical(n);
  }

  /** A signed numeral joined to a text by `/` splits back at that `/`. */
  lemma SplitJoined(n: string, d: string)
    requires IsSignedNumeral(n)
    ensures var t := n + "/" + d;
      FirstSlash(t) == |n| && t[..|n|] == n && t[|n| + 1..] == d
  {
    var t := n + "/" + d;
    forall k | 0 <= k < |n|
      ensures t[k] != '/'
    {
      assert t[k] == n[k];
      if n[0] == '-' && k > 0 {
        assert n[k] == n[1..][k - 1];
      }
    }
    FirstSlashAt(t, |n|);
    assert t[..|n|] == n && t[|n| + 1..] == d;
  }

  // ---------------------------------------------------------------- polynomial literals: monoms

  /** The monoms of a polynomial literal: the lexer's tokens, parsed. */
  function LiteralMonoms(s: string): (r: Result<seq<Monom>>)
    ensures r.Ok? ==> AllShaped(r.value)
  {
    var t := Lexer.Tokenize(s);
    if t.Err? then Err(t.error)
    else
      var r := Monoms(t.value);
      if r.Err? then r
      else MonomsShaped(t.value); r
  }

  /** Lexing with a Lexer object and parsing its tokens, as validatePolynomial
      does, gives the literal's monoms. */
  method ReadMonoms(number: string) returns (r: Result<seq<Monom>>)
    ensures r == LiteralMonoms(number)
  {
    var lexer := new Lexer.Lexer(number);
    var lexed := lexer.CreateTokens();
    if lexed.Fail? {
      return Err(lexed.error);
    }
    var tokens := lexer.GetTokens();
    r := Parse(tokens);
  }

  predicate AllShaped(ms: seq<Monom>)
  {
    forall i :: 0 <= i < |ms| ==> Shaped(ms[i])
  }

  /** A monom's degree as `stoull` reads it, without the 64-bit bound. */
  function DegreeOf(m: Monom): nat
    requires Shaped(m)
  {
    DecimalValue(m.degree)
  }

  /** The multiset of the monoms' degree values. */
  function Degrees(ms: seq<Monom>): multiset<nat>
    requires AllShaped(ms)
  {
    if |ms| == 0 then multiset{} else Degrees(ms[..|ms| - 1]) + multiset{DegreeOf(ms[|ms| - 1])}
  }

  predicate SortedByDegree(ms: seq<Monom>)
    requires AllShaped(ms)
  {
    forall i, j :: 0 <= i < j < |ms| ==> DegreeOf(ms[i]) <= DegreeOf(ms[j])
  }

  /** `m` inserted after the trailing monoms of higher degree: into sorted
      monoms, after every monom of lower or equal degree. */
  function Insert(ms: seq<Monom>, m: Monom): (r: seq<Monom>)
    requires AllShaped(ms) && Shaped(m)
    ensures AllShaped(r) && multiset(r) == multiset(ms) + multiset{m}
  {
    if |ms| == 0 || DegreeOf(ms[|ms| - 1]) <= DegreeOf(m) then ms + [m]
    else
      assert ms == ms[..|ms| - 1] + [ms[|ms| - 1]];
      Insert(ms[..|ms| - 1], m) + [ms[|ms| - 1]]
  }

  /** Insertion keeps monoms sorted and adds the monom's degree. */
  lemma {:induction false} InsertSorted(ms: seq<Monom>, m: Monom)
    requires AllShaped(ms) && Shaped(m) && SortedByDegree(ms)
    ensures SortedByDegree(Insert(ms, m))
    ensures Degrees(Insert(ms, m)) == Degrees(ms) + multiset{DegreeOf(m)}
  {
    if |ms| == 0 || DegreeOf(ms[|ms| - 1]) <= DegreeOf(m) {
      AppendSorted(ms, m);
    } else {
      var last, init := ms[|ms| - 1], ms[..|ms| - 1];
      InsertSorted(init, m);
      var r := Insert(init, m);
      InsertBelow(ms, m, r);
      AppendSorted(r, last);
    }
  }

  /** A monom of at least the last degree can be appended to sorted monoms. */
  lemma AppendSorted(ms: seq<Monom>, m: Monom)
    requires AllShaped(ms) && SortedByDegree(ms) && Shaped(m)
    requires forall k :: 0 <= k < |ms| ==> DegreeOf(ms[k]) <= DegreeOf(m)
    ensures AllShaped(ms + [m]) && SortedByDegree(ms + [m])
    ensures Degrees(ms + [m]) == Degrees(ms) + multiset{DegreeOf(m)}
  {
    var t := ms + [m];
    assert t[..|ms|] == ms;
    forall i, j | 0 <= i < j < |t|
      ensures DegreeOf(t[i]) <= DegreeOf(t[j])
    {
      assert t[i] == ms[i];
    }
  }

  /** Inserting below the last monom keeps every degree at or under the last one. */
  lemma InsertBelow(ms: seq<Monom>, m: Monom, r: seq<Monom>)
    requires AllShaped(ms) && |ms| > 0 && SortedByDegree(ms) && Shaped(m)
    requires DegreeOf(m) < DegreeOf(ms[|ms| - 1])
    requires AllShaped(r) && multiset(r) == multiset(ms[..|ms| - 1]) + multiset{m}
    ensures forall k :: 0 <= k < |r| ==> DegreeOf(r[k]) <= DegreeOf(ms[|ms| - 1])
  {
    var last, init := ms[|ms| - 1], ms[..|ms| - 1];
    forall k | 0 <= k < |r|
      ensures DegreeOf(r[k]) <= DegreeOf(last)
    {
      assert r[k] in multiset(r);
      if r[k] != m {
        assert r[k] in init;
        var j :| 0 <= j < |init| && init[j] == r[k];
        assert ms[j] == r[k];
      }
    }
  }

  /** The monoms in ascending order of degree value, monoms of equal degree
      kept in their order of appearance. */
  function SortByDegree(ms: seq<Monom>): (r: seq<Monom>)
    requires AllShaped(ms)
    ensures AllShaped(r) && SortedByDegree(r)
    ensures multiset(r) == multiset(ms) && Degrees(r) == Degrees(ms)
  {
    if |ms| == 0 then []
    else
      var init, last := ms[..|ms| - 1], ms[|ms| - 1];
      assert ms == init + [last];
      InsertSorted(SortByDegree(init), last);
      Insert(SortByDegree(init), last)
  }

  // ---------------------------------------------------------------- polynomial literals: duplicates

  /** Two neighbours whose degree texts are equal: the duplicate check as written. */
  predicate RepeatedDegreeText(ms: seq<Monom>)
  {
    exists i :: 1 <= i < |ms| && ms[i].degree == ms[i - 1].degree
  }

  /** Two neighbours whose degree values are equal. */
  predicate RepeatedDegree(ms: seq<Monom>)
    requires AllShaped(ms)
  {
    exists i :: 1 <= i < |ms| && DegreeOf(ms[i]) == DegreeOf(ms[i - 1])
  }

  /** No two monoms share a degree value. */
  predicate DistinctDegrees(ms: seq<Monom>)
    requires AllShaped(ms)
  {
    forall i, j :: 0 <= i < j < |ms| ==> DegreeOf(ms[i]) != DegreeOf(ms[j])
  }

  /** The duplicate loop of validatePolynomial: neighbours' degree texts. */
  method FindRepeatedDegreeText(ms: seq<Monom>) returns (o: Outcome)
    ensures o == if RepeatedDegreeText(ms) then Fail(DuplicateDegrees) else Pass
  {
    var i := 1;
    while i < |ms|
      invariant 1 <= i
      invariant forall k :: 1 <= k < i && k < |ms| ==> ms[k].degree != ms[k - 1].degree
    {
      if ms[i].degree == ms[i - 1].degree {
        return Fail(DuplicateDegrees);
      }
      i := i + 1;
    }
    o := Pass;
  }

  /** The duplicate loop comparing degree values. */
  method FindRepeatedDegree(ms: seq<Monom>) returns (o: Outcome)
    requires AllShaped(ms)
    ensures o == if RepeatedDegree(ms) then Fail(DuplicateDegrees) else Pass
  {
    var i := 1;
    while i < |ms|
      invariant 1 <= i
      invariant forall k :: 1 <= k < i && k < |ms| ==> DegreeOf(ms[k]) != DegreeOf(ms[k - 1])
    {
      if DegreeOf(ms[i]) == DegreeOf(ms[i - 1]) {
        return Fail(DuplicateDegrees);
      }
      i := i + 1;
    }
    o := Pass;
  }

  /** In sorted monoms, equal degrees anywhere means equal degrees side by side. */
  lemma SortedRepeats(ms: seq<Monom>)
    requires AllShaped(ms) && SortedByDegree(ms)
    ensures RepeatedDegree(ms) <==> !DistinctDegrees(ms)
  {
    if !DistinctDegrees(ms) {
      var i, j :| 0 <= i < j < |ms| && DegreeOf(ms[i]) == DegreeOf(ms[j]);
      assert DegreeOf(ms[i]) <= DegreeOf(ms[i + 1]) <= DegreeOf(ms[j]);
      assert DegreeOf(ms[i + 1]) == DegreeOf(ms[i + 1 - 1]);
    }
  }

  /** Equal texts are equal values, so the check as written finds no more
      than the value check. */
  lemma TextRepeatIsRepeat(ms: seq<Monom>)
    requires AllShaped(ms)
    ensures RepeatedDegreeText(ms) ==> RepeatedDegree(ms)
  {
    forall i | 1 <= i < |ms| && ms[i].degree == ms[i - 1].degree
      ensures DegreeOf(ms[i]) == DegreeOf(ms[i - 1])
    {
    }
  }

  /** Every monom's degree is counted. */
  lemma {:induction false} DegreeCounted(ms: seq<Monom>, i: nat)
    requires AllShaped(ms) && i < |ms|
    ensures Degrees(ms)[DegreeOf(ms[i])] >= 1
  {
    if i < |ms| - 1 {
      DegreeCounted(ms[..|ms| - 1], i);
    }
  }

  /** Two monoms of one degree count it twice. */
  lemma {:induction false} DegreeCountedTwice(ms: seq<Monom>, i: nat, j: nat)
    requires AllShaped(ms) && i < j < |ms| && DegreeOf(ms[i]) == DegreeOf(ms[j])
    ensures Degrees(ms)[DegreeOf(ms[i])] >= 2
  {
    var init := ms[..|ms| - 1];
    if j == |ms| - 1 {
      DegreeCounted(init, i);
    } else {
      DegreeCountedTwice(init, i, j);
    }
  }

  /** A counted degree belongs to some monom. */
  lemma {:induction false} CountedDegree(ms: seq<Monom>, d: nat) returns (i: nat)
    requires AllShaped(ms) && Degrees(ms)[d] >= 1
    ensures i < |ms| && DegreeOf(ms[i]) == d
  {
    var init := ms[..|ms| - 1];
    if DegreeOf(ms[|ms| - 1]) == d {
      i := |ms| - 1;
    } else {
      i := CountedDegree(init, d);
    }
  }

  /** A degree counted twice belongs to two monoms. */
  lemma {:induction false} CountedTwice(ms: seq<Monom>, d: nat) returns (i: nat, j: nat)
    requires AllShaped(ms) && Degrees(ms)[d] >= 2
    ensures i < j < |ms| && DegreeOf(ms[i]) == d && DegreeOf(ms[j]) == d
  {
    var init := ms[..|ms| - 1];
    if DegreeOf(ms[|ms| - 1]) == d && Degrees(init)[d] == 1 {
      i := CountedDegree(init, d);
      j := |ms| - 1;
    } else {
      i, j := CountedTwice(init, d);
    }
  }

  /** Distinct degrees are degrees counted at most once, so sorting keeps
      them distinct and keeps them repeated. */
  lemma DistinctIffCounted(ms: seq<Monom>)
    requires AllShaped(ms)
    ensures DistinctDegrees(ms) <==> forall d :: Degrees(ms)[d] <= 1
  {
    if !DistinctDegrees(ms) {
      var i, j :| 0 <= i < j < |ms| && DegreeOf(ms[i]) == DegreeOf(ms[j]);
      DegreeCountedTwice(ms, i, j);
    }
    if exists d :: Degrees(ms)[d] > 1 {
      var d :| Degrees(ms)[d] > 1;
      var i, j := CountedTwice(ms, d);
    }
  }

  /** Sorting neither makes nor hides a repeated degree value. */
  lemma SortKeepsDistinct(ms: seq<Monom>)
    requires AllShaped(ms)
    ensures DistinctDegrees(SortByDegree(ms)) <==> DistinctDegrees(ms)
  {
    var r := SortByDegree(ms);
    DistinctIffCounted(ms);
    DistinctIffCounted(r);
    if DistinctDegrees(ms) {
      forall d: nat
        ensures Degrees(r)[d] <= 1
      {
        assert Degrees(r)[d] == Degrees(ms)[d];
      }
    }
    if DistinctDegrees(r) {
      forall d: nat
        ensures Degrees(ms)[d] <= 1
      {
        assert Degrees(r)[d] == Degrees(ms)[d];
      }
    }
  }

  // ---------------------------------------------------------------- polynomial literals: coefficients

  /** The coefficient a monom stands for: its numerator, sign flag included,
      over its denominator, with the digits in canonical form. */
  function CoefficientOf(m: Monom): (c: Rational)
    requires Shaped(m)
    ensures WellFormed(c) && c.num.negative == (m.numerator[0] == '-')
    ensures IVal(c.num) == SignedValue(m.numerator) && Val(c.den) == DecimalValue(m.denominator)
  {
    Rational(Integer(FromNat(DecimalValue(Unsigned(m.numerator))), m.numerator[0] == '-'),
             FromNat(DecimalValue(m.denominator)))
  }

  /** The string constructor on `numerator/denominator` builds the same
      fraction: the same sign flag and the same numerator and denominator
      values, only leading zeros kept. */
  lemma CoefficientAgrees(m: Monom)
    requires Shaped(m)
    ensures var t := m.numerator + "/" + m.denominator;
      IsRationalText(t) && RationalNumber.FromString(t).Ok?
      && var x, c := RationalNumber.FromString(t).value, CoefficientOf(m);
      x.num.negative == c.num.negative && IVal(x.num) == IVal(c.num) && Val(x.den) == Val(c.den)
  {
    SplitJoined(m.numerator, m.denominator);
    SplitAtSlash(m.numerator, m.denominator);
  }

  /** A numeral without superfluous leading zeros, the form
      validateNaturalNumber leaves: `0` itself, or digits not starting
      with `0`. */
  predicate PlainNumeral(s: string)
  {
    IsNumeral(s) && (s[0] == '0' ==> s == "0")
  }

  /** A monom whose numerator and denominator numerals are plain. */
  predicate PlainCoefficient(m: Monom)
  {
    PlainNumeral(Unsigned(m.numerator)) && PlainNumeral(m.denominator)
  }

  predicate PlainCoefficients(ms: seq<Monom>)
  {
    forall m :: m in ms ==> PlainCoefficient(m)
  }

  /** The digits of a numeral are the canonical digits of its value exactly
      when the numeral is plain. */
  lemma PlainDigits(s: string)
    requires IsNumeral(s)
    ensures DigitsOf(s) == FromNat(DecimalValue(s)) <==> PlainNumeral(s)
  {
    var d := DigitsOf(s);
    DigitsOfAt(s);
    DigitsOfValue(s);
    assert d[|d| - 1] == CharDigit(s[0]);
    if PlainNumeral(s) {
      CanonicalUnique(d);
    }
  }

  /** The string constructor at line 169 builds exactly the coefficient the
      model places when, and only when, both numerals are plain; otherwise
      it keeps leading zero digits that the model's coefficient does not
      have. */
  lemma PlainCoefficientExact(m: Monom)
    requires Shaped(m)
    ensures RationalNumber.FromString(m.numerator + "/" + m.denominator) == Ok(CoefficientOf(m))
      <==> PlainCoefficient(m)
  {
    SplitJoined(m.numerator, m.denominator);
    SplitAtSlash(m.numerator, m.denominator);
    PlainDigits(Unsigned(m.numerator));
    PlainDigits(m.denominator);
  }

  /** The coefficient vector of monoms of degree below `n`: zeros, then each
      monom's coefficient written at its degree, later monoms over earlier. */
  function Placed(ms: seq<Monom>, n: nat): (cs: seq<Rational>)
    requires AllShaped(ms) && forall i :: 0 <= i < |ms| ==> DegreeOf(ms[i]) < n
    ensures |cs| == n && forall k :: 0 <= k < n ==> WellFormed(cs[k])
  {
    if |ms| == 0 then seq(n, _ => Polynomial.ZeroCoefficient)
    else
      Polynomial.ZeroCoefficientValue();
      Placed(ms[..|ms| - 1], n)[DegreeOf(ms[|ms| - 1]) := CoefficientOf(ms[|ms| - 1])]
  }

  /** The fill loop of validatePolynomial. */
  method Fill(ms: seq<Monom>, n: nat) returns (cs: seq<Rational>)
    requires AllShaped(ms) && forall i :: 0 <= i < |ms| ==> DegreeOf(ms[i]) < n
    ensures cs == Placed(ms, n)
  {
    cs := seq(n, _ => Polynomial.ZeroCoefficient);
    for i := 0 to |ms|
      invariant cs == Placed(ms[..i], n)
    {
      assert ms[..i + 1][..i] == ms[..i];
      cs := cs[DegreeOf(ms[i]) := CoefficientOf(ms[i])];
    }
    assert ms[..|ms|] == ms;
  }

  /** Each monom of distinct degrees sits at its degree, and a degree no monom
      has holds zero. */
  lemma {:induction false} PlacedAt(ms: seq<Monom>, n: nat)
    requires AllShaped(ms) && forall i :: 0 <= i < |ms| ==> DegreeOf(ms[i]) < n
    ensures forall k :: 0 <= k < n && (forall i :: 0 <= i < |ms| ==> DegreeOf(ms[i]) != k)
              ==> Placed(ms, n)[k] == Polynomial.ZeroCoefficient
    ensures DistinctDegrees(ms) ==> forall i :: 0 <= i < |ms| ==> Placed(ms, n)[DegreeOf(ms[i])] == CoefficientOf(ms[i])
  {
    if |ms| > 0 {
      var init := ms[..|ms| - 1];
      PlacedAt(init, n);
      forall k | 0 <= k < n && (forall i :: 0 <= i < |ms| ==> DegreeOf(ms[i]) != k)
        ensures Placed(ms, n)[k] == Polynomial.ZeroCoefficient
      {
        assert DegreeOf(ms[|ms| - 1]) != k;
        assert forall i :: 0 <= i < |init| ==> DegreeOf(init[i]) == DegreeOf(ms[i]);
      }
      if DistinctDegrees(ms) {
        forall i | 0 <= i < |ms|
          ensures Placed(ms, n)[DegreeOf(ms[i])] == CoefficientOf(ms[i])
        {
          if i < |ms| - 1 {
            assert DegreeOf(ms[i]) != DegreeOf(ms[|ms| - 1]);
            assert init[i] == ms[i];
          }
        }
      }
    }
  }

  // ---------------------------------------------------------------- polynomial literals: the zero check

  predicate AllWellFormed(cs: seq<Rational>)
  {
    forall k :: 0 <= k < |cs| ==> WellFormed(cs[k])
  }

  /** The coefficient prints as "0/1", the text the all-zero check looks for. */
  predicate PrintsZero(c: Rational)
    requires WellFormed(c)
  {
    Printed(c) == Ok("0/1")
  }

  /** The all-zero check as written, from index `i` on: coefficients are
      printed in turn, the first whose text is not "0/1" ends the check, and
      one that cannot be printed makes it fail. */
  function ZeroScan(cs: seq<Rational>, i: nat): (o: Outcome)
    requires i <= |cs| && AllWellFormed(cs)
    ensures o == Fail(AllZero) <==> forall k :: i <= k < |cs| ==> PrintsZero(cs[k])
    decreases |cs| - i
  {
    if i == |cs| then Fail(AllZero)
    else
      var t := Printed(cs[i]);
      if t.Err? then Fail(t.error)
      else if t.value != "0/1" then Pass
      else ZeroScan(cs, i + 1)
  }

  /** The check passes only past a coefficient that prints and is not zero,
      and fails otherwise than for all-zero only on one that cannot print. */
  lemma {:induction false} ZeroScanOutcome(cs: seq<Rational>, i: nat)
    requires i <= |cs| && AllWellFormed(cs)
    ensures ZeroScan(cs, i).Pass? ==> exists k :: i <= k < |cs| && Printed(cs[k]).Ok? && !PrintsZero(cs[k])
    ensures ZeroScan(cs, i).Fail? && ZeroScan(cs, i).error != AllZero ==>
      exists k :: i <= k < |cs| && Printed(cs[k]).Err?
    decreases |cs| - i
  {
    if i < |cs| && Printed(cs[i]) == Ok("0/1") {
      ZeroScanOutcome(cs, i + 1);
    }
  }

  /** The vector the all-zero check as written leaves behind. Printing a
      coefficient reduces it in place, so each entry from `i` on, up to and
      including the first that does not print as "0/1", is replaced by its
      reduced form; the entries before `i` and after that one are kept. */
  function ScanReduced(cs: seq<Rational>, i: nat): (r: seq<Rational>)
    requires i <= |cs| && AllWellFormed(cs)
    ensures |r| == |cs| && AllWellFormed(r)
    ensures forall k :: 0 <= k < i ==> r[k] == cs[k]
    ensures forall k :: i <= k < |cs| ==> r[k] == cs[k] || Reduced(cs[k]) == Ok(r[k])
    decreases |cs| - i
  {
    if i == |cs| then cs
    else
      var t := Reduced(cs[i]);
      if t.Err? then cs
      else
        var next := cs[i := t.value];
        if Printed(cs[i]) != Ok("0/1") then next else ScanReduced(next, i + 1)
  }

  /** Two valid vectors of the same values, entry by entry the same
      fraction or the second's fraction reduced. */
  predicate SameOrReduced(a: seq<Rational>, c: seq<Rational>)
  {
    |a| == |c| && Polynomial.CoefficientsValid(a) && Polynomial.CoefficientsValid(c)
    && (forall k :: 0 <= k < |c| ==> a[k] == c[k] || Reduced(c[k]) == Ok(a[k]))
    && Polynomial.Values(a) == Polynomial.Values(c)
  }

  /** Reducing in place keeps every coefficient's value: on valid
      coefficients the vector left behind is valid and denotes the same
      values. */
  lemma ScanReducedValues(cs: seq<Rational>, i: nat)
    requires i <= |cs| && AllWellFormed(cs) && Polynomial.CoefficientsValid(cs)
    ensures SameOrReduced(ScanReduced(cs, i), cs)
  {
    var r := ScanReduced(cs, i);
    forall k | 0 <= k < |cs|
      ensures Val(r[k].den) != 0 && RVal(r[k]) == RVal(cs[k])
    {
      if r[k] != cs[k] {
        assert Reduced(cs[k]) == Ok(r[k]);
      }
    }
  }

  /** The all-zero loop of validatePolynomial, with its early exit; it also
      returns the vector as the printing left it. */
  method CheckAllZero(cs: seq<Rational>) returns (o: Outcome, result: seq<Rational>)
    requires AllWellFormed(cs)
    ensures o == ZeroScan(cs, 0) && result == ScanReduced(cs, 0)
  {
    result := cs;
    var allZeros := true;
    var i := 0;
    while i < |result|
      invariant i <= |cs| && |result| == |cs| && AllWellFormed(result)
      invariant forall k :: i <= k < |cs| ==> result[k] == cs[k]
      invariant ZeroScan(cs, i) == ZeroScan(cs, 0)
      invariant ScanReduced(result, i) == ScanReduced(cs, 0)
    {
      var text := Printed(result[i]);
      if text.Err? {
        return Fail(text.error), result;
      }
      // printing reduces the coefficient where it stands
      result := result[i := Reduced(result[i]).value];
      if text.value != "0/1" {
        allZeros := false;
        break;
      }
      i := i + 1;
    }
    if allZeros {
      return Fail(AllZero), result;
    }
    o := Pass;
  }

  /** A coefficient prints as "0/1" exactly when it reduces to 0/1. */
  lemma PrintedZero(c: Rational)
    requires WellFormed(c)
    ensures Printed(c) == Ok("0/1") <==> Reduced(c) == Ok(Polynomial.ZeroCoefficient)
  {
    var z := Polynomial.ZeroCoefficient;
    assert Render([0]) == "0" && Render([1]) == "1";
    assert IntegerNumber.ToString(z.num) + "/" + Render(z.den) == "0/1";
    JoinRoundTrip(z);
    if Printed(c) == Ok("0/1") {
      JoinRoundTrip(Reduced(c).value);
    }
  }

  /** A fraction with a nonzero denominator reduces to 0/1 exactly when its
      numerator is zero, unless it is a flagged zero over 1, which reduce
      leaves as it is. */
  lemma ReducedZero(c: Rational)
    requires WellFormed(c) && Val(c.den) != 0
    ensures Reduced(c) == Ok(Polynomial.ZeroCoefficient)
            <==> Val(c.num.magnitude) == 0 && !(c.num.negative && Val(c.den) == 1)
  {
    if Val(c.num.magnitude) == 0 {
      ZeroReduced(c);
    } else {
      NonzeroReduced(c);
    }
  }

  lemma ZeroReduced(c: Rational)
    requires WellFormed(c) && Val(c.den) != 0 && Val(c.num.magnitude) == 0
    ensures Reduced(c) == Ok(Polynomial.ZeroCoefficient) <==> !(c.num.negative && Val(c.den) == 1)
  {
    var d := Val(c.den);
    GcdZeroLeft(d);
    CanonicalZero(c.num.magnitude);
    assert FromNat(1) == [1];
    if d == 1 {
      CanonicalUnique(c.den);
    } else {
      assert TruncDiv(IVal(c.num), d) == 0;
      assert d / d == 1;
    }
  }

  lemma NonzeroReduced(c: Rational)
    requires WellFormed(c) && Val(c.den) != 0 && Val(c.num.magnitude) != 0
    ensures Reduced(c) != Ok(Polynomial.ZeroCoefficient)
  {
    var n, d := Val(c.num.magnitude), Val(c.den);
    var g := Gcd(n, d);
    GcdDivides(n, d);
    if g != 1 {
      ReduceFacts(c);
      DividesWitness(g, n);
      assert n / g != 0;
      assert IVal(FromInt(TruncDiv(IVal(c.num), g))) != 0;
    } else {
      assert Val(Polynomial.ZeroCoefficient.num.magnitude) == 0;
    }
  }

  /** A coefficient with a nonzero denominator prints as "0/1" exactly when
      it is zero and not a flagged zero over 1. */
  lemma PrintedZeroIff(c: Rational)
    requires WellFormed(c) && Val(c.den) != 0
    ensures Printed(c) == Ok("0/1") <==> RVal(c) == 0.0 && !(c.num.negative && Val(c.den) == 1)
  {
    PrintedZero(c);
    ReducedZero(c);
    Polynomial.ZeroCoefficientIff(c);
  }

  // ---------------------------------------------------------------- polynomial literals: the pipeline

  /** The largest degree accepted: the vector gets degree + 1 entries, and
      the degree must not exceed SIZE_MAX - 1 of a 64-bit size_t. */
  const MaxDegree: nat := 0xFFFF_FFFF_FFFF_FFFE

  /** The vector read from its end. */
  function Reversed(cs: seq<Rational>): (r: seq<Rational>)
    ensures |r| == |cs| && forall k :: 0 <= k < |cs| ==> r[k] == cs[|cs| - 1 - k]
  {
    seq(|cs|, k requires 0 <= k < |cs| => cs[|cs| - 1 - k])
  }

  /** Reversing twice gives the vector back. */
  lemma ReversedTwice(cs: seq<Rational>)
    ensures Reversed(Reversed(cs)) == cs
  {
  }

  /** The coefficient vector, index = degree, of sorted monoms: the top
      degree bounds its size. */
  function Coefficients(ms: seq<Monom>): (r: Result<seq<Rational>>)
    requires AllShaped(ms) && SortedByDegree(ms) && |ms| > 0
    ensures r.Err? <==> DegreeOf(ms[|ms| - 1]) > MaxDegree
    ensures r.Err? ==> r.error == DegreeTooLarge
    ensures r.Ok? ==> AllWellFormed(r.value) && |r.value| == DegreeOf(ms[|ms| - 1]) + 1
  {
    var d := DegreeOf(ms[|ms| - 1]);
    if d > MaxDegree then Err(DegreeTooLarge)
    else
      assert forall i :: 0 <= i < |ms| ==> DegreeOf(ms[i]) <= d;
      Ok(Placed(ms, d + 1))
  }

  /** Monoms that agree in degree value and coefficient, position by
      position, fill the same vector. */
  lemma {:induction false} PlacedAgree(ms: seq<Monom>, ns: seq<Monom>, n: nat)
    requires AllShaped(ms) && AllShaped(ns) && |ms| == |ns|
    requires forall i :: 0 <= i < |ms| ==> DegreeOf(ms[i]) < n
    requires forall i :: 0 <= i < |ms| ==> DegreeOf(ns[i]) == DegreeOf(ms[i]) && CoefficientOf(ns[i]) == CoefficientOf(ms[i])
    ensures Placed(ns, n) == Placed(ms, n)
  {
    if |ms| > 0 {
      PlacedAgree(ms[..|ms| - 1], ns[..|ns| - 1], n);
    }
  }

  /** Putting the top degree text into normal form changes no degree value
      and no coefficient. */
  lemma TopRewritten(ms: seq<Monom>, degree: string)
    requires AllShaped(ms) && SortedByDegree(ms) && |ms| > 0
    requires ValidatedNatural(ms[|ms| - 1].degree) == Ok(degree)
    ensures var p := ms[|ms| - 1 := ms[|ms| - 1].(degree := degree)];
      AllShaped(p) && DegreeOf(p[|p| - 1]) == DegreeOf(ms[|ms| - 1])
      && (forall i :: 0 <= i < |ms| ==> DegreeOf(p[i]) <= DegreeOf(p[|p| - 1]))
      && forall i :: 0 <= i < |ms| ==> DegreeOf(p[i]) == DegreeOf(ms[i]) && CoefficientOf(p[i]) == CoefficientOf(ms[i])
  {
  }

  /** The part of validatePolynomial after the duplicate check: the top
      degree is validated as a natural in place, bounded, and the vector
      filled. Parsed degrees are numerals, so the validation cannot fail,
      and its rewriting changes no degree value. */
  method FillCoefficients(ms: seq<Monom>) returns (r: Result<seq<Rational>>)
    requires AllShaped(ms) && SortedByDegree(ms) && |ms| > 0
    ensures r == Coefficients(ms)
  {
    var last := ms[|ms| - 1];
    var checked, degree := ValidateNaturalNumber(last.degree);
    var polynom := ms[|ms| - 1 := last.(degree := degree)];
    TopDegreeKept(ms, degree);
    var maxDegree := DegreeOf(polynom[|polynom| - 1]);
    if maxDegree > MaxDegree {
      return Err(DegreeTooLarge);
    }
    RewrittenPlaced(ms, degree);
    var cs := Fill(polynom, maxDegree + 1);
    r := Ok(cs);
  }

  /** The rewritten top monom keeps its degree value. */
  lemma TopDegreeKept(ms: seq<Monom>, degree: string)
    requires AllShaped(ms) && SortedByDegree(ms) && |ms| > 0
    requires ValidatedNatural(ms[|ms| - 1].degree) == Ok(degree)
    ensures var p := ms[|ms| - 1 := ms[|ms| - 1].(degree := degree)];
      |p| == |ms| && Shaped(p[|p| - 1]) && DegreeOf(p[|p| - 1]) == DegreeOf(ms[|ms| - 1])
  {
    TopRewritten(ms, degree);
  }

  /** Within the bound, the rewritten monoms fill the vector the parsed ones do. */
  lemma RewrittenPlaced(ms: seq<Monom>, degree: string)
    requires AllShaped(ms) && SortedByDegree(ms) && |ms| > 0
    requires ValidatedNatural(ms[|ms| - 1].degree) == Ok(degree)
    requires DegreeOf(ms[|ms| - 1]) <= MaxDegree
    ensures var p := ms[|ms| - 1 := ms[|ms| - 1].(degree := degree)];
      AllShaped(p) && (forall i :: 0 <= i < |p| ==> DegreeOf(p[i]) < DegreeOf(ms[|ms| - 1]) + 1)
      && Coefficients(ms) == Ok(Placed(p, DegreeOf(ms[|ms| - 1]) + 1))
  {
    TopRewritten(ms, degree);
    var n := CoefficientsPlaced(ms);
    PlacedAgree(ms, ms[|ms| - 1 := ms[|ms| - 1].(degree := degree)], n);
  }

  /** validatePolynomial's result as written. */
  function PolynomialAsWritten(s: string): Result<seq<Rational>>
  {
    if |s| == 0 then Err(EmptyInput)
    else
      var parsed := LiteralMonoms(s);
      if parsed.Err? then Err(parsed.error) else MonomsAsWritten(parsed.value)
  }

  /** validatePolynomial as written, from the parsed monoms on. */
  function MonomsAsWritten(parsed: seq<Monom>): Result<seq<Rational>>
    requires AllShaped(parsed)
  {
    var ms := SortByDegree(parsed);
    if RepeatedDegreeText(ms) then Err(DuplicateDegrees)
    else if |ms| == 0 then Err(NoMonoms)
    else
      var cs := Coefficients(ms);
      if cs.Err? then Err(cs.error)
      else
        var zero := ZeroScan(cs.value, 0);
        if zero.Fail? then Err(zero.error) else Ok(Reversed(ScanReduced(cs.value, 0)))
  }

  /** validatePolynomial as written: the coefficients from the highest degree
      down. */
  method ValidatePolynomialAsWritten(number: string) returns (r: Result<seq<Rational>>)
    ensures r == PolynomialAsWritten(number)
  {
    if |number| == 0 {
      return Err(EmptyInput);
    }
    var parsed := ReadMonoms(number);
    if parsed.Err? {
      return Err(parsed.error);
    }
    var polynom := SortByDegree(parsed.value);
    var duplicates := FindRepeatedDegreeText(polynom);
    if duplicates.Fail? {
      return Err(duplicates.error);
    }
    if |polynom| == 0 {
      return Err(NoMonoms);
    }
    var result := FillCoefficients(polynom);
    if result.Err? {
      return result;
    }
    var zero, printed := CheckAllZero(result.value);
    if zero.Fail? {
      return Err(zero.error);
    }
    r := Ok(Reversed(printed));
  }

  /** Some monom has a zero denominator. */
  predicate HasZeroDenominator(ms: seq<Monom>)
    requires AllShaped(ms)
  {
    exists m :: m in ms && DecimalValue(m.denominator) == 0
  }

  /** validatePolynomial with the three defects mended: degrees are compared
      by value, a zero denominator is refused as validateRationalNumber
      refuses it, and "all coefficients zero" means all numerators zero. */
  function PolynomialLiteral(s: string): Result<seq<Rational>>
  {
    if |s| == 0 then Err(EmptyInput)
    else
      var parsed := LiteralMonoms(s);
      if parsed.Err? then Err(parsed.error) else MonomsPolynomial(parsed.value)
  }

  /** The corrected validator from the parsed monoms on. */
  function MonomsPolynomial(parsed: seq<Monom>): Result<seq<Rational>>
    requires AllShaped(parsed)
  {
    var ms := SortByDegree(parsed);
    if RepeatedDegree(ms) then Err(DuplicateDegrees)
    else if |ms| == 0 then Err(NoMonoms)
    else if HasZeroDenominator(ms) then Err(ZeroDenominator)
    else NonzeroCoefficients(ms)
  }

  /** Every coefficient has a zero numerator. */
  predicate AllZeroCoefficients(cs: seq<Rational>)
  {
    forall k :: 0 <= k < |cs| ==> Polynomial.IsZeroCoefficient(cs[k])
  }

  /** The filled vector, refused when every numerator is zero. */
  function NonzeroCoefficients(ms: seq<Monom>): Result<seq<Rational>>
    requires AllShaped(ms) && SortedByDegree(ms) && |ms| > 0
  {
    var cs := Coefficients(ms);
    if cs.Err? then Err(cs.error)
    else if AllZeroCoefficients(cs.value) then Err(AllZero)
    else Ok(Reversed(cs.value))
  }

  /** The zero-denominator loop of the corrected validator. */
  method FindZeroDenominator(ms: seq<Monom>) returns (o: Outcome)
    requires AllShaped(ms)
    ensures o == if HasZeroDenominator(ms) then Fail(ZeroDenominator) else Pass
  {
    for i := 0 to |ms|
      invariant forall k :: 0 <= k < i ==> DecimalValue(ms[k].denominator) != 0
    {
      if DecimalValue(ms[i].denominator) == 0 {
        return Fail(ZeroDenominator);
      }
    }
    o := Pass;
  }

  /** The all-zero loop of the corrected validator: numerators, not texts. */
  method CheckNonzero(cs: seq<Rational>) returns (o: Outcome)
    ensures o == if AllZeroCoefficients(cs) then Fail(AllZero) else Pass
  {
    for i := 0 to |cs|
      invariant forall k :: 0 <= k < i ==> Polynomial.IsZeroCoefficient(cs[k])
    {
      if !Polynomial.IsZeroCoefficient(cs[i]) {
        return Pass;
      }
    }
    o := Fail(AllZero);
  }

  /** validatePolynomial, corrected. */
  method ValidatePolynomial(number: string) returns (r: Result<seq<Rational>>)
    ensures r == PolynomialLiteral(number)
  {
    if |number| == 0 {
      return Err(EmptyInput);
    }
    var parsed := ReadMonoms(number);
    if parsed.Err? {
      return Err(parsed.error);
    }
    var polynom := SortByDegree(parsed.value);
    var duplicates := FindRepeatedDegree(polynom);
    if duplicates.Fail? {
      return Err(duplicates.error);
    }
    if |polynom| == 0 {
      return Err(NoMonoms);
    }
    var zeroDenominator := FindZeroDenominator(polynom);
    if zeroDenominator.Fail? {
      return Err(zeroDenominator.error);
    }
    var result := FillCoefficients(polynom);
    if result.Err? {
      return result;
    }
    var zero := CheckNonzero(result.value);
    if zero.Fail? {
      return Err(zero.error);
    }
    r := Ok(Reversed(result.value));
  }

  // ---------------------------------------------------------------- polynomial literals: what is accepted

  /** Every entry of the filled vector is zero or some monom's coefficient,
      so without zero denominators the vector is a valid coefficient vector. */
  lemma {:induction false} PlacedValid(ms: seq<Monom>, n: nat)
    requires AllShaped(ms) && forall i :: 0 <= i < |ms| ==> DegreeOf(ms[i]) < n
    requires !HasZeroDenominator(ms)
    ensures Polynomial.CoefficientsValid(Placed(ms, n))
  {
    Polynomial.ZeroCoefficientValue();
    if |ms| > 0 {
      var init := ms[..|ms| - 1];
      assert forall i :: 0 <= i < |init| ==> init[i] == ms[i];
      PlacedValid(init, n);
      assert ms[|ms| - 1] in ms;
    }
  }

  /** A monom's coefficient is zero in the source's sense exactly when its
      numerator's value is zero. */
  lemma CoefficientZero(m: Monom)
    requires Shaped(m)
    ensures Polynomial.IsZeroCoefficient(CoefficientOf(m)) <==> DecimalValue(Unsigned(m.numerator)) == 0
  {
  }

  /** The corrected literal's result is the one its parsed monoms give. */
  lemma LiteralFromMonoms(s: string)
    requires PolynomialLiteral(s).Ok?
    ensures LiteralMonoms(s).Ok? && PolynomialLiteral(s) == MonomsPolynomial(LiteralMonoms(s).value)
  {
  }

  /** What an accepted list of monoms gives: the vector, index = degree,
      filled from the sorted monoms, which are a permutation of the parsed
      ones with distinct degrees and nonzero denominators. */
  lemma MonomsVector(ms0: seq<Monom>) returns (ms: seq<Monom>, n: nat)
    requires AllShaped(ms0) && MonomsPolynomial(ms0).Ok?
    ensures AllShaped(ms) && multiset(ms) == multiset(ms0) && |ms| > 0
    ensures DistinctDegrees(ms) && !HasZeroDenominator(ms)
    ensures forall i :: 0 <= i < |ms| ==> DegreeOf(ms[i]) < n
    ensures n == DegreeOf(ms[|ms| - 1]) + 1
    ensures Reversed(MonomsPolynomial(ms0).value) == Placed(ms, n)
    ensures exists k :: 0 <= k < n && !Polynomial.IsZeroCoefficient(Placed(ms, n)[k])
  {
    ms := SortByDegree(ms0);
    MonomsAccepted(ms0);
    n := SortedVector(ms);
  }

  /** Accepted monoms, once sorted, have distinct degrees and nonzero
      denominators, and the rest of the validator accepts them. */
  lemma MonomsAccepted(ms0: seq<Monom>)
    requires AllShaped(ms0) && MonomsPolynomial(ms0).Ok?
    ensures var ms := SortByDegree(ms0);
      |ms| > 0 && DistinctDegrees(ms) && !HasZeroDenominator(ms)
      && MonomsPolynomial(ms0) == NonzeroCoefficients(ms)
  {
    SortedRepeats(SortByDegree(ms0));
  }

  /** The vector NonzeroCoefficients returns is the reversed fill. */
  lemma SortedVector(ms: seq<Monom>) returns (n: nat)
    requires AllShaped(ms) && SortedByDegree(ms) && |ms| > 0 && NonzeroCoefficients(ms).Ok?
    ensures forall i :: 0 <= i < |ms| ==> DegreeOf(ms[i]) < n
    ensures n == DegreeOf(ms[|ms| - 1]) + 1
    ensures Reversed(NonzeroCoefficients(ms).value) == Placed(ms, n)
    ensures exists k :: 0 <= k < n && !Polynomial.IsZeroCoefficient(Placed(ms, n)[k])
  {
    n := DegreeOf(ms[|ms| - 1]) + 1;
    var cs := Coefficients(ms).value;
    assert cs == Placed(ms, n);
    ReversedTwice(cs);
  }

  /** An accepted literal's vector, index = degree, is a valid polynomial
      vector whose top index is some monom's degree and which has a nonzero
      coefficient. */
  lemma MonomsValid(ms0: seq<Monom>)
    requires AllShaped(ms0) && MonomsPolynomial(ms0).Ok?
    ensures var c := Reversed(MonomsPolynomial(ms0).value);
      Polynomial.Valid(Polynomial.Poly(c))
      && (exists m :: m in ms0 && DegreeOf(m) == |c| - 1)
      && (exists k :: 0 <= k < |c| && RVal(c[k]) != 0.0)
  {
    var ms, n := MonomsVector(ms0);
    PlacedValid(ms, n);
    assert ms[|ms| - 1] in multiset(ms0);
    var cs := Placed(ms, n);
    var k :| 0 <= k < n && !Polynomial.IsZeroCoefficient(cs[k]);
    Polynomial.ZeroCoefficientIff(cs[k]);
  }

  /** In an accepted literal's vector, index = degree, each monom's
      coefficient sits at its degree. */
  lemma MonomsPlaced(ms0: seq<Monom>)
    requires AllShaped(ms0) && MonomsPolynomial(ms0).Ok?
    ensures var c := Reversed(MonomsPolynomial(ms0).value);
      forall m :: m in ms0 ==> DegreeOf(m) < |c| && c[DegreeOf(m)] == CoefficientOf(m)
  {
    var ms, n := MonomsVector(ms0);
    PlacedMeaning(ms0, ms, n);
  }

  /** In an accepted literal's vector, index = degree, a degree no monom has
      holds 0/1. */
  lemma MonomsUnplaced(ms0: seq<Monom>)
    requires AllShaped(ms0) && MonomsPolynomial(ms0).Ok?
    ensures var c := Reversed(MonomsPolynomial(ms0).value);
      forall k :: 0 <= k < |c| && (forall m :: m in ms0 ==> DegreeOf(m) != k) ==> c[k] == Polynomial.ZeroCoefficient
  {
    var ms, n := MonomsVector(ms0);
    PlacedMeaning(ms0, ms, n);
  }

  /** The filled vector of a permutation of `ms0` with distinct degrees and
      nonzero denominators, stated in terms of `ms0`. */
  lemma PlacedMeaning(ms0: seq<Monom>, ms: seq<Monom>, n: nat)
    requires AllShaped(ms0) && AllShaped(ms) && multiset(ms) == multiset(ms0)
    requires forall i :: 0 <= i < |ms| ==> DegreeOf(ms[i]) < n
    requires DistinctDegrees(ms)
    ensures forall m :: m in ms0 ==> DegreeOf(m) < n && Placed(ms, n)[DegreeOf(m)] == CoefficientOf(m)
    ensures forall k :: 0 <= k < n && (forall m :: m in ms0 ==> DegreeOf(m) != k) ==> Placed(ms, n)[k] == Polynomial.ZeroCoefficient
  {
    PlacedAt(ms, n);
    forall m | m in ms0
      ensures DegreeOf(m) < n && Placed(ms, n)[DegreeOf(m)] == CoefficientOf(m)
    {
      assert m in multiset(ms);
      var i :| 0 <= i < |ms| && ms[i] == m;
    }
    forall k | 0 <= k < n && (forall m :: m in ms0 ==> DegreeOf(m) != k)
      ensures Placed(ms, n)[k] == Polynomial.ZeroCoefficient
    {
      forall i | 0 <= i < |ms|
        ensures DegreeOf(ms[i]) != k
      {
        assert ms[i] in multiset(ms0);
      }
    }
  }

  /** Sorting keeps the same monoms. */
  lemma SortedSame(ms0: seq<Monom>)
    requires AllShaped(ms0)
    ensures |SortByDegree(ms0)| == |ms0|
    ensures forall m :: m in SortByDegree(ms0) <==> m in ms0
  {
    var ms := SortByDegree(ms0);
    assert |ms| == |multiset(ms)| == |multiset(ms0)| == |ms0|;
    forall m
      ensures m in ms <==> m in ms0
    {
      assert m in ms <==> m in multiset(ms);
      assert m in ms0 <==> m in multiset(ms0);
    }
  }

  /** After sorting the top degree is the largest. */
  lemma SortedTop(ms0: seq<Monom>)
    requires AllShaped(ms0) && |ms0| > 0
    ensures var ms := SortByDegree(ms0);
      |ms| > 0 && (DegreeOf(ms[|ms| - 1]) <= MaxDegree <==> forall m :: m in ms0 ==> DegreeOf(m) <= MaxDegree)
  {
    var ms := SortByDegree(ms0);
    SortedSame(ms0);
    forall m | m in ms0
      ensures DegreeOf(m) <= DegreeOf(ms[|ms| - 1])
    {
      var i :| 0 <= i < |ms| && ms[i] == m;
    }
    assert ms[|ms| - 1] in ms0;
  }

  /** Some monom has a nonzero numerator: the vector filled from sorted
      monoms of distinct degrees then has a nonzero entry. */
  lemma NonzeroPlaced(ms: seq<Monom>, n: nat, m: Monom)
    requires AllShaped(ms) && DistinctDegrees(ms) && forall i :: 0 <= i < |ms| ==> DegreeOf(ms[i]) < n
    requires m in ms && DecimalValue(Unsigned(m.numerator)) != 0
    ensures exists k :: 0 <= k < n && !Polynomial.IsZeroCoefficient(Placed(ms, n)[k])
  {
    PlacedAt(ms, n);
    var i :| 0 <= i < |ms| && ms[i] == m;
    CoefficientZero(m);
    assert !Polynomial.IsZeroCoefficient(Placed(ms, n)[DegreeOf(ms[i])]);
  }

  /** A nonzero entry of the filled vector comes from a monom with a nonzero
      numerator. */
  lemma PlacedNonzero(ms: seq<Monom>, n: nat, k: nat)
    requires AllShaped(ms) && DistinctDegrees(ms) && forall i :: 0 <= i < |ms| ==> DegreeOf(ms[i]) < n
    requires k < n && !Polynomial.IsZeroCoefficient(Placed(ms, n)[k])
    ensures exists m :: m in ms && DecimalValue(Unsigned(m.numerator)) != 0
  {
    PlacedAt(ms, n);
    Polynomial.ZeroCoefficientValue();
    var i :| 0 <= i < |ms| && DegreeOf(ms[i]) == k;
    CoefficientZero(ms[i]);
    assert ms[i] in ms;
  }

  /** Sorted monoms of bounded degree fill the vector of their top degree
      plus one. */
  lemma CoefficientsPlaced(ms: seq<Monom>) returns (n: nat)
    requires AllShaped(ms) && SortedByDegree(ms) && |ms| > 0
    requires DegreeOf(ms[|ms| - 1]) <= MaxDegree
    ensures n == DegreeOf(ms[|ms| - 1]) + 1
    ensures forall i :: 0 <= i < |ms| ==> DegreeOf(ms[i]) < n
    ensures Coefficients(ms) == Ok(Placed(ms, n))
  {
    n := DegreeOf(ms[|ms| - 1]) + 1;
  }

  /** Sorted monoms of distinct, bounded degrees pass the corrected all-zero
      check exactly when some numerator is nonzero. */
  lemma NonzeroIff(ms: seq<Monom>)
    requires AllShaped(ms) && SortedByDegree(ms) && |ms| > 0 && DistinctDegrees(ms)
    requires DegreeOf(ms[|ms| - 1]) <= MaxDegree
    ensures NonzeroCoefficients(ms).Ok? <==> exists m :: m in ms && DecimalValue(Unsigned(m.numerator)) != 0
  {
    var n := CoefficientsPlaced(ms);
    if exists m :: m in ms && DecimalValue(Unsigned(m.numerator)) != 0 {
      var m :| m in ms && DecimalValue(Unsigned(m.numerator)) != 0;
      NonzeroPlaced(ms, n, m);
    }
    if NonzeroCoefficients(ms).Ok? {
      var k :| 0 <= k < n && !Polynomial.IsZeroCoefficient(Placed(ms, n)[k]);
      PlacedNonzero(ms, n, k);
    }
  }

  /** The monoms the corrected validator accepts: at least one, no two of one
      degree value, no zero denominator, every degree within bounds, and some
      numerator nonzero. */
  lemma MonomsAcceptedIff(ms0: seq<Monom>)
    requires AllShaped(ms0)
    ensures MonomsPolynomial(ms0).Ok? <==>
      |ms0| > 0 && DistinctDegrees(ms0) && !HasZeroDenominator(ms0)
      && (forall m :: m in ms0 ==> DegreeOf(m) <= MaxDegree)
      && (exists m :: m in ms0 && DecimalValue(Unsigned(m.numerator)) != 0)
  {
    var ms := SortByDegree(ms0);
    SortedSame(ms0);
    SortedRepeats(ms);
    SortKeepsDistinct(ms0);
    assert HasZeroDenominator(ms) <==> HasZeroDenominator(ms0);
    if |ms| > 0 {
      SortedTop(ms0);
      if DistinctDegrees(ms0) && DegreeOf(ms[|ms| - 1]) <= MaxDegree {
        NonzeroIff(ms);
      }
    }
  }

  /** The literals the corrected validator accepts, in terms of their monoms. */
  lemma LiteralAcceptedIff(s: string)
    ensures PolynomialLiteral(s).Ok? <==>
      |s| > 0 && LiteralMonoms(s).Ok? &&
      var ms := LiteralMonoms(s).value;
      |ms| > 0 && DistinctDegrees(ms) && !HasZeroDenominator(ms)
      && (forall m :: m in ms ==> DegreeOf(m) <= MaxDegree)
      && (exists m :: m in ms && DecimalValue(Unsigned(m.numerator)) != 0)
  {
    if |s| > 0 && LiteralMonoms(s).Ok? {
      MonomsAcceptedIff(LiteralMonoms(s).value);
    }
  }

  /** On a vector of valid coefficients with a nonzero one, the all-zero
      check as written passes. */
  lemma ZeroScanPasses(cs: seq<Rational>, k: nat)
    requires Polynomial.CoefficientsValid(cs) && AllWellFormed(cs)
    requires k < |cs| && !Polynomial.IsZeroCoefficient(cs[k])
    ensures ZeroScan(cs, 0) == Pass
  {
    Polynomial.ZeroCoefficientIff(cs[k]);
    PrintedZeroIff(cs[k]);
    assert !PrintsZero(cs[k]);
    forall j | 0 <= j < |cs|
      ensures Printed(cs[j]).Ok?
    {
    }
    ZeroScanOutcome(cs, 0);
  }

  /** On sorted monoms the corrected validator accepts, the all-zero check
      as written passes. */
  lemma SortedScanPasses(ms: seq<Monom>)
    requires AllShaped(ms) && SortedByDegree(ms) && |ms| > 0
    requires !HasZeroDenominator(ms) && NonzeroCoefficients(ms).Ok?
    ensures Coefficients(ms).Ok? && ZeroScan(Coefficients(ms).value, 0) == Pass
  {
    var n := DegreeOf(ms[|ms| - 1]) + 1;
    var cs := Coefficients(ms).value;
    assert cs == Placed(ms, n);
    PlacedValid(ms, n);
    var k :| 0 <= k < |cs| && !Polynomial.IsZeroCoefficient(cs[k]);
    ZeroScanPasses(cs, k);
  }

  /** On sorted monoms the corrected validator accepts, the validator as
      written returns the reversed vector as the all-zero check left it,
      which agrees in value with the reversed vector the corrected one
      returns. */
  lemma SortedAgrees(ms: seq<Monom>)
    requires AllShaped(ms) && SortedByDegree(ms) && |ms| > 0
    requires !HasZeroDenominator(ms) && NonzeroCoefficients(ms).Ok?
    ensures Coefficients(ms).Ok? && ZeroScan(Coefficients(ms).value, 0) == Pass
    ensures var cs := Coefficients(ms).value;
      SameOrReduced(Reversed(ScanReduced(cs, 0)), Reversed(cs))
  {
    SortedScanPasses(ms);
    var cs := Coefficients(ms).value;
    PlacedValid(ms, DegreeOf(ms[|ms| - 1]) + 1);
    ScanReducedValues(cs, 0);
    ReversedValues(ScanReduced(cs, 0), cs);
  }

  /** Reversal keeps two vectors agreeing entry by entry. */
  lemma ReversedValues(a: seq<Rational>, c: seq<Rational>)
    requires SameOrReduced(a, c)
    ensures SameOrReduced(Reversed(a), Reversed(c))
  {
    var ra, rc := Reversed(a), Reversed(c);
    forall k | 0 <= k < |a|
      ensures RVal(ra[k]) == RVal(rc[k])
    {
      assert Polynomial.Values(a)[|a| - 1 - k] == Polynomial.Values(c)[|a| - 1 - k];
    }
  }

  /** Whatever the corrected validator accepts from monoms with plain
      coefficient numerals, the validator as written accepts too, with the
      same coefficient values: each entry is the same fraction or, where the
      all-zero check printed it, that fraction reduced. */
  lemma MonomsCorrectedAgrees(ms0: seq<Monom>)
    requires AllShaped(ms0) && PlainCoefficients(ms0) && MonomsPolynomial(ms0).Ok?
    ensures MonomsAsWritten(ms0).Ok?
    ensures SameOrReduced(MonomsAsWritten(ms0).value, MonomsPolynomial(ms0).value)
  {
    var ms := SortByDegree(ms0);
    MonomsAccepted(ms0);
    SortedRepeats(ms);
    TextRepeatIsRepeat(ms);
    SortedAgrees(ms);
  }

  /** The corrected validator only refuses more: where it accepts a literal
      whose coefficient numerals are plain, the validator as written accepts
      it too, with the same coefficient
      values, some of them in lowest terms where the corrected vector is
      not. */
  lemma CorrectedAgrees(s: string)
    requires PolynomialLiteral(s).Ok? && PlainCoefficients(LiteralMonoms(s).value)
    ensures PolynomialAsWritten(s).Ok?
    ensures SameOrReduced(PolynomialAsWritten(s).value, PolynomialLiteral(s).value)
  {
    MonomsCorrectedAgrees(LiteralMonoms(s).value);
  }

  // ---------------------------------------------------------------- defects of validatePolynomial as written

  /** A single monom spelled out reads back as itself. */
  lemma SpelledOne(m: Monom)
    requires Shaped(m)
    ensures var s := Lexer.Joined(Spelled([m]));
      |s| > 0 && LiteralMonoms(s) == Ok([m])
  {
    TextRoundTrip([m]);
    SpelledText(m);
  }

  /** A single monom of degree zero fills a one-entry vector. */
  lemma ConstantOne(m: Monom)
    requires Shaped(m) && DegreeOf(m) == 0
    ensures SortByDegree([m]) == [m] && Coefficients([m]) == Ok([CoefficientOf(m)])
  {
    assert [m][..0] == [];
    PlacedOne(m);
    assert [m][|[m]| - 1] == m;
  }

  /** A single monom of degree zero fills the one entry of a one-entry vector. */
  lemma PlacedOne(m: Monom)
    requires Shaped(m) && DegreeOf(m) == 0
    ensures Placed([m], 1) == [CoefficientOf(m)]
  {
    assert [m][..0] == [];
    var z := Placed([], 1);
    assert Placed([m], 1) == z[0 := CoefficientOf(m)];
  }

  /** The text a single spelled monom joins to. */
  lemma SpelledText(m: Monom)
    requires Shaped(m)
    ensures Lexer.Joined(Spelled([m])) ==
      (if m.numerator[0] == '-' then m.numerator else "+" + m.numerator)
      + "/" + m.denominator + "*x^" + m.degree
  {
    assert [m][1..] == [];
    assert Spelled([m][1..]) == [];
    assert Spelled([m]) == Spell(m) + [];
    var ts := Spell(m);
    assert Spelled([m]) == ts;
    Lexer.JoinedEight(ts);
    var sign := if m.numerator[0] == '-' then "-" else "+";
    var digits := if m.numerator[0] == '-' then m.numerator[1..] else m.numerator;
    var front := sign + digits + "/" + m.denominator;
    assert Lexer.Joined(ts) == front + "*" + "x" + "^" + m.degree;
    assert front + "*" + "x" + "^" == front + "*x^";
    if m.numerator[0] == '-' {
      assert m.numerator == "-" + m.numerator[1..];
    }
    assert front == (if m.numerator[0] == '-' then m.numerator else "+" + m.numerator)
      + "/" + m.denominator;
  }

  /** A constant monom with a minus sign, a zero numerator and denominator
      one, numerals plain, such as "-0/1*x^0". */
  predicate NegativeZeroConstant(m: Monom)
  {
    Shaped(m) && PlainCoefficient(m) && DegreeOf(m) == 0 && m.numerator[0] == '-'
    && DecimalValue(Unsigned(m.numerator)) == 0 && DecimalValue(m.denominator) == 1
  }

  /** The monom of "-0/1*x^0". */
  const NegativeZeroMonom := Monom("0", "-0", "1")

  /** "-0/1*x^0" spells such a monom. */
  lemma NegativeZeroExample()
    ensures NegativeZeroConstant(NegativeZeroMonom)
    ensures Lexer.Joined(Spelled([NegativeZeroMonom])) == "-0/1*x^0"
  {
    SpelledText(NegativeZeroMonom);
  }

  /** A single entry that prints as something other than "0/1" passes the
      all-zero check as written, which leaves it reduced. */
  lemma ScanOne(c: Rational)
    requires WellFormed(c) && Printed(c).Ok? && !PrintsZero(c)
    ensures ZeroScan([c], 0) == Pass
    ensures Reduced(c).Ok? && ScanReduced([c], 0) == [Reduced(c).value]
  {
    assert [c][0 := Reduced(c).value] == [Reduced(c).value];
  }

  /** Monoms that sort as they stand, repeat no degree text and fill a
      one-entry vector that does not print as zero are accepted as written,
      giving that one coefficient as its printing reduced it. */
  lemma AcceptedOne(s: string, ms: seq<Monom>, c: Rational)
    requires |s| > 0 && LiteralMonoms(s) == Ok(ms) && |ms| > 0
    requires SortByDegree(ms) == ms && !RepeatedDegreeText(ms)
    requires Coefficients(ms) == Ok([c]) && WellFormed(c) && Printed(c).Ok? && !PrintsZero(c)
    ensures Reduced(c).Ok? && PolynomialAsWritten(s) == Ok([Reduced(c).value])
  {
    ScanOne(c);
    ReversedOne(Reduced(c).value);
  }

  /** A one-entry vector is its own reverse. */
  lemma ReversedOne(c: Rational)
    ensures Reversed([c]) == [c]
  {
    var r := Reversed([c]);
    assert |r| == 1 && r[0] == c;
  }

  /** The coefficient of such a monom is zero in value but does not print
      as "0/1". */
  lemma NegativeZeroPrints(m: Monom)
    requires NegativeZeroConstant(m)
    ensures !PrintsZero(CoefficientOf(m)) && RVal(CoefficientOf(m)) == 0.0
  {
    PrintedZeroIff(CoefficientOf(m));
  }

  /** As written, such a literal is accepted: its coefficient prints "-0/1",
      which is not the text "0/1", though its value is zero. Already in
      lowest terms, it comes back as it was read. */
  lemma NegativeZeroAsWritten(m: Monom)
    requires NegativeZeroConstant(m)
    ensures PolynomialAsWritten(Lexer.Joined(Spelled([m]))) == Ok([CoefficientOf(m)])
    ensures RVal(CoefficientOf(m)) == 0.0
  {
    SpelledOne(m);
    ConstantOne(m);
    var c := CoefficientOf(m);
    NegativeZeroPrints(m);
    assert Reduced(c) == Ok(c);
    AcceptedOne(Lexer.Joined(Spelled([m])), [m], c);
  }

  /** The corrected validator refuses such a monom: every numerator is
      zero. */
  lemma NegativeZeroRefused(m: Monom)
    requires NegativeZeroConstant(m)
    ensures MonomsPolynomial([m]) == Err(AllZero)
  {
    ConstantOne(m);
    SingleChecked(m);
    assert AllZeroCoefficients([CoefficientOf(m)]);
  }

  /** One monom of nonzero denominator passes the duplicate and denominator
      checks of the corrected validator. */
  lemma SingleChecked(m: Monom)
    requires Shaped(m) && DecimalValue(m.denominator) != 0
    ensures MonomsPolynomial([m]) == NonzeroCoefficients([m])
  {
    DenominatorOne(m);
    SortedOne(m);
    assert !RepeatedDegree([m]);
  }

  /** One monom of nonzero denominator has no zero denominator. */
  lemma DenominatorOne(m: Monom)
    requires Shaped(m) && DecimalValue(m.denominator) != 0
    ensures !HasZeroDenominator([m])
  {
    assert forall x :: x in [m] ==> x == m;
  }

  /** The corrected validator refuses such a literal. */
  lemma NegativeZeroCorrected(m: Monom)
    requires NegativeZeroConstant(m)
    ensures PolynomialLiteral(Lexer.Joined(Spelled([m]))) == Err(AllZero)
  {
    SpelledOne(m);
    NegativeZeroRefused(m);
  }

  /** A constant monom with a nonzero numerator over a zero denominator,
      numerals plain, such as "+3/0*x^0". */
  predicate ZeroDenominatorConstant(m: Monom)
  {
    Shaped(m) && PlainCoefficient(m) && DegreeOf(m) == 0
    && DecimalValue(Unsigned(m.numerator)) != 0 && DecimalValue(m.denominator) == 0
  }

  /** The monom of "+3/0*x^0". */
  const ZeroDenominatorMonom := Monom("0", "3", "0")

  /** "+3/0*x^0" spells such a monom. */
  lemma ZeroDenominatorExample()
    ensures ZeroDenominatorConstant(ZeroDenominatorMonom)
    ensures Lexer.Joined(Spelled([ZeroDenominatorMonom])) == "+3/0*x^0"
  {
    SpelledText(ZeroDenominatorMonom);
  }

  /** The coefficient of such a monom prints, and not as "0/1". */
  lemma ZeroDenominatorPrints(m: Monom)
    requires ZeroDenominatorConstant(m)
    ensures Printed(CoefficientOf(m)).Ok? && !PrintsZero(CoefficientOf(m))
  {
    PrintedZero(CoefficientOf(m));
  }

  /** The rational validator refuses the fraction of such a monom. */
  lemma ZeroDenominatorFraction(m: Monom)
    requires ZeroDenominatorConstant(m)
    ensures ValidatedRational(m.numerator + "/" + m.denominator) == Err(ZeroDenominator)
  {
    SplitJoined(m.numerator, m.denominator);
    IntegerCanonical(m.numerator);
    NaturalZero(m.denominator);
  }

  /** As written, such a literal is accepted, and its one coefficient has a
      zero denominator, a fraction the rational validator refuses. Printing
      it in the all-zero check reduced it by its numerator, so it comes back
      with numerator one or minus one: "+3/0*x^0" gives 1/0. */
  lemma ZeroDenominatorAsWritten(m: Monom)
    requires ZeroDenominatorConstant(m)
    ensures var c := Reduced(CoefficientOf(m));
      c.Ok? && PolynomialAsWritten(Lexer.Joined(Spelled([m]))) == Ok([c.value])
      && Val(c.value.den) == 0 && Val(c.value.num.magnitude) == 1
    ensures ValidatedRational(m.numerator + "/" + m.denominator) == Err(ZeroDenominator)
  {
    SpelledOne(m);
    ConstantOne(m);
    var c := CoefficientOf(m);
    ZeroDenominatorPrints(m);
    AcceptedOne(Lexer.Joined(Spelled([m])), [m], c);
    var r := Reduced(c).value;
    assert Gcd(Val(r.num.magnitude), Val(r.den)) == Val(r.num.magnitude);
    ZeroDenominatorFraction(m);
  }

  /** The corrected validator refuses such a literal, as the rational
      validator refuses the fraction. */
  lemma ZeroDenominatorCorrected(m: Monom)
    requires ZeroDenominatorConstant(m)
    ensures PolynomialLiteral(Lexer.Joined(Spelled([m]))) == Err(ZeroDenominator)
  {
    SpelledOne(m);
    ConstantOne(m);
    assert m in [m];
  }

  /** Two constant monoms whose degrees are both zero but spelled
      differently, the second with a nonzero numerator and plain numerals,
      such as "+1/1*x^0+2/1*x^00". */
  predicate RespelledDegrees(m1: Monom, m2: Monom)
  {
    Shaped(m1) && Shaped(m2) && PlainCoefficient(m2) && DegreeOf(m1) == 0 && DegreeOf(m2) == 0
    && m1.degree != m2.degree
    && DecimalValue(m1.denominator) != 0 && DecimalValue(m2.denominator) != 0
    && DecimalValue(Unsigned(m2.numerator)) != 0
  }

  /** The monoms of "+1/1*x^0+2/1*x^00". */
  const RespelledFirst := Monom("0", "1", "1")
  const RespelledSecond := Monom("00", "2", "1")

  /** "+1/1*x^0+2/1*x^00" spells such a pair. */
  lemma RespelledExample()
    ensures RespelledDegrees(RespelledFirst, RespelledSecond)
    ensures Lexer.Joined(Spelled([RespelledFirst, RespelledSecond])) == "+1/1*x^0+2/1*x^00"
  {
    DoubleZero();
    RespelledText(RespelledFirst, RespelledSecond);
    RespelledLetters();
  }

  /** "00" denotes zero. */
  lemma DoubleZero()
    ensures IsDigitString("00") && DecimalValue("00") == 0
  {
    assert "00"[..1] == "0" && "0"[..0] == "";
  }

  /** The pieces of the example pair put together. */
  lemma RespelledLetters()
    ensures "+" + "1" + "/" + "1" + "*x^" + "0" + "+" + "2" + "/" + "1" + "*x^" + "00"
      == "+1/1*x^0+2/1*x^00"
  {
  }

  /** The text of two spelled monoms of non-negative numerators. */
  lemma RespelledText(m1: Monom, m2: Monom)
    requires Shaped(m1) && Shaped(m2) && m1.numerator[0] != '-' && m2.numerator[0] != '-'
    ensures Lexer.Joined(Spelled([m1, m2])) ==
      "+" + m1.numerator + "/" + m1.denominator + "*x^" + m1.degree
      + "+" + m2.numerator + "/" + m2.denominator + "*x^" + m2.degree
  {
    SpelledPair(m1, m2);
    SpelledText(m1);
    SpelledText(m2);
  }

  /** Two spelled monoms print as the two printed one after the other. */
  lemma SpelledPair(m1: Monom, m2: Monom)
    requires Shaped(m1) && Shaped(m2)
    ensures Lexer.Joined(Spelled([m1, m2])) == Lexer.Joined(Spelled([m1])) + Lexer.Joined(Spelled([m2]))
  {
    assert [m1, m2][1..] == [m2];
    assert [m1][1..] == [] && [m2][1..] == [];
    assert Spelled([m1, m2]) == Spelled([m1]) + Spelled([m2]);
    Lexer.JoinedAppend(Spelled([m1]), Spelled([m2]));
  }

  /** Two monoms, the second of no smaller degree, stay in order. */
  lemma SortedPair(m1: Monom, m2: Monom)
    requires Shaped(m1) && Shaped(m2) && DegreeOf(m1) <= DegreeOf(m2)
    ensures SortByDegree([m1, m2]) == [m1, m2]
  {
    SortedOne(m1);
    assert [m1, m2][..1] == [m1];
    assert Insert([m1], m2) == [m1, m2];
  }

  /** A single monom is sorted as it stands. */
  lemma SortedOne(m: Monom)
    requires Shaped(m)
    ensures SortByDegree([m]) == [m]
  {
    assert [m][..0] == [];
    assert Insert([], m) == [m];
  }

  /** Two constant monoms, both of degree zero, stay in order and fill a
      one-entry vector with the second one's coefficient. */
  lemma ConstantPair(m1: Monom, m2: Monom)
    requires Shaped(m1) && Shaped(m2) && DegreeOf(m1) == 0 && DegreeOf(m2) == 0
    ensures SortByDegree([m1, m2]) == [m1, m2]
    ensures Coefficients([m1, m2]) == Ok([CoefficientOf(m2)])
  {
    SortedPair(m1, m2);
    PlacedPair(m1, m2);
    assert [m1, m2][|[m1, m2]| - 1] == m2;
  }

  /** The second of two constant monoms overwrites the first's entry. */
  lemma PlacedPair(m1: Monom, m2: Monom)
    requires Shaped(m1) && Shaped(m2) && DegreeOf(m1) == 0 && DegreeOf(m2) == 0
    ensures Placed([m1, m2], 1) == [CoefficientOf(m2)]
  {
    assert [m1, m2][..1] == [m1];
    PlacedOne(m1);
    assert Placed([m1, m2], 1) == Placed([m1], 1)[0 := CoefficientOf(m2)];
  }

  /** Two spelled monoms read back as themselves. */
  lemma SpelledTwo(m1: Monom, m2: Monom)
    requires Shaped(m1) && Shaped(m2)
    ensures var s := Lexer.Joined(Spelled([m1, m2]));
      |s| > 0 && LiteralMonoms(s) == Ok([m1, m2])
  {
    TextRoundTrip([m1, m2]);
    SpelledPair(m1, m2);
    SpelledText(m1);
  }

  /** As written, such a literal is accepted: the degree texts differ, so no
      duplicate is seen, and the first monom's coefficient is overwritten by
      the second's, which comes back in lowest terms. */
  lemma RespelledAsWritten(m1: Monom, m2: Monom)
    requires RespelledDegrees(m1, m2)
    ensures var c := Reduced(CoefficientOf(m2));
      c.Ok? && PolynomialAsWritten(Lexer.Joined(Spelled([m1, m2]))) == Ok([c.value])
      && RVal(c.value) == RVal(CoefficientOf(m2))
  {
    SpelledTwo(m1, m2);
    ConstantPair(m1, m2);
    var c := CoefficientOf(m2);
    assert Val(c.den) != 0;
    PrintedZero(c);
    assert !PrintsZero(c) by {
      Polynomial.ZeroCoefficientIff(c);
      PrintedZeroIff(c);
    }
    assert !RepeatedDegreeText([m1, m2]);
    AcceptedOne(Lexer.Joined(Spelled([m1, m2])), [m1, m2], c);
  }

  /** The corrected validator refuses such a literal: the two degrees are
      equal in value. */
  lemma RespelledCorrected(m1: Monom, m2: Monom)
    requires RespelledDegrees(m1, m2)
    ensures PolynomialLiteral(Lexer.Joined(Spelled([m1, m2]))) == Err(DuplicateDegrees)
  {
    SpelledTwo(m1, m2);
    ConstantPair(m1, m2);
  }
}
