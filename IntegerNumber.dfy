/** Signed numbers: a negative flag next to a NaturalNumber magnitude
    (IntegerNumber.cpp, src/IntegerNumber.h).

    The flag is stored as given, so zero can carry it ("negative zero");
    `GetSign` looks at the magnitude first and reports 0 for both zeros.
    The operations are case analysis over NaturalNumber operations; where
    those are loops here (they are methods of NaturalNumber), the
    functions below use the canonical result the methods are proved to
    return, `FromNat(value)`. */
module IntegerNumber {
  import opened Arith
  import opened Failures
  import opened NaturalNumber

  datatype Integer = Integer(magnitude: Digits, negative: bool)

  /** The representation invariant: the magnitude is a canonical NaturalNumber. */
  predicate Valid(x: Integer)
  {
    Canonical(x.magnitude)
  }

  /** The number an Integer denotes; a flagged zero still denotes 0. */
  function IVal(x: Integer): int
  {
    var v: int := Val(x.magnitude);
    if x.negative then -v else v
  }

  /** A non-negative Integer's magnitude is its value, flag or no flag. */
  lemma MagnitudeOfNonNegative(x: Integer)
    requires IVal(x) >= 0
    ensures Val(x.magnitude) == IVal(x)
  {
  }

  function AbsInt(x: int): nat
  {
    if x < 0 then -x else x
  }

  /** The canonical Integer of a value: canonical magnitude, and the flag
      only on negative values. */
  function FromInt(v: int): (r: Integer)
    ensures Valid(r) && IVal(r) == v && (v == 0 ==> !r.negative)
  {
    Integer(FromNat(AbsInt(v)), v < 0)
  }

  /** A valid Integer that does not flag zero is the canonical one of its value. */
  lemma IntegerUnique(x: Integer)
    requires Valid(x) && (IVal(x) == 0 ==> !x.negative)
    ensures x == FromInt(IVal(x))
  {
    CanonicalUnique(x.magnitude);
    CanonicalZero(x.magnitude);
  }

  /** The (digits, sign) constructor: the flag as given, the magnitude
      trimmed by NaturalNumber's vector constructor. */
  function Make(digits: Digits, negative: bool): (r: Integer)
    requires |digits| > 0
    ensures Valid(r) && r.negative == negative && Val(r.magnitude) == Val(digits)
    ensures Canonical(digits) ==> r.magnitude == digits
  {
    if Canonical(digits) then CanonicalUnique(digits); Integer(FromNat(Val(digits)), negative)
    else Integer(FromNat(Val(digits)), negative)
  }

  /** The text an Integer literal may have once validated: an optional
      leading `-` followed by decimal digits. */
  predicate IsIntegerText(s: string)
  {
    if |s| > 0 && s[0] == '-' then IsDigitString(s[1..]) else IsDigitString(s)
  }

  /** The string constructor: a leading `-` sets the flag and the rest is the
      NaturalNumber magnitude (leading zeros kept). */
  function FromString(s: string): (r: Result<Integer>)
    requires IsIntegerText(s)
    ensures r.Ok? <==> |s| > 0 && s != "-"
    ensures r.Err? ==> r.error == EmptyInput
    ensures r.Ok? ==> r.value.negative == (s[0] == '-')
    ensures r.Ok? ==> IVal(r.value) == if s[0] == '-' then 0 - DecimalValue(s[1..]) else DecimalValue(s)
  {
    if |s| == 0 then Err(EmptyInput)
    else if s[0] == '-' then
      if |s| == 1 then Err(EmptyInput)
      else
        DigitsOfValue(s[1..]);
        Ok(Integer(DigitsOf(s[1..]), true))
    else
      DigitsOfValue(s);
      Ok(Integer(DigitsOf(s), false))
  }

  /** The long-long constructor; the flag is `a < 0` and the magnitude |a|. */
  function FromMachine(a: int): (r: Integer)
    requires -0x7fff_ffff_ffff_ffff <= a <= 0x7fff_ffff_ffff_ffff
    ensures Valid(r) && IVal(r) == a && r.negative == (a < 0)
  {
    Integer(FromNat(AbsInt(a)), a < 0)
  }

  /** toString: a `-` for the flag, then the magnitude's digits. */
  function ToString(x: Integer): string
    requires |x.magnitude| > 0
  {
    (if x.negative then "-" else "") + Render(x.magnitude)
  }

  /** Printing then reading back gives the same Integer, flag included. */
  lemma ToStringRoundTrip(x: Integer)
    requires |x.magnitude| > 0
    ensures IsIntegerText(ToString(x)) && FromString(ToString(x)) == Ok(x)
  {
    var t := Render(x.magnitude);
    RenderRoundTrip(x.magnitude);
    assert IsDigitChar(t[0]);
    if x.negative {
      assert ToString(x)[1..] == t;
    } else {
      assert ToString(x) == t;
    }
  }

  /** getSign: 0 for a zero magnitude whatever the flag, else 1 negative, 2 positive. */
  function GetSign(x: Integer): (r: nat)
    requires Valid(x)
    ensures r == 0 <==> IVal(x) == 0
    ensures r == 1 <==> IVal(x) < 0
    ensures r == 2 <==> IVal(x) > 0
  {
    if !IsNotEqualZero(x.magnitude) then 0 else if x.negative then 1 else 2
  }

  /** abs: the magnitude as a NaturalNumber. */
  function Abs(x: Integer): (r: Digits)
    ensures Val(r) == AbsInt(IVal(x))
  {
    x.magnitude
  }

  /** negate: same magnitude, flipped flag, also on zero. */
  function Negate(x: Integer): (r: Integer)
    requires Valid(x)
    ensures Valid(r) && IVal(r) == -IVal(x)
    ensures r.magnitude == x.magnitude && r.negative == !x.negative
  {
    Make(x.magnitude, !x.negative)
  }

  /** Negating twice gives back the same Integer. */
  lemma NegateInvolution(x: Integer)
    requires Valid(x)
    ensures Negate(Negate(x)) == x
  {
  }

  /** Negating zero flags it but leaves its sign code at 0. */
  lemma NegateZero(x: Integer)
    requires Valid(x) && IVal(x) == 0
    ensures Negate(x).negative != x.negative && GetSign(Negate(x)) == 0 && IVal(Negate(x)) == 0
  {
  }

  /** toInteger: a NaturalNumber as a non-negative Integer. */
  function ToInteger(n: Digits): (r: Integer)
    requires |n| > 0
    ensures Valid(r) && !r.negative && IVal(r) == Val(n)
  {
    Make(n, false)
  }

  /** toNatural: fails on the flag, even on a flagged zero. */
  function ToNatural(x: Integer): (r: Result<Digits>)
    ensures r.Ok? <==> !x.negative
    ensures r.Err? ==> r.error == NegativeToNatural
    ensures r.Ok? ==> Val(r.value) == IVal(x)
  {
    if x.negative then Err(NegativeToNatural) else Ok(x.magnitude)
  }

  /** add: equal sign codes add magnitudes under the left flag; otherwise
      equal magnitudes give a non-negative zero and unequal ones subtract the
      smaller from the larger under the larger one's flag. */
  function Add(a: Integer, b: Integer): (r: Integer)
    requires Valid(a) && Valid(b)
    ensures Valid(r) && IVal(r) == IVal(a) + IVal(b)
    ensures GetSign(a) == GetSign(b) ==> r.negative == a.negative
    ensures GetSign(a) != GetSign(b) && IVal(r) == 0 ==> !r.negative
    ensures GetSign(a) != GetSign(b) && IVal(r) != 0 ==>
      r.negative == if Val(a.magnitude) > Val(b.magnitude) then a.negative else b.negative
  {
    var x, y := Val(a.magnitude), Val(b.magnitude);
    if GetSign(a) == GetSign(b) then Make(FromNat(x + y), a.negative)
    else if x == y then Make([0], false)
    else if x > y then Make(FromNat(x - y), a.negative)
    else Make(FromNat(y - x), b.negative)
  }

  /** subtract: add the negated operand. */
  function Subtract(a: Integer, b: Integer): (r: Integer)
    requires Valid(a) && Valid(b)
    ensures Valid(r) && IVal(r) == IVal(a) - IVal(b)
  {
    Add(a, Negate(b))
  }

  /** multiply: a non-negative zero when either sign code is 0, otherwise the
      product of magnitudes, negative exactly when the sign codes differ. */
  function Multiply(a: Integer, b: Integer): (r: Integer)
    requires Valid(a) && Valid(b)
    ensures Valid(r) && IVal(r) == IVal(a) * IVal(b)
    ensures IVal(r) == 0 ==> !r.negative
  {
    var sa, sb := GetSign(a), GetSign(b);
    if sa == 0 || sb == 0 then Integer([0], false)
    else
      SignedProduct(a, b);
      Make(FromNat(Val(a.magnitude) * Val(b.magnitude)), sa != sb)
  }

  lemma SignedProduct(a: Integer, b: Integer)
    requires Valid(a) && Valid(b) && IVal(a) != 0 && IVal(b) != 0
    ensures var p := Val(a.magnitude) * Val(b.magnitude);
      p > 0 && IVal(a) * IVal(b) == if a.negative != b.negative then -p else p
  {
    var x: int, y: int := Val(a.magnitude), Val(b.magnitude);
    MulAtLeast(x, y);
    NegatedFactors(x, y);
  }

  lemma NegatedFactors(x: int, y: int)
    ensures (-x) * y == -(x * y) && x * (-y) == -(x * y) && (-x) * (-y) == x * y
  {
  }

  /** Division truncating toward zero: |x| div |y|, negated when the signs differ. */
  function TruncDiv(x: int, y: int): int
    requires y != 0
  {
    var q := AbsInt(x) / AbsInt(y);
    if (x < 0) != (y < 0) then -q else q
  }

  /** The remainder that goes with TruncDiv. */
  function TruncRem(x: int, y: int): int
    requires y != 0
  {
    x - y * TruncDiv(x, y)
  }

  /** TruncRem is |x| mod |y| carrying the dividend's sign. */
  lemma TruncRemSpec(x: int, y: int)
    requires y != 0
    ensures AbsInt(TruncRem(x, y)) == AbsInt(x) % AbsInt(y)
    ensures TruncRem(x, y) != 0 ==> (TruncRem(x, y) < 0 <==> x < 0)
    ensures AbsInt(TruncRem(x, y)) < AbsInt(y)
  {
    var ax, ay := AbsInt(x), AbsInt(y);
    var q: int, m: int := ax / ay, ax % ay;
    assert ax == ay * q + m;
    if x < 0 && y < 0 {
      assert TruncRem(x, y) == x - y * q == 0 - m;
    } else if x < 0 {
      assert TruncRem(x, y) == x + y * q == 0 - m;
    } else if y < 0 {
      assert TruncRem(x, y) == x + y * q == m;
    } else {
      assert TruncRem(x, y) == x - y * q == m;
    }
  }

  /** quotient: fails on a zero divisor, is 0 when |a| < |b|, and otherwise
      counts subtractions of |b| from |a|, negated when the sign codes differ. */
  method Quotient(a: Integer, b: Integer) returns (r: Result<Integer>)
    requires Valid(a) && Valid(b)
    ensures r.Ok? <==> IVal(b) != 0
    ensures r.Err? ==> r.error == DivideByZero
    ensures r.Ok? ==> Valid(r.value) && IVal(r.value) == TruncDiv(IVal(a), IVal(b))
    ensures r.Ok? && IVal(r.value) == 0 ==> !r.value.negative
  {
    if GetSign(b) == 0 {
      return Err(DivideByZero);
    }
    var dividend := Abs(a);
    var divisor := Abs(b);
    var c := Cmp(dividend, divisor);
    if c == 1 {
      DivModUnique(Val(dividend), Val(divisor), 0, Val(dividend));
      return Ok(Make([0], false));
    }
    var quotient := Make([0], false);
    ghost var x, y := Val(dividend), Val(divisor);
    ghost var q: nat := 0;
    while c % 2 == 0
      invariant Valid(quotient) && !quotient.negative && IVal(quotient) == q
      invariant Canonical(dividend) && x == y * q + Val(dividend)
      invariant c == 1 || c == 0 || c == 2
      invariant c % 2 == 0 <==> y <= Val(dividend)
      decreases Val(dividend)
    {
      var difference := NaturalNumber.Subtract(dividend, divisor);
      dividend := difference.value;
      quotient := Add(quotient, Make([1], false));
      MulSucc(y, q);
      q := q + 1;
      c := Cmp(dividend, divisor);
    }
    DivModUnique(x, y, q, Val(dividend));
    TruncDivOfMagnitudes(a, b);
    r := Ok(if GetSign(a) != GetSign(b) then Negate(quotient) else quotient);
  }

  lemma MulSucc(y: int, q: int)
    ensures y * (q + 1) == y * q + y
  {
  }

  /** For |a| ≥ |b| > 0, TruncDiv is |a| div |b| negated exactly when the
      sign codes differ, and that quotient is at least 1. */
  lemma TruncDivOfMagnitudes(a: Integer, b: Integer)
    requires Valid(a) && Valid(b) && 0 < Val(b.magnitude) <= Val(a.magnitude)
    ensures var q := Val(a.magnitude) / Val(b.magnitude);
      q >= 1 && TruncDiv(IVal(a), IVal(b)) == if GetSign(a) != GetSign(b) then -q else q
  {
    var x, y := Val(a.magnitude), Val(b.magnitude);
    assert AbsInt(IVal(a)) == x && AbsInt(IVal(b)) == y;
    assert (IVal(a) < 0) == (GetSign(a) == 1) && (IVal(b) < 0) == (GetSign(b) == 1);
    DivAtLeastOne(x, y);
  }

  lemma DivAtLeastOne(x: int, y: int)
    requires 0 < y <= x
    ensures x / y >= 1
  {
  }

  /** Lines 82-101 of remainder: |a| when |a| < |b| is handled by the caller;
      otherwise |a| − |b|·(|a| div |b|) through quotient, multiply and subtract. */
  method RemainderMagnitude(a: Integer, b: Integer) returns (m: Digits)
    requires Valid(a) && Valid(b) && Val(b.magnitude) != 0
    ensures Canonical(m) && Val(m) == Val(a.magnitude) % Val(b.magnitude)
  {
    var dividend, divisor := a, b;
    if GetSign(dividend) == 1 {
      dividend := Negate(dividend);
    }
    if GetSign(divisor) == 1 {
      divisor := Negate(divisor);
    }
    ghost var x, y := Val(a.magnitude), Val(b.magnitude);
    assert IVal(dividend) == x && IVal(divisor) == y;
    var quotient := Quotient(dividend, divisor);
    NonNegativeTruncDiv(x, y);
    var product := Multiply(divisor, quotient.value);
    var difference := Subtract(dividend, product);
    MagnitudeOfNonNegative(difference);
    m := difference.magnitude;
  }

  /** On non-negative operands TruncDiv is Euclidean division, and the
      remainder it leaves is x mod y. */
  lemma NonNegativeTruncDiv(x: nat, y: nat)
    requires y > 0
    ensures TruncDiv(x, y) == x / y && x - y * (x / y) == x % y
  {
  }

  /** remainder as written: the result's flag is built from getSign(), a
      0/1/2 code, so it is set whenever |a| ≥ |b|, whatever a's sign. */
  method RemainderAsWritten(a: Integer, b: Integer) returns (r: Result<Integer>)
    requires Valid(a) && Valid(b)
    ensures r.Ok? <==> IVal(b) != 0
    ensures r.Err? ==> r.error == DivideByZero
    ensures r.Ok? && Val(a.magnitude) < Val(b.magnitude) ==> r.value == a
    ensures r.Ok? && Val(a.magnitude) >= Val(b.magnitude) ==>
      Valid(r.value) && r.value.negative && Val(r.value.magnitude) == Val(a.magnitude) % Val(b.magnitude)
  {
    if GetSign(b) == 0 {
      return Err(DivideByZero);
    }
    var c := Cmp(Abs(a), Abs(b));
    if c == 1 {
      return Ok(a);
    }
    var m := RemainderMagnitude(a, b);
    r := Ok(Make(m, GetSign(a) != 0));
  }

  /** 7 rem 3 comes out as −1 from remainder as written; the truncated
      remainder is 1. */
  lemma RemainderSignCounterexample(a: Integer, b: Integer, r: Integer)
    requires a == Integer([7], false) && b == Integer([3], false)
    requires Valid(r) && r.negative && Val(r.magnitude) == Val(a.magnitude) % Val(b.magnitude)
    ensures IVal(r) == -1 && TruncRem(IVal(a), IVal(b)) == 1
  {
    assert Val([7]) == 7 && Val([3]) == 3;
  }

  /** remainder with the flag taken from the dividend, so that
      a = b·quotient(a, b) + remainder(a, b) holds; a remainder of zero is
      not flagged, as multiply leaves a zero product. */
  method Remainder(a: Integer, b: Integer) returns (r: Result<Integer>)
    requires Valid(a) && Valid(b)
    ensures r.Ok? <==> IVal(b) != 0
    ensures r.Err? ==> r.error == DivideByZero
    ensures r.Ok? ==> Valid(r.value) && IVal(r.value) == TruncRem(IVal(a), IVal(b))
    ensures r.Ok? && Val(a.magnitude) < Val(b.magnitude) ==> r.value == a
    ensures r.Ok? && Val(a.magnitude) >= Val(b.magnitude) ==> (r.value.negative <==> IVal(r.value) < 0)
  {
    if GetSign(b) == 0 {
      return Err(DivideByZero);
    }
    TruncRemSpec(IVal(a), IVal(b));
    var c := Cmp(Abs(a), Abs(b));
    if c == 1 {
      DivModUnique(Val(a.magnitude), Val(b.magnitude), 0, Val(a.magnitude));
      return Ok(a);
    }
    var m := RemainderMagnitude(a, b);
    r := Ok(Make(m, a.negative && Val(m) != 0));
  }

  /** An IntegerNumber object: a flag and an owned NaturalNumber, for the
      copy and move members of the header. A moved-from object owns nothing. */
  class IntegerObject {
    var number: Natural?
    var isNegativeFlag: bool

    /** The Integer the object holds. */
    function Value(): Integer
      reads this, number
      requires number != null
    {
      Integer(number.numbers, isNegativeFlag)
    }

    /** The copy constructor: an independent NaturalNumber with the same digits. */
    constructor Copy(other: IntegerObject)
      requires other.number != null
      ensures number != null && fresh(number) && Value() == other.Value()
    {
      number := new Natural(other.number.numbers);
      isNegativeFlag := other.isNegativeFlag;
    }

    /** The move constructor: takes over the other's NaturalNumber. */
    constructor Move(other: IntegerObject)
      requires other.number != null
      modifies other
      ensures number == old(other.number) && isNegativeFlag == old(other.isNegativeFlag)
      ensures other.number == null && other.isNegativeFlag == old(other.isNegativeFlag)
    {
      number := other.number;
      isNegativeFlag := other.isNegativeFlag;
      new;
      other.number := null;
    }

    /** Copy assignment: nothing changes on self-assignment; otherwise a fresh
        copy of the other's digits and its flag. */
    method CopyAssign(other: IntegerObject)
      requires other.number != null
      modifies this
      ensures number != null && Value() == old(other.Value())
      ensures this != other ==> fresh(number)
      ensures this == other ==> number == old(number) && isNegativeFlag == old(isNegativeFlag)
    {
      if this != other {
        number := new Natural(other.number.numbers);
        isNegativeFlag := other.isNegativeFlag;
      }
    }

    /** Move assignment: nothing changes on self-assignment; otherwise takes
        over the other's NaturalNumber and flag and leaves it owning nothing. */
    method MoveAssign(other: IntegerObject)
      requires other.number != null
      modifies this, other
      ensures number == old(other.number) && isNegativeFlag == old(other.isNegativeFlag)
      ensures this != other ==> other.number == null
      ensures other.isNegativeFlag == old(other.isNegativeFlag)
    {
      if this != other {
        number := other.number;
        isNegativeFlag := other.isNegativeFlag;
        other.number := null;
      }
    }
  }
}
