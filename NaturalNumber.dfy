/** Unsigned numbers as little-endian vectors of decimal digits
    (src/NaturalNumber.cpp).

    A digit vector `s` denotes `Val(s) = Σ s[i]·10^i`. The operations work
    on the canonical form — never empty, no most-significant zero, zero is
    `[0]` — and each one is proved to return the canonical digits of the
    mathematical result. */
module NaturalNumber {
  import opened Arith
  import opened Failures

  type Digit = d: int | 0 <= d <= 9
  type Digits = seq<Digit>

  /** The number a digit vector denotes; digit 0 is the units digit. */
  function Val(s: Digits): nat
  {
    if |s| == 0 then 0 else s[0] + 10 * Val(s[1..])
  }

  /** The representation invariant of a NaturalNumber. */
  predicate Canonical(s: Digits)
  {
    |s| > 0 && (|s| == 1 || s[|s| - 1] != 0)
  }

  /** The canonical digits of `n`. */
  function FromNat(n: nat): (s: Digits)
    ensures Canonical(s) && Val(s) == n
    decreases n
  {
    if n < 10 then [n] else [n % 10] + FromNat(n / 10)
  }

  /** The vector of `k` zero digits. */
  function Zeros(k: nat): (s: Digits)
    ensures |s| == k && Val(s) == 0
    ensures forall i :: 0 <= i < k ==> s[i] == 0
  {
    if k == 0 then [] else [0] + Zeros(k - 1)
  }

  /** The units digit comes first; the rest is worth ten times its value. */
  lemma ValCons(d: Digit, s: Digits)
    ensures Val([d] + s) == d + 10 * Val(s)
  {
    assert ([d] + s)[1..] == s;
  }

  lemma {:induction false} ValAppend(s: Digits, d: Digit)
    ensures Val(s + [d]) == Val(s) + d * Pow10(|s|)
  {
    if |s| == 0 {
      assert s + [d] == [d] + [];
    } else {
      assert s + [d] == [s[0]] + (s[1..] + [d]);
      ValCons(s[0], s[1..] + [d]);
      ValAppend(s[1..], d);
      assert 10 * (d * Pow10(|s| - 1)) == d * Pow10(|s|);
    }
  }

  /** Extending a prefix by one digit adds that digit at its weight. */
  lemma ValPrefix(s: Digits, i: nat)
    requires i < |s|
    ensures Val(s[..i + 1]) == Val(s[..i]) + s[i] * Pow10(i)
  {
    assert s[..i + 1] == s[..i] + [s[i]];
    ValAppend(s[..i], s[i]);
  }

  /** Ten times a product is the product with ten times the first factor. */
  lemma ShiftTen(p: int, v: int)
    ensures 10 * (p * v) == (10 * p) * v
  {
  }

  lemma {:induction false} ValConcat(a: Digits, b: Digits)
    ensures Val(a + b) == Val(a) + Pow10(|a|) * Val(b)
  {
    if |a| == 0 {
      assert a + b == b;
    } else {
      var rest := a[1..];
      assert a + b == [a[0]] + (rest + b);
      ValCons(a[0], rest + b);
      ValConcat(rest, b);
      ValCons(a[0], rest);
      assert a == [a[0]] + rest;
      ShiftTen(Pow10(|rest|), Val(b));
    }
  }

  /** A vector of `n` digits denotes less than 10^n. */
  lemma {:induction false} ValBound(s: Digits)
    ensures Val(s) < Pow10(|s|)
  {
    if |s| > 0 {
      ValBound(s[1..]);
      assert Val(s[1..]) + 1 <= Pow10(|s| - 1);
      MulMonotone(Val(s[1..]) + 1, Pow10(|s| - 1), 10);
    }
  }

  /** A vector whose most significant digit is not zero denotes at least 10^(n-1). */
  lemma ValLower(s: Digits)
    requires |s| > 0 && s[|s| - 1] != 0
    ensures Val(s) >= Pow10(|s| - 1)
  {
    var n := |s| - 1;
    assert s == s[..n] + [s[n]];
    ValAppend(s[..n], s[n]);
    MulAtLeast(Pow10(n), s[n]);
  }

  /** A canonical vector is the canonical encoding of its value. */
  lemma {:induction false} CanonicalUnique(s: Digits)
    requires Canonical(s)
    ensures s == FromNat(Val(s))
  {
    if |s| > 1 {
      var t := s[1..];
      ValLower(t);
      assert Val(s) == s[0] + 10 * Val(t);
      DivModUnique(Val(s), 10, Val(t), s[0]);
      CanonicalUnique(t);
      assert s == [s[0]] + t;
    }
  }

  /** Two canonical vectors are equal exactly when they denote the same number. */
  lemma CanonicalEqual(a: Digits, b: Digits)
    requires Canonical(a) && Canonical(b)
    ensures a == b <==> Val(a) == Val(b)
  {
    CanonicalUnique(a);
    CanonicalUnique(b);
  }

  /** Canonical vectors of different lengths compare by length. */
  lemma LongerIsLarger(a: Digits, b: Digits)
    requires Canonical(a) && Canonical(b) && |a| > |b|
    ensures Val(a) > Val(b)
  {
    ValLower(a);
    ValBound(b);
    Pow10Monotone(|b|, |a| - 1);
  }

  /** A vector splits at position `i` into a low part and a high part worth 10^i each. */
  lemma ValSplit(a: Digits, i: nat)
    requires i < |a|
    ensures Val(a) == Val(a[..i]) + Pow10(i) * (a[i] + 10 * Val(a[i + 1..]))
  {
    var low, high := a[..i], a[i..];
    assert a == low + high;
    ValConcat(low, high);
    assert high == [a[i]] + a[i + 1..];
    ValCons(a[i], a[i + 1..]);
    var m, p := Val(high), Pow10(i);
    assert m == a[i] + 10 * Val(a[i + 1..]);
    assert p * m == p * (a[i] + 10 * Val(a[i + 1..]));
  }

  /** Digit vectors of one length that agree above position `i` compare by digit `i`. */
  lemma TopDifference(a: Digits, b: Digits, i: nat)
    requires |a| == |b| && i < |a| && a[i + 1..] == b[i + 1..] && a[i] > b[i]
    ensures Val(a) > Val(b)
  {
    ValSplit(a, i);
    ValSplit(b, i);
    ValBound(b[..i]);
    ValBound(a[..i]);
    TopArith(Val(a[..i]), Val(b[..i]), Pow10(i), a[i], b[i], 10 * Val(a[i + 1..]));
  }

  /** The arithmetic of `TopDifference`: a larger digit at weight `p` outweighs any lower part. */
  lemma TopArith(lowA: int, lowB: int, p: int, x: int, y: int, high: int)
    requires 0 <= lowA && 0 <= lowB < p && y < x
    ensures lowA + p * (x + high) > lowB + p * (y + high)
  {
    MulMonotone(y + high + 1, x + high, p);
    assert (y + high + 1) * p == p + p * (y + high);
  }

  /** Zero has the single canonical form `[0]`. */
  lemma CanonicalZero(a: Digits)
    ensures Canonical(a) ==> (Val(a) == 0 <==> a == [0])
  {
    if Canonical(a) && |a| > 1 {
      ValLower(a);
    }
  }

  /** isNotEqualZero: the vector is not the single digit 0. */
  function IsNotEqualZero(a: Digits): (r: bool)
    ensures Canonical(a) ==> (r <==> Val(a) != 0)
  {
    CanonicalZero(a);
    !(|a| == 1 && a[0] == 0)
  }

  /** Pops most-significant zero digits while more than one digit is left. */
  method Trimmed(v: Digits) returns (t: Digits)
    requires |v| > 0
    ensures Canonical(t) && Val(t) == Val(v)
    ensures |t| <= |v| && t == v[..|t|] && forall i :: |t| <= i < |v| ==> v[i] == 0
  {
    t := v;
    while |t| > 1 && t[|t| - 1] == 0
      invariant 0 < |t| <= |v| && t == v[..|t|] && Val(t) == Val(v)
      invariant forall i :: |t| <= i < |v| ==> v[i] == 0
    {
      var n := |t| - 1;
      assert t == t[..n] + [0];
      ValAppend(t[..n], 0);
      t := t[..n];
    }
  }

  /** The digit-vector constructor: rejects an empty vector, otherwise trims. */
  method FromVector(v: Digits) returns (r: Result<Digits>)
    ensures r.Ok? <==> |v| > 0
    ensures r.Err? ==> r.error == EmptyInput
    ensures r.Ok? ==> Canonical(r.value) && Val(r.value) == Val(v)
    ensures r.Ok? ==> |r.value| <= |v| && r.value == v[..|r.value|] && forall i :: |r.value| <= i < |v| ==> v[i] == 0
  {
    if |v| == 0 {
      return Err(EmptyInput);
    }
    var t := Trimmed(v);
    r := Ok(t);
  }

  /** Moving the units digit of `n` out of a number scaled by `p`. */
  lemma ShiftDigit(p: nat, n: nat)
    ensures p * n == (n % 10) * p + (10 * p) * (n / 10)
  {
    assert n == n % 10 + 10 * (n / 10);
    assert p * n == p * (n % 10) + p * (10 * (n / 10));
  }

  /** The constructor from a machine word: repeated division by ten. */
  method FromMachine(a: nat) returns (s: Digits)
    requires a < 0x1_0000_0000_0000_0000
    ensures Canonical(s) && Val(s) == a
  {
    s := [];
    if a == 0 {
      s := [0];
    }
    var rest := a;
    while rest > 0
      invariant Val(s) + Pow10(|s|) * rest == a
      invariant a == 0 ==> s == [0]
      invariant a > 0 && rest == 0 ==> |s| > 0 && s[|s| - 1] != 0
    {
      var d: Digit := rest % 10;
      ValAppend(s, d);
      ShiftDigit(Pow10(|s|), rest);
      s := s + [d];
      rest := rest / 10;
    }
  }

  function Min(x: nat, y: nat): nat
  {
    if x < y then x else y
  }

  /** Digit `i` of `s`, or 0 past its end. */
  function DigitAt(s: Digits, i: nat): Digit
  {
    if i < |s| then s[i] else 0
  }

  /** Extending a prefix that may run past the end adds digit `i` (0 past the end). */
  lemma ValPaddedPrefix(s: Digits, i: nat)
    ensures Val(s[..Min(i + 1, |s|)]) == Val(s[..Min(i, |s|)]) + DigitAt(s, i) * Pow10(i)
  {
    if i < |s| {
      ValPrefix(s, i);
    }
  }

  /** cmp: 2 when `a` is larger, 1 when it is smaller, 0 when they are equal. */
  method Cmp(a: Digits, b: Digits) returns (r: nat)
    requires Canonical(a) && Canonical(b)
    ensures r == 2 <==> Val(a) > Val(b)
    ensures r == 1 <==> Val(a) < Val(b)
    ensures r == 0 <==> Val(a) == Val(b)
  {
    if |a| > |b| {
      LongerIsLarger(a, b);
      return 2;
    }
    if |a| < |b| {
      LongerIsLarger(b, a);
      return 1;
    }
    var i := |a|;
    while i > 0
      invariant 0 <= i <= |a| && a[i..] == b[i..]
    {
      i := i - 1;
      if a[i] > b[i] {
        TopDifference(a, b, i);
        return 2;
      }
      if a[i] < b[i] {
        TopDifference(b, a, i);
        return 1;
      }
      assert a[i..] == [a[i]] + a[i + 1..] && b[i..] == [b[i]] + b[i + 1..];
    }
    assert a == a[0..] && b == b[0..];
    return 0;
  }

  /** Every digit is a nine, so adding one carries out of the top position. */
  predicate AllNines(s: Digits)
  {
    forall i :: 0 <= i < |s| ==> s[i] == 9
  }

  /** The value of a vector is its low `i` digits plus 10^i times the rest. */
  lemma ValSplitAt(s: Digits, i: nat)
    requires i <= |s|
    ensures Val(s) == Val(s[..i]) + Pow10(i) * Val(s[i..])
  {
    assert s == s[..i] + s[i..];
    ValConcat(s[..i], s[i..]);
  }

  /** One column of a carry loop: the written digit and the new carry
      together account for the column's sum. */
  lemma CarryStep(v: int, c: int, p: int, s: int, add: int)
    requires s == add + c
    ensures v + (s % 10) * p + (s / 10) * (10 * p) == v + c * p + add * p
  {
    assert s == s % 10 + 10 * (s / 10);
    assert s * p == (s % 10) * p + (s / 10) * (10 * p);
    assert s * p == c * p + add * p;
  }

  /** Writing digit `d` at position `i` extends the prefix by `d` at its weight. */
  lemma WriteDigit(s: Digits, i: nat, d: Digit)
    requires i < |s|
    ensures Val(s[i := d][..i + 1]) == Val(s[..i]) + d * Pow10(i)
  {
    assert s[i := d][..i + 1] == s[..i] + [d];
    ValAppend(s[..i], d);
  }

  /** A NaturalNumber object, for the one operation that changes it in place. */
  /** One column of increment: the written digit and the new carry account
      for the old digit plus the carry; the digits above are untouched; the
      carry goes on exactly past a 9. */
  lemma IncrementColumn(numbers: Digits, before: Digits, i: nat)
    requires i < |numbers| == |before| && numbers[i..] == before[i..]
    requires Val(numbers[..i]) + Pow10(i) == Val(before[..i]) + 1
    ensures var sum: int := numbers[i] as int + 1;
      sum / 10 <= 1
      && Val(numbers[i := sum % 10][..i + 1]) + (if sum / 10 == 1 then Pow10(i + 1) else 0) == Val(before[..i + 1]) + 1
      && numbers[i := sum % 10][i + 1..] == before[i + 1..]
      && (sum / 10 == 1 <==> before[i] == 9)
      && (sum / 10 == 0 ==> sum % 10 == before[i] + 1)
  {
    var sum: int := numbers[i] as int + 1;
    assert numbers[i] == numbers[i..][0] == before[i];
    WriteDigit(numbers, i, sum % 10);
    ValPrefix(before, i);
    CarryStep(Val(numbers[..i]), 1, Pow10(i), sum, before[i]);
  }

  /** After the carry loop of increment, a carry left over means every digit
      was 9, and a new top digit 1 completes the sum. */
  lemma IncrementCarried(numbers: Digits, before: Digits)
    requires |numbers| == |before|
    requires Val(numbers) + Pow10(|numbers|) == Val(before) + 1
    requires forall k :: 0 <= k < |before| ==> before[k] == 9
    ensures AllNines(before) && Val(numbers + [1]) == Val(before) + 1
    ensures Canonical(numbers + [1])
  {
    var grown := numbers + [1];
    ValAppend(numbers, 1);
    assert grown[|grown| - 1] == 1;
  }

  /** After the carry loop of increment, no carry left means the sum is
      complete, some digit was not 9, and a canonical vector stays canonical. */
  lemma IncrementStopped(numbers: Digits, before: Digits, i: nat)
    requires 0 < i <= |numbers| == |before| && numbers[i..] == before[i..]
    requires Val(numbers[..i]) == Val(before[..i]) + 1
    requires before[i - 1] != 9 && numbers[i - 1] == before[i - 1] + 1
    ensures !AllNines(before) && Val(numbers) == Val(before) + 1
    ensures Canonical(before) ==> Canonical(numbers)
  {
    ValSplitAt(numbers, i);
    ValSplitAt(before, i);
    assert numbers[|numbers| - 1] == before[|before| - 1] || i == |numbers|;
  }

  class Natural {
    var numbers: Digits

    constructor (v: Digits)
      ensures numbers == v
    {
      numbers := v;
    }

    /** increment: adds one in place, growing by a digit only when the carry
        leaves the top position. */
    method Increment()
      modifies this
      ensures Val(numbers) == old(Val(numbers)) + 1
      ensures |numbers| == if AllNines(old(numbers)) then old(|numbers|) + 1 else old(|numbers|)
      ensures old(Canonical(numbers)) ==> Canonical(numbers)
    {
      ghost var before := numbers;
      var carry := 1;
      var i := 0;
      while i < |numbers| && carry != 0
        invariant 0 <= i <= |numbers| == |before| && 0 <= carry <= 1
        invariant numbers[i..] == before[i..]
        invariant Val(numbers[..i]) + (if carry == 1 then Pow10(i) else 0) == Val(before[..i]) + 1
        invariant carry == 1 ==> forall k :: 0 <= k < i ==> before[k] == 9
        invariant carry == 0 ==> 0 < i && before[i - 1] != 9 && numbers[i - 1] == before[i - 1] + 1
      {
        var sum := numbers[i] as int + carry;
        IncrementColumn(numbers, before, i);
        numbers := numbers[i := sum % 10];
        carry := sum / 10;
        i := i + 1;
      }
      if carry != 0 {
        assert numbers[..i] == numbers && before[..i] == before;
        IncrementCarried(numbers, before);
        numbers := numbers + [1];
      } else {
        IncrementStopped(numbers, before, i);
      }
    }
  }

  /** add: the schoolbook sum with a carry, digit by digit over the longer operand. */
  method Add(a: Digits, b: Digits) returns (r: Digits)
    requires |a| > 0 && |b| > 0
    ensures Canonical(r) && Val(r) == Val(a) + Val(b)
  {
    var n, m := |a|, |b|;
    var maxlen := if n > m then n else m;
    var res: Digits := [];
    var carry := 0;
    var i := 0;
    while i < maxlen
      invariant 0 <= i <= maxlen && |res| == i && 0 <= carry <= 1
      invariant Val(res) + carry * Pow10(i) == Val(a[..Min(i, n)]) + Val(b[..Min(i, m)])
    {
      var x := DigitAt(a, i);
      var y := DigitAt(b, i);
      var s := x + y + carry;
      SumColumn(a, b, res, i, carry, s);
      res := res + [s % 10];
      carry := s / 10;
      i := i + 1;
    }
    assert a[..n] == a && b[..m] == b;
    if carry != 0 {
      ValAppend(res, carry);
      res := res + [carry];
    }
    r := Trimmed(res);
  }

  /** One column of add: the written digit and the new carry account for
      both digits `i` and the old carry. */
  lemma SumColumn(a: Digits, b: Digits, res: Digits, i: nat, carry: int, s: int)
    requires |res| == i && 0 <= carry <= 1 && s == DigitAt(a, i) + DigitAt(b, i) + carry
    requires Val(res) + carry * Pow10(i) == Val(a[..Min(i, |a|)]) + Val(b[..Min(i, |b|)])
    ensures 0 <= s / 10 <= 1
    ensures Val(res + [s % 10]) + (s / 10) * Pow10(i + 1) == Val(a[..Min(i + 1, |a|)]) + Val(b[..Min(i + 1, |b|)])
  {
    var x, y, p := DigitAt(a, i), DigitAt(b, i), Pow10(i);
    ValPaddedPrefix(a, i);
    ValPaddedPrefix(b, i);
    ValAppend(res, s % 10);
    assert Pow10(i + 1) == 10 * p;
    SumArith(Val(res), carry, p, x, y, s, Val(a[..Min(i, |a|)]), Val(b[..Min(i, |b|)]));
  }

  /** The arithmetic of one column of add. */
  lemma SumArith(v: int, carry: int, p: int, x: int, y: int, s: int, lowA: int, lowB: int)
    requires s == x + y + carry && v + carry * p == lowA + lowB
    ensures v + (s % 10) * p + (s / 10) * (10 * p) == (lowA + x * p) + (lowB + y * p)
  {
    CarryStep(v, carry, p, s, x + y);
    assert (x + y) * p == x * p + y * p;
  }

  /** One column of the borrow loop of subtract. */
  lemma BorrowStep(p: int, x: int, y: int, bIn: int, bOut: int, diff: int)
    requires diff == x - y - bIn + 10 * bOut
    ensures diff * p + y * p + bIn * p == x * p + bOut * (10 * p)
  {
    assert diff * p == x * p - y * p - bIn * p + 10 * bOut * p;
  }

  /** One column of the borrow loop keeps its invariant. */
  lemma BorrowColumn(a: Digits, b: Digits, res: Digits, i: nat, borrow: int, next: int, digit: Digit)
    requires i < |a| && |res| == |a|
    requires Val(res[..i]) + Val(b[..Min(i, |b|)]) == Val(a[..i]) + borrow * Pow10(i)
    requires digit == a[i] - DigitAt(b, i) - borrow + 10 * next
    ensures Val(res[i := digit][..i + 1]) + Val(b[..Min(i + 1, |b|)]) == Val(a[..i + 1]) + next * Pow10(i + 1)
  {
    ValPaddedPrefix(b, i);
    ValPrefix(a, i);
    WriteDigit(res, i, digit);
    BorrowStep(Pow10(i), a[i], DigitAt(b, i), borrow, next, digit);
  }

  /** After the last column no borrow is left when the subtrahend is the
      smaller number. */
  lemma BorrowFinished(a: Digits, b: Digits, res: Digits, borrow: int)
    requires |res| == |a| && 0 <= borrow <= 1 && Val(b) <= Val(a)
    requires Val(res) + Val(b) == Val(a) + borrow * Pow10(|a|)
    ensures Val(res) == Val(a) - Val(b)
  {
    ValBound(res);
    NoTopBorrow(Val(res), Val(b), Val(a), borrow, Pow10(|a|));
  }

  /** subtract: fails when the subtrahend is larger, gives `[0]` on equal
      operands, and otherwise borrows digit by digit. */
  method Subtract(a: Digits, b: Digits) returns (r: Result<Digits>)
    requires Canonical(a) && Canonical(b)
    ensures r.Ok? <==> Val(b) <= Val(a)
    ensures r.Err? ==> r.error == Underflow
    ensures r.Ok? ==> Canonical(r.value) && Val(r.value) == Val(a) - Val(b)
  {
    var comparison := Cmp(a, b);
    if comparison == 1 {
      return Err(Underflow);
    }
    if comparison == 0 {
      return Ok([0]);
    }
    if |b| > |a| {
      LongerIsLarger(b, a);
    }
    var res := BorrowDigits(a, b);
    var t := Trimmed(res);
    r := Ok(t);
  }

  /** The borrowing loop of subtract: column by column, the difference of
      two numbers with the subtrahend no larger, padded to the minuend's
      length. */
  method BorrowDigits(a: Digits, b: Digits) returns (res: Digits)
    requires |a| > 0 && |b| <= |a| && Val(b) <= Val(a)
    ensures |res| == |a| && Val(res) == Val(a) - Val(b)
  {
    var n, m := |a|, |b|;
    res := Zeros(n);
    var borrow := 0;
    var i := 0;
    while i < n
      invariant 0 <= i <= n && |res| == n && 0 <= borrow <= 1
      invariant Val(res[..i]) + Val(b[..Min(i, m)]) == Val(a[..i]) + borrow * Pow10(i)
    {
      var x := a[i];
      var y := DigitAt(b, i);
      var diff := x - y - borrow;
      var next := 0;
      if diff < 0 {
        diff := diff + 10;
        next := 1;
      }
      var digit: Digit := diff;
      BorrowColumn(a, b, res, i, borrow, next, digit);
      res := res[i := digit];
      borrow := next;
      i := i + 1;
    }
    assert res[..n] == res && a[..n] == a && b[..m] == b;
    BorrowFinished(a, b, res, borrow);
  }

  /** multiplyByDigit: fails for a digit above 9, gives `[0]` for 0. */
  method MultiplyByDigit(a: Digits, d: nat) returns (r: Result<Digits>)
    requires |a| > 0
    ensures r.Ok? <==> d <= 9
    ensures r.Err? ==> r.error == DigitOutOfRange
    ensures r.Ok? ==> Canonical(r.value) && Val(r.value) == Val(a) * d
  {
    if d > 9 {
      return Err(DigitOutOfRange);
    }
    if d == 0 {
      return Ok([0]);
    }
    var res: Digits := [];
    var carry := 0;
    var i := 0;
    while i < |a|
      invariant 0 <= i <= |a| && |res| == i && 0 <= carry <= 8
      invariant Val(res) + carry * Pow10(i) == Val(a[..i]) * d
    {
      var prod: int := a[i] * d + carry;
      DigitCarry(a[i], d, carry);
      DigitColumn(a, d, res, i, carry, prod);
      res := res + [prod % 10];
      carry := prod / 10;
      i := i + 1;
    }
    assert a[..|a|] == a;
    while carry > 0
      invariant 0 <= carry <= 8 && |res| >= |a|
      invariant Val(res) + carry * Pow10(|res|) == Val(a) * d
      decreases carry
    {
      ValAppend(res, carry % 10);
      CarryStep(Val(res), carry, Pow10(|res|), carry, 0);
      res := res + [carry % 10];
      carry := carry / 10;
    }
    var t := Trimmed(res);
    r := Ok(t);
  }

  /** The carry of a multiplyByDigit column stays below 9. */
  lemma DigitCarry(x: Digit, d: nat, carry: int)
    requires d <= 9 && 0 <= carry <= 8
    ensures 0 <= (x * d + carry) / 10 <= 8
  {
    MulMonotone(x, 9, d);
  }

  /** One column of multiplyByDigit keeps the invariant of its loop. */
  lemma DigitColumn(a: Digits, d: nat, res: Digits, i: nat, carry: int, prod: int)
    requires i < |a| && |res| == i && prod == a[i] * d + carry
    requires Val(res) + carry * Pow10(i) == Val(a[..i]) * d
    ensures Val(res + [prod % 10]) + (prod / 10) * Pow10(i + 1) == Val(a[..i + 1]) * d
  {
    ValPrefix(a, i);
    ValAppend(res, prod % 10);
    ColumnArith(Val(res), Val(a[..i]), a[i], d, Pow10(i), carry, prod);
  }

  /** The arithmetic of one multiplyByDigit column. */
  lemma ColumnArith(v: int, low: int, x: int, d: int, p: int, carry: int, prod: int)
    requires v + carry * p == low * d && prod == x * d + carry
    ensures v + (prod % 10) * p + (prod / 10) * (10 * p) == (low + x * p) * d
  {
    CarryStep(v, carry, p, prod, x * d);
    ScaledColumn(low, x, p, d);
  }

  /** Scaling a prefix extended by one digit. */
  lemma ScaledColumn(low: int, x: int, p: int, d: int)
    ensures (low + x * p) * d == low * d + (x * d) * p
  {
  }

  /** multiplyByPowerOfTen: zero stays `[0]`; otherwise `k` zero digits are
      put below the existing ones. */
  method MultiplyByPowerOfTen(a: Digits, k: nat) returns (r: Digits)
    requires Canonical(a)
    ensures Canonical(r) && Val(r) == Val(a) * Pow10(k)
    ensures Val(a) != 0 ==> r == Zeros(k) + a
  {
    CanonicalZero(a);
    if !IsNotEqualZero(a) {
      return [0];
    }
    var zeros := Zeros(k);
    var res := zeros + a;
    ValConcat(zeros, a);
    assert Val(res) == Val(a) * Pow10(k);
    assert res[|res| - 1] == a[|a| - 1] != 0;
    r := Trimmed(res);
  }

  lemma Reweigh(low: int, p: int, x: int, y: int, high: int)
    ensures (low + p * (y + high)) + x * p == (low + p * (x + high)) + y * p
  {
    assert p * (y + high) == p * y + p * high;
    assert p * (x + high) == p * x + p * high;
  }

  /** Overwriting digit `k` changes the value by the difference at weight 10^k. */
  lemma ValUpdate(s: Digits, k: nat, d: Digit)
    requires k < |s|
    ensures Val(s[k := d]) + s[k] * Pow10(k) == Val(s) + d * Pow10(k)
  {
    var t := s[k := d];
    ValSplit(s, k);
    ValSplit(t, k);
    assert t[..k] == s[..k] && t[k + 1..] == s[k + 1..];
    Reweigh(Val(s[..k]), Pow10(k), s[k], d, 10 * Val(s[k + 1..]));
  }

  lemma ProductBound(x: nat, y: nat, px: nat, py: nat)
    requires x < px && y < py
    ensures x * y < px * py
  {
    MulMonotone(x, px - 1, y);
    MulMonotone(y, py - 1, px - 1);
    assert (px - 1) * (py - 1) < px * py;
  }

  /** A carry left over past the last digit of `b` fits in the column right after it. */
  lemma CarryFits(v: nat, carry: nat, total: int, i: nat, j: nat, m: nat)
    requires carry > 0 && j >= m && v + carry * Pow10(i + j) == total && total < Pow10(i + m + 1)
    ensures j == m
  {
    MulAtLeast(Pow10(i + j), carry);
    if j > m {
      Pow10Monotone(i + m + 1, i + j);
    }
  }

  /** One column of multiply: the rewritten digit and the new carry account for
      the old digit, the carry and `x·b[j]`. */
  lemma MultiplyStepArith(vr: int, rk: int, cur: int, carry: int, x: int, y: int, start: int, low: int, pi: int, pj: int)
    requires vr + carry * (pi * pj) == start + x * low * pi
    requires cur == rk + x * y + carry
    ensures (vr - rk * (pi * pj) + (cur % 10) * (pi * pj)) + (cur / 10) * (10 * (pi * pj)) == start + x * (low + y * pj) * pi
  {
    var p := pi * pj;
    CarryStep(vr - rk * p, carry, p, cur, rk + x * y);
    assert (rk + x * y) * p == rk * p + x * y * p;
    assert x * (low + y * pj) * pi == x * low * pi + x * y * p;
  }

  /** `x` times the low `j` digits of `b`, shifted by `i` places. */
  function RowPart(x: Digit, b: Digits, i: nat, j: nat): nat
  {
    x * Val(b[..Min(j, |b|)]) * Pow10(i)
  }

  /** The invariant of the inner loop of multiply survives one column. */
  lemma RowStep(out: Digits, x: Digit, b: Digits, i: nat, j: nat, carry: nat, cur: nat, start: nat)
    requires i + j < |out| && cur == out[i + j] + x * DigitAt(b, j) + carry
    requires Val(out) + carry * Pow10(i + j) == start + RowPart(x, b, i, j)
    ensures Val(out[i + j := cur % 10]) + (cur / 10) * Pow10(i + j + 1) == start + RowPart(x, b, i, j + 1)
  {
    ValUpdate(out, i + j, cur % 10);
    ValPaddedPrefix(b, j);
    Pow10Add(i, j);
    MultiplyStepArith(Val(out), out[i + j], cur, carry, x, DigitAt(b, j), start, Val(b[..Min(j, |b|)]), Pow10(i), Pow10(j));
  }

  /** The column the inner loop of multiply writes next lies within the
      vector: past the last digit of `b` only the carry is left, and it
      fits in the one column after it. */
  lemma RowColumnFits(out: Digits, x: Digit, b: Digits, i: nat, j: nat, carry: nat, start: nat, total: int)
    requires i + |b| < |out| && j <= |b| + 1 && (j < |b| || carry != 0)
    requires total == start + x * Val(b) * Pow10(i) && total < Pow10(i + |b| + 1)
    requires Val(out) + carry * Pow10(i + j) == start + RowPart(x, b, i, j)
    ensures j <= |b| && i + j < |out|
  {
    if j >= |b| {
      RowPartFull(x, b, i, j);
      CarryFits(Val(out), carry, total, i, j, |b|);
    }
  }

  /** The inner loop of multiply: adds `x·b·10^i` into `res` column by column. */
  method AccumulateRow(res: Digits, x: Digit, b: Digits, i: nat) returns (out: Digits)
    requires i + |b| < |res|
    requires Val(res) + x * Val(b) * Pow10(i) < Pow10(i + |b| + 1)
    ensures |out| == |res| && Val(out) == Val(res) + x * Val(b) * Pow10(i)
  {
    var m := |b|;
    ghost var start := Val(res);
    ghost var total := start + x * Val(b) * Pow10(i);
    out := res;
    var carry := 0;
    var j := 0;
    RowPartStart(x, b, i);
    while j < m || carry != 0
      invariant 0 <= j <= m + 1 && |out| == |res| && 0 <= carry <= 9
      invariant Val(out) + carry * Pow10(i + j) == start + RowPart(x, b, i, j)
      decreases m + 1 - j
    {
      RowColumnFits(out, x, b, i, j, carry, start, total);
      var y := DigitAt(b, j);
      var cur := out[i + j] + x * y + carry;
      RowCarry(out[i + j], x, y, carry);
      RowStep(out, x, b, i, j, carry, cur, start);
      out := out[i + j := cur % 10];
      carry := cur / 10;
      j := j + 1;
    }
    RowPartFull(x, b, i, j);
  }

  /** No column of the row is added before the first. */
  lemma RowPartStart(x: Digit, b: Digits, i: nat)
    ensures RowPart(x, b, i, 0) == 0
  {
    assert b[..Min(0, |b|)] == [];
  }

  /** Past the last digit of `b` the whole row is added. */
  lemma RowPartFull(x: Digit, b: Digits, i: nat, j: nat)
    requires j >= |b|
    ensures RowPart(x, b, i, j) == x * Val(b) * Pow10(i)
  {
    assert b[..Min(j, |b|)] == b;
  }

  /** A column of multiply holds at most 9 + 9·9 + 9, so its carry is a digit. */
  lemma RowCarry(o: Digit, x: Digit, y: Digit, carry: int)
    requires 0 <= carry <= 9
    ensures 0 <= o + x * y + carry && (o + x * y + carry) / 10 <= 9
  {
    MulMonotone(x, 9, y);
  }

  /** The partial products of multiply stay below 10^(i + 1 + |b|). */
  lemma RowFits(a: Digits, b: Digits, i: nat)
    requires i < |a|
    ensures Val(a[..i]) * Val(b) + a[i] * Val(b) * Pow10(i) == Val(a[..i + 1]) * Val(b)
    ensures Val(a[..i + 1]) * Val(b) < Pow10(i + |b| + 1)
  {
    ValPrefix(a, i);
    ScaledColumn(Val(a[..i]), a[i], Pow10(i), Val(b));
    ValBound(a[..i + 1]);
    ValBound(b);
    ProductBound(Val(a[..i + 1]), Val(b), Pow10(i + 1), Pow10(|b|));
    Pow10Add(i + 1, |b|);
  }

  /** multiply: the schoolbook product, accumulating `a[i]·b[j]` into
      position `i + j` with a carry; `[0]` when either operand is zero. */
  method Multiply(a: Digits, b: Digits) returns (r: Digits)
    requires |a| > 0 && |b| > 0
    ensures Canonical(r) && Val(r) == Val(a) * Val(b)
  {
    if (|a| == 1 && a[0] == 0) || (|b| == 1 && b[0] == 0) {
      return [0];
    }
    var n, m := |a|, |b|;
    var res: Digits := Zeros(n + m);
    var i := 0;
    while i < n
      invariant 0 <= i <= n && |res| == n + m
      invariant Val(res) == Val(a[..i]) * Val(b)
    {
      RowFits(a, b, i);
      res := AccumulateRow(res, a[i], b, i);
      i := i + 1;
    }
    assert a[..n] == a;
    r := Trimmed(res);
  }

  /** subtractMultiplied: `a − c·b` for a digit `c`, failing when `c` is not
      a digit or the product exceeds `a`. */
  method SubtractMultiplied(a: Digits, b: Digits, c: nat) returns (r: Result<Digits>)
    requires Canonical(a) && Canonical(b)
    ensures r.Ok? <==> c <= 9 && Val(b) * c <= Val(a)
    ensures r.Err? ==> r.error == (if c > 9 then DigitOutOfRange else Underflow)
    ensures r.Ok? ==> Canonical(r.value) && Val(r.value) == Val(a) - Val(b) * c
  {
    if c > 9 {
      return Err(DigitOutOfRange);
    }
    var newNumber := MultiplyByDigit(b, c);
    var comparison := Cmp(a, newNumber.value);
    if comparison == 1 {
      return Err(Underflow);
    }
    r := Subtract(a, newNumber.value);
  }

  /** The vector `d·10^k`: `k` zero digits below the digit `d`. */
  lemma ValShiftedDigit(k: nat, d: Digit)
    ensures Val(Zeros(k) + [d]) == d * Pow10(k)
  {
    ValAppend(Zeros(k), d);
  }

  /** Canonical `a ≥ b` leaves `a < b·10^(|a| − |b| + 1)`. */
  lemma ShiftBound(a: Digits, b: Digits)
    requires Canonical(a) && Canonical(b) && |b| <= |a| && Val(b) > 0
    ensures Val(a) < Val(b) * Pow10(|a| - |b| + 1)
  {
    ValBound(a);
    if |b| > 1 {
      ValLower(b);
    }
    MulMonotone(Pow10(|b| - 1), Val(b), Pow10(|a| - |b| + 1));
    Pow10Add(|b| - 1, |a| - |b| + 1);
  }

  /** The first loop of getFirstDivisionDigit: the largest shift `k` of `b`
      that does not exceed `a`. */
  method AlignDivisor(a: Digits, b: Digits) returns (k: nat, temp: Digits)
    requires Canonical(a) && Canonical(b) && 0 < Val(b) <= Val(a)
    ensures Canonical(temp) && Val(temp) == Val(b) * Pow10(k)
    ensures Val(temp) <= Val(a) < Val(temp) * 10
  {
    if |b| > |a| {
      LongerIsLarger(b, a);
    }
    k := |a| - |b|;
    ShiftBound(a, b);
    temp := MultiplyByPowerOfTen(b, k);
    var c := Cmp(a, temp);
    while k > 0 && c == 1
      invariant Canonical(temp) && Val(temp) == Val(b) * Pow10(k)
      invariant c == 1 <==> Val(a) < Val(temp)
      invariant Val(a) < Val(b) * Pow10(k + 1)
    {
      k := k - 1;
      temp := MultiplyByPowerOfTen(b, k);
      c := Cmp(a, temp);
    }
    ShiftOnce(Val(b), k);
  }

  lemma ShiftOnce(v: int, k: nat)
    ensures v * Pow10(k + 1) == (v * Pow10(k)) * 10
  {
    assert Pow10(k + 1) == 10 * Pow10(k);
  }

  /** The second loop of getFirstDivisionDigit: the largest digit `d` with
      `temp·d ≤ a`, tried from 9 down. */
  method LargestDigit(a: Digits, temp: Digits) returns (digit: Digit)
    requires Canonical(a) && Canonical(temp) && Val(temp) <= Val(a) < Val(temp) * 10
    ensures 1 <= digit && Val(temp) * digit <= Val(a) < Val(temp) * (digit + 1)
  {
    ghost var t, av := Val(temp), Val(a);
    digit := 0;
    var d := 9;
    var found := false;
    while d >= 1 && !found
      invariant 0 <= d <= 9
      invariant !found ==> digit == 0 && av < t * (d + 1)
      invariant found ==> 1 <= digit <= 9 && t * digit <= av < t * (digit + 1)
      decreases if found then 0 else d + 1
    {
      var multiplied := MultiplyByDigit(temp, d);
      var c := Cmp(a, multiplied.value);
      if c != 1 {
        digit := d;
        found := true;
      } else {
        d := d - 1;
      }
    }
  }

  /** getFirstDivisionDigit: the leading digit `d` of the quotient `a / b`,
      placed at its position `k`, as the number `d·10^k`. */
  method GetFirstDivisionDigit(a: Digits, b: Digits) returns (r: Result<Digits>)
    requires Canonical(a) && Canonical(b)
    ensures r.Ok? <==> Val(b) != 0 && Val(b) <= Val(a)
    ensures r.Err? ==> r.error == (if Val(b) == 0 then DivideByZero else DivisorTooLarge)
    ensures r.Ok? ==> (
      Canonical(r.value) &&
      var k := |r.value| - 1;
      var d := r.value[k];
      1 <= d && r.value == Zeros(k) + [d] &&
      d * Pow10(k) * Val(b) <= Val(a) < (d + 1) * Pow10(k) * Val(b))
  {
    CanonicalZero(b);
    if !IsNotEqualZero(b) {
      return Err(DivideByZero);
    }
    var comparison := Cmp(a, b);
    if comparison == 1 {
      return Err(DivisorTooLarge);
    }
    var k, temp := AlignDivisor(a, b);
    var digit := LargestDigit(a, temp);
    var res := FromMachine(digit);
    CanonicalUnique(res);
    var shifted := MultiplyByPowerOfTen(res, k);
    ValShiftedDigit(k, digit);
    FirstDigitBounds(Val(a), Val(b), Pow10(k), Val(temp), digit);
    r := Ok(shifted);
  }

  lemma FirstDigitBounds(av: int, bv: int, p: int, t: int, d: int)
    requires t == bv * p && t * d <= av < t * (d + 1)
    ensures d * p * bv <= av < (d + 1) * p * bv
  {
  }

  /** The digits of `s` in reverse order. */
  function Reverse(s: Digits): (r: Digits)
    ensures |r| == |s|
  {
    if |s| == 0 then [] else Reverse(s[1..]) + [s[0]]
  }

  lemma {:induction false} ReverseAppend(s: Digits, d: Digit)
    ensures Reverse(s + [d]) == [d] + Reverse(s)
  {
    if |s| > 0 {
      assert (s + [d])[1..] == s[1..] + [d];
      ReverseAppend(s[1..], d);
    }
  }

  /** One step of long division keeps `dividend = b·quotient + current`. */
  lemma LongDivisionStep(ai: int, rest: int, bv: int, q0: int, current: int, q: int)
    requires rest == bv * q0 + current
    ensures ai + 10 * rest == bv * (q + 10 * q0) + (10 * current + ai - q * bv)
  {
  }

  /** One step of the long-division loop keeps its invariant. */
  lemma QuotientStep(a: Digits, i: nat, b: Digits, result: Digits, before: nat, q: Digit, after: nat)
    requires i < |a|
    requires Val(a[i + 1..]) == Val(b) * Val(Reverse(result)) + before
    requires after == 10 * before + a[i] - q * Val(b)
    ensures Val(a[i..]) == Val(b) * Val(Reverse(result + [q])) + after
  {
    assert a[i..] == [a[i]] + a[i + 1..];
    ValCons(a[i], a[i + 1..]);
    ReverseAppend(result, q);
    ValCons(q, Reverse(result));
    LongDivisionStep(a[i], Val(a[i + 1..]), Val(b), Val(Reverse(result)), before, q);
  }

  /** The trial-digit loop of quotient: finds the largest digit `q` with
      `q·b ≤ current` by trying 9 down to 1 with subtract. */
  method TrialDigit(current: Digits, b: Digits) returns (q: Digit, next: Digits)
    requires Canonical(current) && Canonical(b) && Val(b) <= Val(current) < Val(b) * 10
    ensures Canonical(next) && 1 <= q && Val(next) == Val(current) - Val(b) * q && Val(next) < Val(b)
  {
    ghost var bv, cv := Val(b), Val(current);
    q := 0;
    next := current;
    var digit := 9;
    var found := false;
    while digit >= 1 && !found
      invariant 0 <= digit <= 9 && Canonical(next)
      invariant !found ==> q == 0 && next == current && cv < bv * (digit + 1)
      invariant found ==> 1 <= q && Val(next) == cv - bv * q && cv < bv * (q + 1)
      decreases if found then 0 else digit + 1
    {
      var candidate := MultiplyByDigit(b, digit);
      var newCurrent := Subtract(current, candidate.value);
      if newCurrent.Ok? {
        q := digit;
        next := newCurrent.value;
        found := true;
      } else {
        digit := digit - 1;
      }
    }
    assert bv * (q + 1) == bv * q + bv;
  }

  /** One column of quotient: brings down the next dividend digit and finds
      the quotient digit for it. */
  method NextQuotientDigit(current: Digits, b: Digits, digit: Digit) returns (q: Digit, next: Digits)
    requires Canonical(current) && Canonical(b) && Val(current) < Val(b)
    ensures Canonical(next) && Val(next) == 10 * Val(current) + digit - q * Val(b) && Val(next) < Val(b)
  {
    var shifted := MultiplyByPowerOfTen(current, 1);
    next := Add(shifted, [digit]);
    q := 0;
    var c := Cmp(next, b);
    if c != 1 {
      q, next := TrialDigit(next, b);
    }
  }

  /** quotient: schoolbook long division from the most significant digit down. */
  method Quotient(a: Digits, b: Digits) returns (r: Result<Digits>)
    requires Canonical(a) && Canonical(b)
    ensures r.Ok? <==> Val(b) != 0
    ensures r.Err? ==> r.error == DivideByZero
    ensures r.Ok? ==> Canonical(r.value) && Val(r.value) == Val(a) / Val(b)
  {
    CanonicalZero(b);
    if !IsNotEqualZero(b) {
      return Err(DivideByZero);
    }
    var comparison := Cmp(a, b);
    if comparison == 1 {
      DivModUnique(Val(a), Val(b), 0, Val(a));
      return Ok([0]);
    }
    var result: Digits := [];
    var current: Digits := [0];
    var i := |a|;
    while i > 0
      invariant 0 <= i <= |a| && Canonical(current) && Val(current) < Val(b)
      invariant Val(a[i..]) == Val(b) * Val(Reverse(result)) + Val(current)
      invariant |result| == |a| - i
    {
      i := i - 1;
      ghost var before := Val(current);
      var q;
      q, current := NextQuotientDigit(current, b, a[i]);
      QuotientStep(a, i, b, result, before, q, Val(current));
      result := result + [q];
    }
    assert a[0..] == a;
    var quotient := Reverse(result);
    DivModUnique(Val(a), Val(b), Val(quotient), Val(current));
    var trimmed := Trimmed(quotient);
    r := Ok(trimmed);
  }

  lemma DivisionIdentity(x: nat, y: nat)
    requires y > 0
    ensures y * (x / y) <= x && x - y * (x / y) == x % y
  {
  }

  /** remainder: `a` itself when `a < b`, otherwise `a − b·quotient(a, b)`. */
  method Remainder(a: Digits, b: Digits) returns (r: Result<Digits>)
    requires Canonical(a) && Canonical(b)
    ensures r.Ok? <==> Val(b) != 0
    ensures r.Err? ==> r.error == DivideByZero
    ensures r.Ok? ==> Canonical(r.value) && Val(r.value) == Val(a) % Val(b)
    ensures r.Ok? && Val(a) < Val(b) ==> r.value == a
  {
    CanonicalZero(b);
    if !IsNotEqualZero(b) {
      return Err(DivideByZero);
    }
    var comparison := Cmp(a, b);
    if comparison == 1 {
      DivModUnique(Val(a), Val(b), 0, Val(a));
      return Ok(a);
    }
    var quotient := Quotient(a, b);
    var product := Multiply(b, quotient.value);
    DivisionIdentity(Val(a), Val(b));
    r := Subtract(a, product);
  }

  /** GCD: Euclid's algorithm on digit vectors; fails only for two zeros. */
  method GCD(a: Digits, b: Digits) returns (r: Result<Digits>)
    requires Canonical(a) && Canonical(b)
    ensures r.Ok? <==> Val(a) != 0 || Val(b) != 0
    ensures r.Err? ==> r.error == UndefinedGcd
    ensures r.Ok? ==> Canonical(r.value) && Val(r.value) == Gcd(Val(a), Val(b))
    ensures r.Ok? && Val(b) == 0 ==> r.value == a
  {
    var first, second := a, b;
    CanonicalZero(a);
    CanonicalZero(b);
    if !IsNotEqualZero(a) && !IsNotEqualZero(b) {
      return Err(UndefinedGcd);
    }
    if !IsNotEqualZero(second) {
      return Ok(first);
    }
    while IsNotEqualZero(second)
      invariant Canonical(first) && Canonical(second)
      invariant Gcd(Val(first), Val(second)) == Gcd(Val(a), Val(b))
      decreases Val(second)
    {
      var tmp := Remainder(first, second);
      first := second;
      second := tmp.value;
    }
    r := Ok(first);
  }

  /** LCM: `a·b / GCD(a, b)`; fails when either operand is zero. */
  method LCM(a: Digits, b: Digits) returns (r: Result<Digits>)
    requires Canonical(a) && Canonical(b)
    ensures r.Ok? <==> Val(a) != 0 && Val(b) != 0
    ensures r.Err? ==> r.error == UndefinedLcm
    ensures r.Ok? ==> Canonical(r.value) && Val(r.value) == Lcm(Val(a), Val(b))
  {
    CanonicalZero(a);
    CanonicalZero(b);
    if !IsNotEqualZero(a) || !IsNotEqualZero(b) {
      return Err(UndefinedLcm);
    }
    var product := Multiply(a, b);
    var g := GCD(a, b);
    GcdDivides(Val(a), Val(b));
    r := Quotient(product, g.value);
  }

  predicate IsDigitChar(c: char)
  {
    '0' <= c <= '9'
  }

  predicate IsDigitString(s: string)
  {
    forall i :: 0 <= i < |s| ==> IsDigitChar(s[i])
  }

  function CharDigit(c: char): Digit
    requires IsDigitChar(c)
  {
    c as int - '0' as int
  }

  function DigitChar(d: Digit): (c: char)
    ensures IsDigitChar(c) && CharDigit(c) == d
  {
    ('0' as int + d) as char
  }

  /** The number a decimal numeral denotes, most significant digit first. */
  function DecimalValue(s: string): nat
    requires IsDigitString(s)
  {
    if |s| == 0 then 0 else 10 * DecimalValue(s[..|s| - 1]) + CharDigit(s[|s| - 1])
  }

  /** The digit vector of a numeral: its characters read from the last one. */
  function DigitsOf(s: string): (r: Digits)
    requires IsDigitString(s)
    ensures |r| == |s|
  {
    if |s| == 0 then [] else [CharDigit(s[|s| - 1])] + DigitsOf(s[..|s| - 1])
  }

  /** The numeral of a digit vector, most significant digit first. */
  function Render(a: Digits): (s: string)
    ensures |s| == |a| && IsDigitString(s)
  {
    if |a| == 0 then "" else Render(a[1..]) + [DigitChar(a[0])]
  }

  /** Reading a numeral as digits keeps its value. */
  lemma {:induction false} DigitsOfValue(s: string)
    requires IsDigitString(s)
    ensures Val(DigitsOf(s)) == DecimalValue(s)
  {
    if |s| > 0 {
      DigitsOfValue(s[..|s| - 1]);
      ValCons(CharDigit(s[|s| - 1]), DigitsOf(s[..|s| - 1]));
    }
  }

  lemma DigitsOfSnoc(t: string, c: char)
    requires IsDigitString(t) && IsDigitChar(c)
    ensures IsDigitString(t + [c]) && DigitsOf(t + [c]) == [CharDigit(c)] + DigitsOf(t)
  {
    assert (t + [c])[..|t|] == t;
  }

  /** Rendering then reading back gives the same digits. */
  lemma {:induction false} RenderRoundTrip(a: Digits)
    ensures DigitsOf(Render(a)) == a
  {
    if |a| > 0 {
      DigitsOfSnoc(Render(a[1..]), DigitChar(a[0]));
      RenderRoundTrip(a[1..]);
      assert a == [a[0]] + a[1..];
    }
  }

  /** Reading then rendering gives the same numeral. */
  lemma {:induction false} DigitsOfRoundTrip(s: string)
    requires IsDigitString(s)
    ensures Render(DigitsOf(s)) == s
  {
    if |s| > 0 {
      var d := DigitsOf(s);
      var init, last := s[..|s| - 1], s[|s| - 1];
      assert d[1..] == DigitsOf(init);
      DigitsOfRoundTrip(init);
      assert DigitChar(d[0]) == last by {
        assert d[0] == CharDigit(last);
      }
      assert Render(d) == Render(d[1..]) + [DigitChar(d[0])];
      assert s == init + [last];
    }
  }

  /** The rendered numeral denotes the vector's value. */
  lemma RenderValue(a: Digits)
    ensures DecimalValue(Render(a)) == Val(a)
  {
    RenderRoundTrip(a);
    DigitsOfValue(Render(a));
  }

  /** The string constructor: fails on an empty string and otherwise stores
      the characters as digits, last character first, leading zeros kept. */
  method FromString(s: string) returns (r: Result<Digits>)
    requires IsDigitString(s)
    ensures r.Ok? <==> |s| > 0
    ensures r.Err? ==> r.error == EmptyInput
    ensures r.Ok? ==> r.value == DigitsOf(s)
  {
    if |s| == 0 {
      return Err(EmptyInput);
    }
    var numbers := Zeros(|s|);
    var i := |s|;
    while i > 0
      invariant 0 <= i <= |s| && |numbers| == |s|
      invariant forall k :: 0 <= k < |s| - i ==> numbers[k] == CharDigit(s[|s| - 1 - k])
    {
      i := i - 1;
      numbers := numbers[|s| - i - 1 := CharDigit(s[i])];
    }
    DigitsOfAt(s);
    r := Ok(numbers);
  }

  lemma {:induction false} DigitsOfAt(s: string)
    requires IsDigitString(s)
    ensures forall k :: 0 <= k < |s| ==> DigitsOf(s)[k] == CharDigit(s[|s| - 1 - k])
  {
    if |s| > 0 {
      DigitsOfAt(s[..|s| - 1]);
    }
  }

  /** toString: fails on an empty vector, otherwise the digits most
      significant first. */
  method ToString(a: Digits) returns (r: Result<string>)
    ensures r.Ok? <==> |a| > 0
    ensures r.Err? ==> r.error == EmptyInput
    ensures r.Ok? ==> r.value == Render(a)
  {
    if |a| == 0 {
      return Err(EmptyInput);
    }
    var result := seq(|a|, _ => '0');
    var i := |a| - 1;
    while i >= 0
      invariant -1 <= i < |a| && |result| == |a|
      invariant forall k :: 0 <= k < |a| - 1 - i ==> result[k] == DigitChar(a[|a| - 1 - k])
    {
      result := result[|a| - i - 1 := DigitChar(a[i])];
      i := i - 1;
    }
    RenderAt(a);
    r := Ok(result);
  }

  lemma {:induction false} RenderAt(a: Digits)
    ensures forall k :: 0 <= k < |a| ==> Render(a)[k] == DigitChar(a[|a| - 1 - k])
  {
    if |a| > 0 {
      RenderAt(a[1..]);
    }
  }
}
