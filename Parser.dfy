/** The parser of polynomial literals (src/Validator/Utils/Parser.cpp,
    src/Validator/Utils/Monom.h).

    `Parse` reads a token list left to right, one monom at a time: an
    optional sign, a coefficient (a number, a fraction `n/d`, or nothing
    before an `x`), an optional `*`, and an optional `x` with an optional
    `^` exponent. The monoms are kept as the three texts the source keeps.
    `ParseMonom` and `ParseFrom` specify the loop; the lemmas show that
    printing monoms as tokens and parsing them back is the identity, and
    connect the parser to the lexer. */
module Parser {
  import opened Failures
  import opened NaturalNumber
  import opened Token
  import opened Lexer

  /** A monom: the coefficient numerator/denominator and the degree, as texts. */
  datatype Monom = Monom(degree: string, numerator: string, denominator: string)

  /** The numerator text after a sign: a `-` flips the text's own sign. */
  function Signed(negative: bool, n: string): string
  {
    if !negative then n else if |n| > 0 && n[0] == '-' then n[1..] else "-" + n
  }

  /** Stage 2, at token j: the numerator and denominator texts and the index
      after them. An `x` is coefficient 1/1 and is left for stage 5. */
  function CoefficientAt(tokens: seq<Token>, j: nat): (r: Result<(string, string, nat)>)
    requires j < |tokens|
    ensures r.Ok? ==> j <= r.value.2 <= |tokens|
    ensures r.Ok? && r.value.2 == j ==> tokens[j].kind == X
    ensures r.Ok? && r.value.2 > j ==> tokens[r.value.2 - 1].kind == Num
  {
    if tokens[j].kind == Num then
      if j + 1 < |tokens| && tokens[j + 1].kind == Div then
        if j + 2 >= |tokens| || tokens[j + 2].kind != Num then Err(ExpectedDenominator)
        else Ok((tokens[j].value, tokens[j + 2].value, j + 3))
      else Ok((tokens[j].value, "1", j + 1))
    else if tokens[j].kind == X then Ok(("1", "1", j))
    else Err(ExpectedCoefficient)
  }

  /** Stages 4 and 5, at token k: an optional `*`, then the degree text and
      the index after the monom. */
  function DegreeAt(tokens: seq<Token>, k: nat): (r: Result<(string, nat)>)
    requires k <= |tokens|
    ensures r.Ok? ==> k <= r.value.1 <= |tokens|
    ensures r.Ok? && r.value.1 > k ==> tokens[r.value.1 - 1].kind in {Num, X, Mul}
    ensures r.Ok? && k < |tokens| && tokens[k].kind == X ==> r.value.1 > k
  {
    var k' := if k < |tokens| && tokens[k].kind == Mul then k + 1 else k;
    if k' < |tokens| && tokens[k'].kind == X then
      if k' + 1 < |tokens| && tokens[k' + 1].kind == Pow then
        if k' + 2 >= |tokens| || tokens[k' + 2].kind != Num then Err(ExpectedExponent)
        else Ok((tokens[k' + 2].value, k' + 3))
      else Ok(("1", k' + 1))
    else Ok(("0", k'))
  }

  /** One monom starting at token i: the monom and the index after it. The
      last token a monom consumes is a number, an `x` or a `*`, never a sign. */
  function ParseMonom(tokens: seq<Token>, i: nat): (r: Result<(Monom, nat)>)
    requires i < |tokens|
    ensures r.Ok? ==> i < r.value.1 <= |tokens|
    ensures r.Ok? ==> tokens[r.value.1 - 1].kind in {Num, X, Mul}
  {
    var negative := tokens[i].kind == Sub;
    var j := if tokens[i].kind == Add || tokens[i].kind == Sub then i + 1 else i;
    if j >= |tokens| then Err(UnexpectedEnd)
    else
      var coefficient := CoefficientAt(tokens, j);
      if coefficient.Err? then Err(coefficient.error)
      else
        var (n, d, k) := coefficient.value;
        var degree := DegreeAt(tokens, k);
        if degree.Err? then Err(degree.error)
        else Ok((Monom(degree.value.0, Signed(negative, n), d), degree.value.1))
  }

  /** The monoms from token i to the end. */
  function ParseFrom(tokens: seq<Token>, i: nat): Result<seq<Monom>>
    requires i <= |tokens|
    decreases |tokens| - i
  {
    if i == |tokens| then Ok([])
    else
      var first := ParseMonom(tokens, i);
      if first.Err? then Err(first.error)
      else Prepend([first.value.0], ParseFrom(tokens, first.value.1))
  }

  /** `ms` followed by the monoms of `r`, or the failure of `r`. */
  function Prepend(ms: seq<Monom>, r: Result<seq<Monom>>): Result<seq<Monom>>
  {
    if r.Ok? then Ok(ms + r.value) else r
  }

  /** The result of Parser::parse: an empty token list fails, otherwise the
      monoms of the whole list. */
  function Monoms(tokens: seq<Token>): Result<seq<Monom>>
  {
    if |tokens| == 0 then Err(EmptyInput) else ParseFrom(tokens, 0)
  }

  /** Parser::parse. */
  method Parse(tokens: seq<Token>) returns (r: Result<seq<Monom>>)
    ensures r == Monoms(tokens)
  {
    if |tokens| == 0 {
      return Err(EmptyInput);
    }
    var monoms: seq<Monom> := [];
    var i := 0;
    assert Prepend([], ParseFrom(tokens, 0)) == ParseFrom(tokens, 0) by {
      if ParseFrom(tokens, 0).Ok? {
        assert [] + ParseFrom(tokens, 0).value == ParseFrom(tokens, 0).value;
      }
    }
    while i < |tokens|
      invariant i <= |tokens|
      invariant Monoms(tokens) == Prepend(monoms, ParseFrom(tokens, i))
      decreases |tokens| - i
    {
      var monom := ReadMonom(tokens, i);
      if monom.Err? {
        MonomFails(tokens, i, monoms);
        return Err(monom.error);
      }
      MonomParsed(tokens, i, monoms, monom.value.0, monom.value.1);
      monoms := monoms + [monom.value.0];
      i := monom.value.1;
    }
    assert monoms + [] == monoms;
    r := Ok(monoms);
  }

  /** The body of the loop of Parser::parse: one monom from token i, its
      sign folded into the numerator, and the index after it. */
  method ReadMonom(tokens: seq<Token>, start: nat) returns (r: Result<(Monom, nat)>)
    requires start < |tokens|
    ensures r == ParseMonom(tokens, start)
  {
    var i := start;
    var sign := 1;
    if tokens[i].kind == Add {
      i := i + 1;
    } else if tokens[i].kind == Sub {
      sign := -1;
      i := i + 1;
    }
    if i >= |tokens| {
      return Err(UnexpectedEnd);
    }
    var coefficient := ReadCoefficient(tokens, i);
    if coefficient.Err? {
      return Err(coefficient.error);
    }
    var (numerator, denominator, k) := coefficient.value;
    if sign == -1 {
      if |numerator| > 0 && numerator[0] == '-' {
        numerator := numerator[1..];
      } else {
        numerator := "-" + numerator;
      }
    }
    var degree := ReadDegree(tokens, k);
    if degree.Err? {
      return Err(degree.error);
    }
    r := Ok((Monom(degree.value.0, numerator, denominator), degree.value.1));
  }

  /** Stage 2 of the loop body: the coefficient at token i. */
  method ReadCoefficient(tokens: seq<Token>, i: nat) returns (r: Result<(string, string, nat)>)
    requires i < |tokens|
    ensures r == CoefficientAt(tokens, i)
  {
    var numerator, denominator;
    var next := i;
    if tokens[next].kind == Num {
      numerator := tokens[next].value;
      next := next + 1;
      if next < |tokens| && tokens[next].kind == Div {
        next := next + 1;
        if next >= |tokens| || tokens[next].kind != Num {
          return Err(ExpectedDenominator);
        }
        denominator := tokens[next].value;
        next := next + 1;
      } else {
        denominator := "1";
      }
    } else if tokens[next].kind == X {
      numerator, denominator := "1", "1";
    } else {
      return Err(ExpectedCoefficient);
    }
    r := Ok((numerator, denominator, next));
  }

  /** Stages 4 and 5 of the loop body: the optional `*` and the degree at token i. */
  method ReadDegree(tokens: seq<Token>, i: nat) returns (r: Result<(string, nat)>)
    requires i <= |tokens|
    ensures r == DegreeAt(tokens, i)
  {
    var degree;
    var next := i;
    if next < |tokens| && tokens[next].kind == Mul {
      next := next + 1;
    }
    if next < |tokens| && tokens[next].kind == X {
      next := next + 1;
      if next < |tokens| && tokens[next].kind == Pow {
        next := next + 1;
        if next >= |tokens| || tokens[next].kind != Num {
          return Err(ExpectedExponent);
        }
        degree := tokens[next].value;
        next := next + 1;
      } else {
        degree := "1";
      }
    } else {
      degree := "0";
    }
    r := Ok((degree, next));
  }

  /** A parsed monom moves from the unparsed rest to the parsed prefix. */
  lemma MonomParsed(tokens: seq<Token>, start: nat, monoms: seq<Monom>, m: Monom, next: nat)
    requires start < |tokens| && ParseMonom(tokens, start) == Ok((m, next))
    ensures Prepend(monoms, ParseFrom(tokens, start)) == Prepend(monoms + [m], ParseFrom(tokens, next))
  {
    var rest := ParseFrom(tokens, next);
    if rest.Ok? {
      assert monoms + ([m] + rest.value) == monoms + [m] + rest.value;
    }
  }

  /** A monom that fails makes the whole parse fail the same way. */
  lemma MonomFails(tokens: seq<Token>, start: nat, monoms: seq<Monom>)
    requires start < |tokens| && ParseMonom(tokens, start).Err?
    ensures Prepend(monoms, ParseFrom(tokens, start)) == Err(ParseMonom(tokens, start).error)
  {
  }

  // ---------------------------------------------------------------- failures

  /** A literal that ends in a sign never parses: no monom consumes a sign
      as its last token. */
  lemma {:induction false} TrailingSignFails(tokens: seq<Token>, i: nat)
    requires i <= |tokens| && |tokens| > 0 && tokens[|tokens| - 1].kind in {Add, Sub}
    ensures i < |tokens| ==> ParseFrom(tokens, i).Err?
    decreases |tokens| - i
  {
    if i < |tokens| {
      var first := ParseMonom(tokens, i);
      if first.Ok? && first.value.1 < |tokens| {
        TrailingSignFails(tokens, first.value.1);
      }
    }
  }

  // ---------------------------------------------------------------- shape of the texts

  /** A nonempty decimal numeral. */
  predicate IsNumeral(s: string)
  {
    |s| > 0 && IsDigitString(s)
  }

  /** A numeral with an optional leading `-`. */
  predicate IsSignedNumeral(s: string)
  {
    if |s| > 0 && s[0] == '-' then IsNumeral(s[1..]) else IsNumeral(s)
  }

  /** The texts a monom parsed from lexer tokens carries. */
  predicate Shaped(m: Monom)
  {
    IsSignedNumeral(m.numerator) && IsNumeral(m.denominator) && IsNumeral(m.degree)
  }

  /** Every number token is a numeral, as the lexer guarantees. */
  predicate NumeralTokens(ts: seq<Token>)
  {
    forall i :: 0 <= i < |ts| ==> ts[i].kind == Num ==> IsNumeral(ts[i].value)
  }

  lemma WellLexedNumerals(ts: seq<Token>)
    requires WellLexed(ts)
    ensures NumeralTokens(ts)
  {
    forall i | 0 <= i < |ts| && ts[i].kind == Num
      ensures IsNumeral(ts[i].value)
    {
      assert TokenShaped(ts[i]);
    }
  }

  lemma MonomShaped(tokens: seq<Token>, i: nat)
    requires i < |tokens| && NumeralTokens(tokens) && ParseMonom(tokens, i).Ok?
    ensures Shaped(ParseMonom(tokens, i).value.0)
  {
    var j := if tokens[i].kind == Add || tokens[i].kind == Sub then i + 1 else i;
    CoefficientNumerals(tokens, j);
    var k := CoefficientAt(tokens, j).value.2;
    DegreeNumeral(tokens, k);
    SignedNumeral(tokens[i].kind == Sub, CoefficientAt(tokens, j).value.0);
  }

  /** The numerator and denominator read at a coefficient are numerals. */
  lemma CoefficientNumerals(tokens: seq<Token>, j: nat)
    requires j < |tokens| && NumeralTokens(tokens) && CoefficientAt(tokens, j).Ok?
    ensures IsNumeral(CoefficientAt(tokens, j).value.0) && IsNumeral(CoefficientAt(tokens, j).value.1)
  {
    OneNumeral();
    if tokens[j].kind == Num {
      assert IsNumeral(tokens[j].value);
      if j + 2 < |tokens| && tokens[j + 1].kind == Div {
        assert IsNumeral(tokens[j + 2].value);
      }
    }
  }

  /** The degree read after a coefficient is a numeral. */
  lemma DegreeNumeral(tokens: seq<Token>, k: nat)
    requires k <= |tokens| && NumeralTokens(tokens) && DegreeAt(tokens, k).Ok?
    ensures IsNumeral(DegreeAt(tokens, k).value.0)
  {
    OneNumeral();
    var k' := if k < |tokens| && tokens[k].kind == Mul then k + 1 else k;
    if k' + 2 < |tokens| {
      assert tokens[k' + 2].kind == Num ==> IsNumeral(tokens[k' + 2].value);
    }
  }

  /** "0" and "1" are numerals. */
  lemma OneNumeral()
    ensures IsNumeral("0") && IsNumeral("1")
  {
    assert "0"[..0] == "" && "1"[..0] == "";
  }

  /** A numeral, negated or not, is a signed numeral. */
  lemma SignedNumeral(negative: bool, n: string)
    requires IsNumeral(n)
    ensures IsSignedNumeral(Signed(negative, n))
  {
    if negative {
      assert n[0] != '-';
      assert ("-" + n)[1..] == n;
    }
  }

  /** The monoms parsed from numeral tokens carry numeral texts. */
  lemma {:induction false} ParsedShaped(tokens: seq<Token>, i: nat)
    requires i <= |tokens| && NumeralTokens(tokens) && ParseFrom(tokens, i).Ok?
    ensures forall m :: m in ParseFrom(tokens, i).value ==> Shaped(m)
    decreases |tokens| - i
  {
    if i < |tokens| {
      MonomShaped(tokens, i);
      ParsedShaped(tokens, ParseMonom(tokens, i).value.1);
    }
  }

  /** The monoms of a literal the lexer accepts carry numeral texts. */
  lemma MonomsShaped(tokens: seq<Token>)
    requires WellLexed(tokens) && Monoms(tokens).Ok?
    ensures forall m :: m in Monoms(tokens).value ==> Shaped(m)
  {
    WellLexedNumerals(tokens);
    ParsedShaped(tokens, 0);
  }

  // ---------------------------------------------------------------- printing monoms back

  /** The tokens of a monom written out in full: `±n/d*x^e`. */
  function Spell(m: Monom): seq<Token>
    requires Shaped(m)
  {
    var negative := m.numerator[0] == '-';
    [if negative then Token(Sub, "-") else Token(Add, "+"),
     Token(Num, if negative then m.numerator[1..] else m.numerator),
     Token(Div, "/"), Token(Num, m.denominator), Token(Mul, "*"),
     Token(X, "x"), Token(Pow, "^"), Token(Num, m.degree)]
  }

  function Spelled(ms: seq<Monom>): seq<Token>
    requires forall m :: m in ms ==> Shaped(m)
  {
    if |ms| == 0 then [] else Spell(ms[0]) + Spelled(ms[1..])
  }

  lemma ParseSpell(pre: seq<Token>, m: Monom, post: seq<Token>)
    requires Shaped(m)
    ensures ParseMonom(pre + Spell(m) + post, |pre|) == Ok((m, |pre| + 8))
  {
    SpellInside(pre, Spell(m), post);
    if m.numerator[0] == '-' {
      assert IsDigitChar(m.numerator[1..][0]);
      assert "-" + m.numerator[1..] == m.numerator;
    }
  }

  /** Tokens placed between others keep their positions, shifted. */
  lemma SpellInside(pre: seq<Token>, s: seq<Token>, post: seq<Token>)
    ensures |pre + s + post| == |pre| + |s| + |post|
    ensures forall k :: 0 <= k < |s| ==> (pre + s + post)[|pre| + k] == s[k]
  {
  }

  /** Parsing the spelled-out monoms gives them back. */
  lemma {:induction false} ParseSpelled(pre: seq<Token>, ms: seq<Monom>)
    requires forall m :: m in ms ==> Shaped(m)
    ensures ParseFrom(pre + Spelled(ms), |pre|) == Ok(ms)
    decreases |ms|
  {
    if |ms| == 0 {
      assert pre + Spelled(ms) == pre;
    } else {
      var rest := Spelled(ms[1..]);
      SpelledCons(pre, ms);
      ParseSpell(pre, ms[0], rest);
      ParseSpelled(pre + Spell(ms[0]), ms[1..]);
      assert [ms[0]] + ms[1..] == ms;
    }
  }

  /** The tokens of the first monom, then those of the rest. */
  lemma SpelledCons(pre: seq<Token>, ms: seq<Monom>)
    requires |ms| > 0 && forall m :: m in ms ==> Shaped(m)
    ensures pre + Spelled(ms) == (pre + Spell(ms[0])) + Spelled(ms[1..])
  {
    AppendAssociative(pre, Spell(ms[0]), Spelled(ms[1..]));
  }

  /** Concatenation regroups. */
  lemma AppendAssociative(a: seq<Token>, b: seq<Token>, c: seq<Token>)
    ensures a + (b + c) == (a + b) + c
  {
  }

  /** Parser::parse inverts Spelled. */
  lemma MonomsSpelled(ms: seq<Monom>)
    requires |ms| > 0 && forall m :: m in ms ==> Shaped(m)
    ensures Monoms(Spelled(ms)) == Ok(ms)
  {
    ParseSpelled([], ms);
    assert [] + Spelled(ms) == Spelled(ms);
  }

  /** The spelled tokens are tokens the lexer can produce. */
  lemma {:induction false} SpelledWellLexed(ms: seq<Monom>)
    requires forall m :: m in ms ==> Shaped(m)
    ensures WellLexed(Spelled(ms))
    ensures |ms| > 0 ==> Spelled(ms)[0].kind in {Add, Sub}
  {
    if |ms| > 0 {
      var s, rest := Spell(ms[0]), Spelled(ms[1..]);
      SpelledWellLexed(ms[1..]);
      var ts := s + rest;
      forall i | 0 <= i < |ts|
        ensures TokenShaped(ts[i])
      {
        if i >= |s| {
          assert ts[i] == rest[i - |s|];
        }
      }
      forall i | 0 < i < |ts|
        ensures MayFollow(ts[i - 1], ts[i])
      {
        if i > |s| {
          assert ts[i - 1] == rest[i - 1 - |s|] && ts[i] == rest[i - |s|];
        }
      }
    }
  }

  /** The text of the spelled monoms lexes and parses back to the monoms. */
  lemma TextRoundTrip(ms: seq<Monom>)
    requires |ms| > 0 && forall m :: m in ms ==> Shaped(m)
    ensures Tokenize(Joined(Spelled(ms))) == Ok(Spelled(ms))
    ensures Monoms(Spelled(ms)) == Ok(ms)
  {
    SpelledWellLexed(ms);
    TokenizeJoined(Spelled(ms));
    MonomsSpelled(ms);
  }

  // ---------------------------------------------------------------- the documented examples

  /** A token list that is exactly one monom parses to that monom. */
  lemma OneMonom(tokens: seq<Token>, m: Monom)
    requires |tokens| > 0 && ParseMonom(tokens, 0) == Ok((m, |tokens|))
    ensures Monoms(tokens) == Ok([m])
  {
    assert ParseFrom(tokens, |tokens|) == Ok([]);
    assert [m] + [] == [m];
  }

  /** The examples the parser documents, from text to monom. */
  lemma ExampleSquare()
    ensures Tokenize("3x^2") == Ok([Token(Num, "3"), Token(Mul, "*"), Token(X, "x"), Token(Pow, "^"), Token(Num, "2")])
    ensures Monoms(Tokenize("3x^2").value) == Ok([Monom("2", "3", "1")])
  {
    SquareScanned();
    var t := [Token(Num, "3"), Token(Mul, "*"), Token(X, "x"), Token(Pow, "^"), Token(Num, "2")];
    assert ParseMonom(t, 0) == Ok((Monom("2", "3", "1"), 5));
    OneMonom(t, Monom("2", "3", "1"));
  }

  /** The scan of the square example, one character at a time. */
  lemma SquareScanned()
    ensures Scan([], "3x^2") == Lexed([Token(Num, "3"), Token(Mul, "*"), Token(X, "x"), Token(Pow, "^"), Token(Num, "2")], false)
  {
    assert "3" == "" + ['3'];
    ScanOne([], "", '3');
    assert Scan([], "3") == Lexed([Token(Num, "3")], false);
    assert "3x" == "3" + ['x'];
    ScanOne([], "3", 'x');
    assert Scan([], "3x") == Lexed([Token(Num, "3"), Token(Mul, "*"), Token(X, "x")], false);
    assert "3x^" == "3x" + ['^'];
    ScanOne([], "3x", '^');
    assert Scan([], "3x^") == Lexed([Token(Num, "3"), Token(Mul, "*"), Token(X, "x"), Token(Pow, "^")], false);
    assert "3x^2" == "3x^" + ['2'];
    ScanOne([], "3x^", '2');
    assert Scan([], "3x^2") == Lexed([Token(Num, "3"), Token(Mul, "*"), Token(X, "x"), Token(Pow, "^"), Token(Num, "2")], false);
  }

  lemma ExampleHalf()
    ensures Tokenize("-1/2x") == Ok([Token(Sub, "-"), Token(Num, "1"), Token(Div, "/"), Token(Num, "2"), Token(Mul, "*"), Token(X, "x")])
    ensures Monoms(Tokenize("-1/2x").value) == Ok([Monom("1", "-1", "2")])
  {
    HalfScanned();
    var t := [Token(Sub, "-"), Token(Num, "1"), Token(Div, "/"), Token(Num, "2"), Token(Mul, "*"), Token(X, "x")];
    assert Signed(true, "1") == "-1";
    assert ParseMonom(t, 0) == Ok((Monom("1", "-1", "2"), 6));
    OneMonom(t, Monom("1", "-1", "2"));
  }

  /** The scan of the half example, one character at a time. */
  lemma HalfScanned()
    ensures Scan([], "-1/2x") == Lexed([Token(Sub, "-"), Token(Num, "1"), Token(Div, "/"), Token(Num, "2"), Token(Mul, "*"), Token(X, "x")], false)
  {
    HalfScannedDenominator();
    assert "-1/2x" == "-1/2" + ['x'];
    ScanOne([], "-1/2", 'x');
  }

  /** The scan of the half example up to its fraction bar. */
  lemma HalfScannedFraction()
    ensures Scan([], "-1/") == Lexed([Token(Sub, "-"), Token(Num, "1"), Token(Div, "/")], false)
  {
    assert "-" == "" + ['-'];
    ScanOne([], "", '-');
    assert Scan([], "-") == Lexed([Token(Sub, "-")], false);
    assert "-1" == "-" + ['1'];
    ScanOne([], "-", '1');
    assert Scan([], "-1") == Lexed([Token(Sub, "-"), Token(Num, "1")], false);
    assert "-1/" == "-1" + ['/'];
    ScanOne([], "-1", '/');
    assert Scan([], "-1/") == Lexed([Token(Sub, "-"), Token(Num, "1"), Token(Div, "/")], false);
  }

  /** The scan of the half example up to its denominator. */
  lemma HalfScannedDenominator()
    ensures Scan([], "-1/2") == Lexed([Token(Sub, "-"), Token(Num, "1"), Token(Div, "/"), Token(Num, "2")], false)
  {
    HalfScannedFraction();
    assert "-1/2" == "-1/" + ['2'];
    ScanOne([], "-1/", '2');
  }

  lemma ExampleX()
    ensures Tokenize("x") == Ok([Token(X, "x")])
    ensures Monoms(Tokenize("x").value) == Ok([Monom("1", "1", "1")])
  {
    assert "x" == "" + ['x'];
    ScanOne([], "", 'x');
    assert Scan([], "x") == Lexed([Token(X, "x")], false);
    assert ParseMonom([Token(X, "x")], 0) == Ok((Monom("1", "1", "1"), 1));
    OneMonom([Token(X, "x")], Monom("1", "1", "1"));
  }

  lemma ExampleConstant()
    ensures Tokenize("5") == Ok([Token(Num, "5")])
    ensures Monoms(Tokenize("5").value) == Ok([Monom("0", "5", "1")])
  {
    assert "5" == "" + ['5'];
    ScanOne([], "", '5');
    assert Scan([], "5") == Lexed([Token(Num, "5")], false);
    assert ParseMonom([Token(Num, "5")], 0) == Ok((Monom("0", "5", "1"), 1));
    OneMonom([Token(Num, "5")], Monom("0", "5", "1"));
  }

  lemma ExampleProduct()
    ensures Tokenize("2*x^3") == Ok([Token(Num, "2"), Token(Mul, "*"), Token(X, "x"), Token(Pow, "^"), Token(Num, "3")])
    ensures Monoms(Tokenize("2*x^3").value) == Ok([Monom("3", "2", "1")])
  {
    ProductScanned();
    var t := [Token(Num, "2"), Token(Mul, "*"), Token(X, "x"), Token(Pow, "^"), Token(Num, "3")];
    assert ParseMonom(t, 0) == Ok((Monom("3", "2", "1"), 5));
    OneMonom(t, Monom("3", "2", "1"));
  }

  /** The scan of the product example, one character at a time. */
  lemma ProductScanned()
    ensures Scan([], "2*x^3") == Lexed([Token(Num, "2"), Token(Mul, "*"), Token(X, "x"), Token(Pow, "^"), Token(Num, "3")], false)
  {
    ProductScannedX();
    assert "2*x^" == "2*x" + ['^'];
    ScanOne([], "2*x", '^');
    assert Scan([], "2*x^") == Lexed([Token(Num, "2"), Token(Mul, "*"), Token(X, "x"), Token(Pow, "^")], false);
    assert "2*x^3" == "2*x^" + ['3'];
    ScanOne([], "2*x^", '3');
    assert Scan([], "2*x^3") == Lexed([Token(Num, "2"), Token(Mul, "*"), Token(X, "x"), Token(Pow, "^"), Token(Num, "3")], false);
  }

  /** The scan of the product example up to its `x`. */
  lemma ProductScannedX()
    ensures Scan([], "2*x") == Lexed([Token(Num, "2"), Token(Mul, "*"), Token(X, "x")], false)
  {
    assert "2" == "" + ['2'];
    ScanOne([], "", '2');
    assert Scan([], "2") == Lexed([Token(Num, "2")], false);
    assert "2*" == "2" + ['*'];
    ScanOne([], "2", '*');
    assert Scan([], "2*") == Lexed([Token(Num, "2"), Token(Mul, "*")], false);
    assert "2*x" == "2*" + ['x'];
    ScanOne([], "2*", 'x');
    assert Scan([], "2*x") == Lexed([Token(Num, "2"), Token(Mul, "*"), Token(X, "x")], false);
  }
}
