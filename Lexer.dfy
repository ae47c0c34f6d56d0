/** The lexer of polynomial literals (src/Validator/Utils/Lexer.cpp).

    `CreateTokens` walks the input once, skipping white space, growing the
    last number token digit by digit and inserting a `*` between a number and
    a directly following `x`. The walk is specified by `Scan`, a left fold of
    `Step` over the characters; a push that fails stops the walk and leaves
    the tokens pushed so far. */
module Lexer {
  import opened Failures
  import opened NaturalNumber
  import opened Token

  /** std::isspace in the C locale: space, tab, newline, vertical tab, form
      feed and carriage return. */
  predicate IsSpace(c: char)
  {
    c == ' ' || 9 <= c as int <= 13
  }

  /** A character the lexer accepts. */
  predicate Lexable(c: char)
  {
    IsSpace(c) || IsSymbol(c) || IsDigitChar(c)
  }

  /** The token list after part of the input, and whether a push failed. */
  datatype Lexed = Lexed(tokens: seq<Token>, failed: bool)

  /** push_token: append the token of `c`, or fail on a character that makes
      no token. */
  function Push(tokens: seq<Token>, c: char): Lexed
  {
    var t := CreateToken(c);
    if t.Ok? then Lexed(tokens + [t.value], false) else Lexed(tokens, true)
  }

  /** One pass of CreateTokens' loop body. */
  function Step(tokens: seq<Token>, c: char): Lexed
  {
    if IsSpace(c) then Lexed(tokens, false)
    else if !IsDigitChar(c) && c != 'x' then Push(tokens, c)
    else if |tokens| == 0 || tokens[|tokens| - 1].kind != Num then Push(tokens, c)
    else if c != 'x' then
      var last := tokens[|tokens| - 1];
      Lexed(tokens[|tokens| - 1 := last.(value := last.value + [c])], false)
    else Push(Push(tokens, '*').tokens, 'x')
  }

  /** The loop over the whole of `s`, starting from the tokens `start`. */
  function Scan(start: seq<Token>, s: string): Lexed
  {
    if |s| == 0 then Lexed(start, false)
    else
      var before := Scan(start, s[..|s| - 1]);
      if before.failed then before else Step(before.tokens, s[|s| - 1])
  }

  /** Scanning `t` after a state that may already have failed. */
  function Resume(l: Lexed, t: string): Lexed
  {
    if l.failed then l else Scan(l.tokens, t)
  }

  /** The tokens a fresh lexer produces for `s`. */
  function Tokenize(s: string): (r: Result<seq<Token>>)
    ensures r.Ok? <==> |s| > 0 && forall i :: 0 <= i < |s| ==> Lexable(s[i])
    ensures r.Err? ==> r.error == (if |s| == 0 then EmptyInput else InvalidToken)
    ensures r.Ok? ==> WellLexed(r.value)
  {
    if |s| == 0 then Err(EmptyInput)
    else
      ScanSucceedsIff([], s);
      ScanWellLexed(s);
      var l := Scan([], s);
      if l.failed then Err(InvalidToken) else Ok(l.tokens)
  }

  class Lexer {
    var input: string
    var tokens: seq<Token>

    /** The lexer keeps its input and starts with no tokens. */
    constructor (input: string)
      ensures this.input == input && tokens == []
    {
      this.input := input;
      tokens := [];
    }

    /** GetTokens. */
    function GetTokens(): seq<Token>
      reads this
    {
      tokens
    }

    /** push_token. */
    method PushToken(ch: char) returns (o: Outcome)
      modifies this
      ensures input == old(input)
      ensures tokens == Push(old(tokens), ch).tokens
      ensures o.Fail? <==> Push(old(tokens), ch).failed
      ensures o.Fail? ==> o.error == InvalidToken
    {
      var t := CreateToken(ch);
      if t.Err? {
        return Fail(InvalidToken);
      }
      tokens := tokens + [t.value];
      o := Pass;
    }

    /** CreateTokens: fails on an empty input; otherwise the tokens become
        those of `Scan` over the input, and the call fails exactly when a
        character makes no token. */
    method CreateTokens() returns (o: Outcome)
      modifies this
      ensures input == old(input)
      ensures |input| == 0 ==> o == Fail(EmptyInput) && tokens == old(tokens)
      ensures |input| > 0 ==> tokens == Scan(old(tokens), input).tokens
      ensures |input| > 0 ==> (o.Fail? <==> Scan(old(tokens), input).failed)
      ensures o.Fail? ==> o.error == (if |input| == 0 then EmptyInput else InvalidToken)
    {
      if |input| == 0 {
        return Fail(EmptyInput);
      }
      for i := 0 to |input|
        invariant input == old(input)
        invariant Scan(old(tokens), input[..i]) == Lexed(tokens, false)
      {
        var ch := input[i];
        assert input[..i + 1][..i] == input[..i];
        if IsSpace(ch) {
          continue;
        }
        if !IsDigitChar(ch) && ch != 'x' {
          o := PushToken(ch);
          if o.Fail? {
            ScanStopped(old(tokens), input, i + 1);
            return;
          }
          continue;
        }
        if |tokens| == 0 {
          o := PushToken(ch);
          continue;
        }
        var last := tokens[|tokens| - 1];
        if last.kind != Num {
          o := PushToken(ch);
          continue;
        }
        if ch != 'x' {
          tokens := tokens[|tokens| - 1 := last.(value := last.value + [ch])];
          continue;
        }
        o := PushToken('*');
        o := PushToken('x');
      }
      assert input[..|input|] == input;
      o := Pass;
    }
  }

  // ---------------------------------------------------------------- the fold

  /** Once a push has failed the rest of the input changes nothing. */
  lemma {:induction false} ScanStopped(start: seq<Token>, s: string, k: nat)
    requires k <= |s| && Scan(start, s[..k]).failed
    ensures Scan(start, s) == Scan(start, s[..k])
    decreases |s|
  {
    if k < |s| {
      assert s[..|s| - 1][..k] == s[..k];
      ScanStopped(start, s[..|s| - 1], k);
    } else {
      assert s[..k] == s;
    }
  }

  /** Scanning a concatenation scans the second part from where the first left off. */
  lemma {:induction false} ScanAppend(start: seq<Token>, s: string, t: string)
    ensures Scan(start, s + t) == Resume(Scan(start, s), t)
    decreases |t|
  {
    if |t| == 0 {
      assert s + t == s;
    } else {
      assert (s + t)[..|s + t| - 1] == s + t[..|t| - 1];
      ScanAppend(start, s, t[..|t| - 1]);
    }
  }

  /** Scanning one more character is one more step, unless the scan has failed. */
  lemma ScanOne(start: seq<Token>, s: string, c: char)
    ensures Scan(start, s + [c]) == Resume(Scan(start, s), [c])
  {
    ScanAppend(start, s, [c]);
  }

  /** A step fails exactly on a character the lexer does not accept. */
  lemma StepFails(tokens: seq<Token>, c: char)
    ensures Step(tokens, c).failed <==> !Lexable(c)
  {
  }

  /** The walk succeeds exactly when every character is accepted. */
  lemma {:induction false} ScanSucceedsIff(start: seq<Token>, s: string)
    ensures !Scan(start, s).failed <==> forall i :: 0 <= i < |s| ==> Lexable(s[i])
  {
    if |s| > 0 {
      var p := s[..|s| - 1];
      ScanSucceedsIff(start, p);
      StepFails(Scan(start, p).tokens, s[|s| - 1]);
      assert forall i :: 0 <= i < |p| ==> p[i] == s[i];
    }
  }

  // ---------------------------------------------------------------- white space

  /** The input with its white space removed. */
  function WithoutSpaces(s: string): (t: string)
    ensures forall i :: 0 <= i < |t| ==> !IsSpace(t[i])
  {
    if |s| == 0 then ""
    else WithoutSpaces(s[..|s| - 1]) + (if IsSpace(s[|s| - 1]) then "" else [s[|s| - 1]])
  }

  /** White space produces no token and separates nothing: `1 2` lexes as `12`. */
  lemma {:induction false} SpacesIgnored(start: seq<Token>, s: string)
    ensures Scan(start, s) == Scan(start, WithoutSpaces(s))
  {
    if |s| > 0 {
      var p, c := s[..|s| - 1], s[|s| - 1];
      SpacesIgnored(start, p);
      var w := WithoutSpaces(s);
      if IsSpace(c) {
        assert w == WithoutSpaces(p);
      } else {
        assert w == WithoutSpaces(p) + [c];
        assert w[..|w| - 1] == WithoutSpaces(p) && w[|w| - 1] == c;
      }
    }
  }

  /** Lexing ignores white space as long as something else remains. */
  lemma TokenizeIgnoresSpaces(s: string)
    requires |WithoutSpaces(s)| > 0
    ensures Tokenize(s) == Tokenize(WithoutSpaces(s))
  {
    SpacesIgnored([], s);
  }

  // ---------------------------------------------------------------- shape of the tokens

  /** A token as the lexer leaves it: a number is a nonempty run of digits,
      any other token is the single character its kind stands for. */
  predicate TokenShaped(t: Token)
  {
    if t.kind == Num then |t.value| > 0 && IsDigitString(t.value)
    else |t.value| == 1 && Code(t.kind) == t.value[0] as int
  }

  /** A number token is never directly followed by a number or an `x`. */
  predicate MayFollow(a: Token, b: Token)
  {
    a.kind == Num ==> b.kind != Num && b.kind != X
  }

  /** The tokens the lexer produces: shaped, and a number is maximal and
      separated from a following `x` by a `*`. */
  predicate WellLexed(ts: seq<Token>)
  {
    (forall i :: 0 <= i < |ts| ==> TokenShaped(ts[i]))
    && (forall i :: 0 < i < |ts| ==> MayFollow(ts[i - 1], ts[i]))
  }

  lemma WellLexedPush(ts: seq<Token>, t: Token)
    requires WellLexed(ts) && TokenShaped(t) && (|ts| > 0 ==> MayFollow(ts[|ts| - 1], t))
    ensures WellLexed(ts + [t])
  {
    var u := ts + [t];
    forall i | 0 < i < |u|
      ensures MayFollow(u[i - 1], u[i])
    {
      if i < |ts| {
        assert u[i - 1] == ts[i - 1] && u[i] == ts[i];
      }
    }
  }

  /** Every step keeps the token list well lexed. */
  lemma StepWellLexed(ts: seq<Token>, c: char)
    requires WellLexed(ts)
    ensures WellLexed(Step(ts, c).tokens)
  {
    if IsSpace(c) {
    } else if !IsDigitChar(c) && c != 'x' {
      if CreateToken(c).Ok? {
        WellLexedPush(ts, CreateToken(c).value);
      }
    } else if |ts| == 0 || ts[|ts| - 1].kind != Num {
      WellLexedPush(ts, CreateToken(c).value);
    } else if c != 'x' {
      var last := ts[|ts| - 1];
      var grown := last.(value := last.value + [c]);
      var p := ts[..|ts| - 1];
      assert ts == p + [last];
      assert WellLexed(p);
      assert TokenShaped(last);
      assert TokenShaped(grown);
      if |p| > 0 {
        assert MayFollow(ts[|ts| - 2], last);
        assert MayFollow(p[|p| - 1], grown);
      }
      WellLexedPush(p, grown);
      assert Step(ts, c).tokens == p + [grown];
    } else {
      WellLexedPush(ts, Token(Mul, "*"));
      WellLexedPush(ts + [Token(Mul, "*")], Token(X, "x"));
    }
  }

  /** The lexer's output from an empty start is well lexed. */
  lemma {:induction false} ScanWellLexed(s: string)
    ensures WellLexed(Scan([], s).tokens)
  {
    if |s| > 0 {
      ScanWellLexed(s[..|s| - 1]);
      StepWellLexed(Scan([], s[..|s| - 1]).tokens, s[|s| - 1]);
    }
  }

  // ---------------------------------------------------------------- printing tokens back

  /** The texts of the tokens, one after the other. */
  function Joined(ts: seq<Token>): string
  {
    if |ts| == 0 then "" else Joined(ts[..|ts| - 1]) + ts[|ts| - 1].value
  }

  /** A run of digits after a token that is not a number becomes one number token. */
  lemma {:induction false} ScanDigits(p: seq<Token>, d: string)
    requires |d| > 0 && IsDigitString(d)
    requires |p| == 0 || p[|p| - 1].kind != Num
    ensures Scan(p, d) == Lexed(p + [Token(Num, d)], false)
  {
    var c := d[|d| - 1];
    if |d| == 1 {
      assert d[..0] == "";
      assert d == [c];
    } else {
      var e := d[..|d| - 1];
      ScanDigits(p, e);
      assert e + [c] == d;
    }
  }

  /** A single well-placed token reads back as itself. */
  lemma ScanToken(p: seq<Token>, t: Token)
    requires WellLexed(p + [t])
    ensures Scan(p, t.value) == Lexed(p + [t], false)
  {
    var u := p + [t];
    assert TokenShaped(u[|p|]);
    if |p| > 0 {
      assert MayFollow(u[|p| - 1], u[|p|]);
    }
    if t.kind == Num {
      ScanDigits(p, t.value);
    } else {
      var c := t.value[0];
      assert t.value[..0] == "";
      assert Scan(p, t.value) == Step(p, c);
      assert t.value == [c];
      match t.kind
      case Mul => assert c == '*';
      case Add => assert c == '+';
      case Sub => assert c == '-';
      case Div => assert c == '/';
      case Pow => assert c == '^';
      case X => assert c == 'x';
    }
  }

  /** Lexing the printed tokens gives back the tokens: for a well-lexed list
      the lexer is the inverse of printing. */
  lemma {:induction false} ScanJoined(ts: seq<Token>)
    requires WellLexed(ts)
    ensures Scan([], Joined(ts)) == Lexed(ts, false)
  {
    if |ts| > 0 {
      var p, t := ts[..|ts| - 1], ts[|ts| - 1];
      assert ts == p + [t];
      assert WellLexed(p);
      ScanJoined(p);
      ScanAppend([], Joined(p), t.value);
      ScanToken(p, t);
    }
  }

  /** Eight tokens join to their eight texts. */
  lemma JoinedEight(ts: seq<Token>)
    requires |ts| == 8
    ensures Joined(ts) == ts[0].value + ts[1].value + ts[2].value + ts[3].value
      + ts[4].value + ts[5].value + ts[6].value + ts[7].value
  {
    assert ts[..1][..0] == [];
    assert Joined(ts[..1]) == ts[0].value;
    assert ts[..2][..1] == ts[..1];
    assert Joined(ts[..2]) == Joined(ts[..1]) + ts[1].value;
    assert ts[..3][..2] == ts[..2];
    assert Joined(ts[..3]) == Joined(ts[..2]) + ts[2].value;
    assert ts[..4][..3] == ts[..3];
    assert Joined(ts[..4]) == Joined(ts[..3]) + ts[3].value;
    assert ts[..5][..4] == ts[..4];
    assert Joined(ts[..5]) == Joined(ts[..4]) + ts[4].value;
    assert ts[..6][..5] == ts[..5];
    assert Joined(ts[..6]) == Joined(ts[..5]) + ts[5].value;
    assert ts[..7][..6] == ts[..6];
    assert Joined(ts[..7]) == Joined(ts[..6]) + ts[6].value;
    assert ts[..8][..7] == ts[..7];
    assert Joined(ts[..8]) == Joined(ts[..7]) + ts[7].value;
    assert ts[..8] == ts;
  }

  /** Printing a concatenation prints the two parts one after the other. */
  lemma {:induction false} JoinedAppend(a: seq<Token>, b: seq<Token>)
    ensures Joined(a + b) == Joined(a) + Joined(b)
    decreases |b|
  {
    if |b| > 0 {
      var c := a + b;
      assert c[..|c| - 1] == a + b[..|b| - 1];
      JoinedAppend(a, b[..|b| - 1]);
    } else {
      assert a + b == a;
    }
  }

  /** The printed text of a nonempty well-lexed list is nonempty. */
  lemma {:induction false} JoinedNonempty(ts: seq<Token>)
    requires WellLexed(ts) && |ts| > 0
    ensures |Joined(ts)| > 0
  {
    assert TokenShaped(ts[|ts| - 1]);
  }

  /** Tokenize inverts Joined on well-lexed lists, so the two agree on which
      token lists a literal can produce. */
  lemma TokenizeJoined(ts: seq<Token>)
    requires WellLexed(ts) && |ts| > 0
    ensures Tokenize(Joined(ts)) == Ok(ts)
  {
    JoinedNonempty(ts);
    ScanJoined(ts);
  }

  /** A number directly followed by `x` gets an implicit `*`. */
  lemma ImplicitProduct()
    ensures Tokenize("12x") == Ok([Token(Num, "12"), Token(Mul, "*"), Token(X, "x")])
  {
    assert "12x"[..2] == "12" && "12"[..1] == "1" && "1"[..0] == "";
    assert Scan([], "1") == Lexed([Token(Num, "1")], false);
    assert "1" + ['2'] == "12";
    assert Scan([], "12") == Lexed([Token(Num, "12")], false);
    assert Scan([], "12x") == Step([Token(Num, "12")], 'x');
    assert Push([Token(Num, "12")], '*').tokens == [Token(Num, "12"), Token(Mul, "*")];
    assert Scan([], "12x") == Lexed([Token(Num, "12"), Token(Mul, "*"), Token(X, "x")], false);
  }
}
