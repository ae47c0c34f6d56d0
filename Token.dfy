/** The tokens of a polynomial literal (src/Validator/Utils/Token.h,
    src/Validator/Utils/Token.cpp).

    A token has a kind and the text it was made from. Tokens are built one
    character at a time by `CreateToken`; the lexer later grows a number
    token by appending digits to its text. */
module Token {
  import opened Failures
  import opened NaturalNumber

  /** The token kinds. */
  datatype TokenType = Mul | Add | Sub | Div | Pow | X | Num

  /** The underlying value of each kind: the operator kinds and X are their
      own character, and Num, declared after X, is one past 'x'. */
  function Code(t: TokenType): int
  {
    match t
    case Mul => '*' as int
    case Add => '+' as int
    case Sub => '-' as int
    case Div => '/' as int
    case Pow => '^' as int
    case X => 'x' as int
    case Num => 'x' as int + 1
  }

  /** No two kinds share a value, so Num is distinct from every operator. */
  lemma CodeInjective(s: TokenType, t: TokenType)
    ensures Code(s) == Code(t) <==> s == t
  {
  }

  datatype Token = Token(kind: TokenType, value: string)

  /** The characters that are tokens on their own. */
  predicate IsSymbol(c: char)
  {
    c == '+' || c == '*' || c == '-' || c == '/' || c == '^' || c == 'x'
  }

  /** CreateToken: a symbol becomes the kind whose value is that character,
      a decimal digit becomes Num, anything else is an invalid token. The
      token's text is the one character it was made from. */
  function CreateToken(c: char): (r: Result<Token>)
    ensures r.Ok? <==> IsSymbol(c) || IsDigitChar(c)
    ensures r.Err? ==> r.error == InvalidToken
    ensures r.Ok? ==> r.value.value == [c]
    ensures r.Ok? ==> (r.value.kind == Num <==> IsDigitChar(c))
    ensures r.Ok? && r.value.kind != Num ==> Code(r.value.kind) == c as int
  {
    match c
    case '+' => Ok(Token(Add, [c]))
    case '*' => Ok(Token(Mul, [c]))
    case '-' => Ok(Token(Sub, [c]))
    case '/' => Ok(Token(Div, [c]))
    case '^' => Ok(Token(Pow, [c]))
    case 'x' => Ok(Token(X, [c]))
    case _ => if IsDigitChar(c) then Ok(Token(Num, [c])) else Err(InvalidToken)
  }

  /** Two characters that make tokens make the same token only when they
      are the same character. */
  lemma CreateTokenInjective(c: char, d: char)
    requires CreateToken(c).Ok? && CreateToken(d).Ok?
    ensures CreateToken(c) == CreateToken(d) <==> c == d
  {
  }

  /** operator==: the kinds and the texts agree. */
  function Equals(a: Token, b: Token): (r: bool)
    ensures r <==> a == b
  {
    a.kind == b.kind && a.value == b.value
  }
}
