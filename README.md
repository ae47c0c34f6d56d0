# DMaTGColloquium arithmetic tower, in Dafny

This project models the exact-arithmetic core of DMaTGColloquium and proves properties of the model. The core has four layers, each built on base-10 digit vectors:

- `NaturalNumber`: an unsigned number stored as a little-endian vector of decimal digits.
- `IntegerNumber`: a sign flag over a Natural magnitude.
- `RationalNumber`: an Integer numerator over a Natural denominator.
- `Polynomial`: a vector of Rationals, where index i holds the coefficient of x^i.

The model also covers the literal front end. `Validator` checks and normalises natural, integer and rational literals. For polynomial literals such as `x^3+2/5x^2+3x+4`, `Lexer` and `Token` turn the text into tokens, `Parser` turns the tokens into monoms, and the validator fills a coefficient vector from the monoms.

Each layer has an abstraction function, and every operation is proved against it:

- `NaturalNumber.Val`: the value of a digit vector, Σ d_i·10^i.
- `IntegerNumber.IVal`: the signed value.
- `RationalNumber.RVal`: the value as a `real`.
- `Polynomial.Values`: the sequence of coefficient values.

Polynomial algebra (sum, scaling, shift, convolution, derivative, divisibility, linear combinations) is stated on `seq<real>` in `PolyMath` and `PolyAlgebra`. Shared integer facts (powers of ten, divisibility, gcd and lcm) are in `Arith`. `Failures` holds the `Result`/`Outcome` types and one error constructor per exception the source throws.

The model follows the source's shape:

- Natural operations are methods. Their digit loops fill result vectors with carry and borrow, and the loop invariants tie the partial result to `Val`.
- `increment` rewrites a `Natural` object's digit field in place.
- Integer and Rational operations are functions, except two:
  - the repeated-subtraction Integer quotient is a method with a loop;
  - the Integer remainder is a method, because it calls that quotient.
- The pointer-owning copy and move operations of `IntegerNumber` are a class (`IntegerObject`).
- `RationalObject` models `reduce` rewriting the fields of a `const` object, which `toString` and `isInteger` trigger.
- Polynomial operations with loops are methods over the coefficient sequence.
- The lexer is a class whose token list is a field the methods reassign.
- The parser and the validators are methods proved equal to specification functions. Lemmas then state the meaning of those functions.

## Model

| member | source | states |
|---|---|---|
| NaturalNumber.FromNat | src/NaturalNumber.cpp:24-32 | the canonical digit vector of n: no most-significant zero, never empty, value n |
| NaturalNumber.CanonicalUnique | src/NaturalNumber.cpp:48-57 | a canonical vector is determined by its value: it equals FromNat of its value |
| NaturalNumber.FromMachine | src/NaturalNumber.cpp:24-32 | the unsigned-64-bit constructor gives the canonical digits of a (`[0]` for zero) |
| NaturalNumber.FromVector | src/NaturalNumber.cpp:48-57 | the vector constructor fails with EmptyInput exactly on an empty vector; otherwise it pops most-significant zeros only, keeps a prefix of the input, and keeps its value |
| NaturalNumber.Trimmed | src/NaturalNumber.cpp:54-56 | popping trailing zero digits while more than one digit remains gives a canonical prefix with the same value |
| NaturalNumber.FromString | src/NaturalNumber.cpp:34-46 | the string constructor fails exactly on the empty string and otherwise stores the characters' digits least significant first, leading zeros included |
| NaturalNumber.ToString | src/NaturalNumber.cpp:10-18 | toString fails exactly on an empty vector and otherwise prints the digits most significant first |
| NaturalNumber.RenderRoundTrip | src/NaturalNumber.cpp:10-46 | parsing the printed digits gives back the digit vector |
| NaturalNumber.DigitsOfRoundTrip | src/NaturalNumber.cpp:10-46 | printing the parsed digits of a digit string gives back the string |
| NaturalNumber.IsNotEqualZero | src/NaturalNumber.cpp:319-321 | on a canonical vector, true exactly when the value is not zero |
| NaturalNumber.Cmp | src/NaturalNumber.cpp:169-183 | 2, 1 or 0 exactly when a > b, a < b or a = b |
| NaturalNumber.Natural.constructor | src/NaturalNumber.cpp:48-51 | the object holds the given digits |
| NaturalNumber.Natural.Increment | src/NaturalNumber.cpp:186-194 | in place, the value grows by one; the length grows by one exactly when every digit was 9; canonical form is kept |
| NaturalNumber.Add | src/NaturalNumber.cpp:197-215 | canonical digits of a + b |
| NaturalNumber.Subtract | src/NaturalNumber.cpp:219-241 | fails with Underflow exactly when b > a; otherwise canonical digits of a − b (`[0]` on equal operands) |
| NaturalNumber.MultiplyByDigit | src/NaturalNumber.cpp:244-263 | fails exactly when the digit is above 9; otherwise canonical digits of a·d |
| NaturalNumber.MultiplyByPowerOfTen | src/NaturalNumber.cpp:266-287 | canonical digits of a·10^k; a nonzero a gets k zero digits prepended |
| NaturalNumber.Multiply | src/NaturalNumber.cpp:290-316 | canonical digits of a·b |
| NaturalNumber.SubtractMultiplied | src/NaturalNumber.cpp:324-334 | fails when c > 9 or b·c > a, with the matching error; otherwise canonical digits of a − b·c |
| NaturalNumber.GetFirstDivisionDigit | src/NaturalNumber.cpp:337-366 | fails on a zero divisor or a divisor larger than a; otherwise returns d·10^k with 1 ≤ d and d·10^k·b ≤ a < (d+1)·10^k·b |
| NaturalNumber.Quotient | src/NaturalNumber.cpp:61-115 | fails exactly on a zero divisor; otherwise canonical digits of a div b |
| NaturalNumber.Remainder | src/NaturalNumber.cpp:118-132 | fails exactly on a zero divisor; otherwise canonical digits of a mod b, and a itself when a < b |
| NaturalNumber.GCD | src/NaturalNumber.cpp:135-154 | fails exactly when both operands are zero; otherwise the greatest common divisor, and a itself when b is zero |
| NaturalNumber.LCM | src/NaturalNumber.cpp:157-166 | fails exactly when either operand is zero; otherwise canonical digits of a·b / gcd(a,b), the least common multiple by Arith.LcmIsLeast |
| Arith.GcdDivides | src/NaturalNumber.cpp:135-154 | the gcd computed by the Euclidean loop divides both operands |
| Arith.CommonDivisorDividesGcd | src/NaturalNumber.cpp:135-154 | every common divisor divides the gcd, so it is the greatest |
| Arith.LcmIsCommonMultiple | src/NaturalNumber.cpp:157-166 | a·b / gcd(a,b) is a positive common multiple of a and b |
| Arith.LcmIsLeast | src/NaturalNumber.cpp:157-166 | a·b / gcd(a,b) divides every common multiple of a and b, so it is the least |
| IntegerNumber.FromInt | IntegerNumber.cpp:22-25 | the canonical Integer of v; zero is never flagged negative |
| IntegerNumber.IntegerUnique | IntegerNumber.cpp:22-25 | a valid Integer whose zero is unflagged is FromInt of its value |
| IntegerNumber.Make | src/IntegerNumber.h:13-15 | the (digits, sign) constructor stores the flag as given and trims the magnitude without changing its value |
| IntegerNumber.FromString | IntegerNumber.cpp:12-20 | fails on the empty string (and on a lone `-`, whose magnitude is empty); a leading `-` sets the flag and the rest is the magnitude |
| IntegerNumber.FromMachine | IntegerNumber.cpp:22-25 | the signed-64-bit constructor has value a and is negative exactly when a < 0 |
| IntegerNumber.ToStringRoundTrip | IntegerNumber.cpp:27-29 | parsing the printed Integer gives it back |
| IntegerNumber.GetSign | IntegerNumber.cpp:111-116 | 0 exactly for value zero whatever the flag, 1 for negative, 2 for positive |
| IntegerNumber.Abs | IntegerNumber.cpp:106-108 | the magnitude has value abs(x) |
| IntegerNumber.Negate | IntegerNumber.cpp:119-121 | value −x, same magnitude, flag flipped (also on zero) |
| IntegerNumber.NegateInvolution | IntegerNumber.cpp:119-121 | negating twice gives back the same Integer |
| IntegerNumber.NegateZero | IntegerNumber.cpp:111-121 | negating zero flips its flag, keeps value 0 and sign code 0 |
| IntegerNumber.ToInteger | IntegerNumber.cpp:124-126 | a non-negative Integer with the Natural's value |
| IntegerNumber.ToNatural | IntegerNumber.cpp:129-134 | fails exactly on a negative flag; otherwise the magnitude, whose value is the Integer's |
| IntegerNumber.Add | IntegerNumber.cpp:137-159 | value a + b; equal sign codes keep a's flag; differing sign codes give an unflagged zero, or else the flag of the operand of larger magnitude |
| IntegerNumber.Subtract | IntegerNumber.cpp:162-165 | value a − b, computed as add(a, negate(b)) |
| IntegerNumber.Multiply | IntegerNumber.cpp:36-55 | value a·b; a zero product is never flagged negative |
| IntegerNumber.SignedProduct | IntegerNumber.cpp:47-54 | for nonzero operands, a·b is |a|·|b|, negated exactly when the flags differ |
| IntegerNumber.Quotient | IntegerNumber.cpp:58-78 | fails exactly on a zero divisor; otherwise the repeated-subtraction loop gives the quotient truncated toward zero |
| IntegerNumber.RemainderAsWritten | IntegerNumber.cpp:81-103 | fails exactly on a zero divisor; gives a when |a| < |b|; otherwise magnitude |a| mod |b| with the flag always set |
| IntegerNumber.RemainderSignCounterexample | IntegerNumber.cpp:102 | for 7 rem 3 the as-written result is −1 where the truncated remainder is 1 |
| IntegerNumber.Remainder | IntegerNumber.cpp:81-103 | fails exactly on a zero divisor; otherwise the truncated remainder a − b·trunc(a/b), and a itself when |a| < |b|; a computed remainder is flagged exactly when negative, so an exact division gives an unflagged zero |
| IntegerNumber.IntegerObject.Copy | src/IntegerNumber.h:19 | copy construction makes a fresh magnitude with the same value and flag |
| IntegerNumber.IntegerObject.Move | src/IntegerNumber.h:20 | move construction takes the source's magnitude and flag and leaves the source empty |
| IntegerNumber.IntegerObject.CopyAssign | src/IntegerNumber.h:22-29 | self-assignment changes nothing; otherwise the target gets a fresh copy of the source's value |
| IntegerNumber.IntegerObject.MoveAssign | src/IntegerNumber.h:30-38 | the target takes the source's magnitude and flag; a distinct source is left empty, its flag untouched |
| RationalNumber.Make | RationalNumber.h:13-16 | the (Integer, Natural) constructor stores both parts unreduced |
| RationalNumber.FromStrings | src/RationalNumber.cpp:13-16 | fails exactly when the numerator or the denominator text is empty (or the numerator is a lone `-`); otherwise the parsed parts, denominator digits kept as written |
| RationalNumber.AsUnsigned | src/RationalNumber.cpp:10 | a long long converted to unsigned long long: the value below 2^64 congruent to it modulo 2^64 |
| RationalNumber.FromMachine | src/RationalNumber.cpp:8-11 | the long-long pair constructor has the given numerator value and, as denominator, the long long denominator converted to unsigned long long (the value itself when not negative) |
| RationalNumber.FirstSlash | src/RationalNumber.cpp:32 | the position of the first `/`, or the length when there is none |
| RationalNumber.FromString | src/RationalNumber.cpp:31-42 | without `/` the text is an Integer over 1; otherwise it splits at the first `/` |
| RationalNumber.JoinRoundTrip | src/RationalNumber.cpp:18-42 | parsing `numerator/denominator` text gives back the Rational |
| RationalNumber.FromInteger | src/RationalNumber.cpp:93-96 | the Integer over denominator 1, with the same value |
| RationalNumber.Reduced | src/RationalNumber.cpp:45-72 | fails exactly when numerator and denominator are both zero (gcd undefined); otherwise the parts are coprime, the value is kept, and a zero denominator stays zero |
| RationalNumber.ReduceIdempotent | src/RationalNumber.cpp:45-72 | reducing a reduced Rational changes nothing |
| RationalNumber.ReducedDenominator | src/RationalNumber.cpp:45-72 | the reduced denominator is the denominator divided by gcd(|numerator|, denominator) |
| RationalNumber.ToStringRoundTrip | src/RationalNumber.cpp:18-21 | toString prints the reduced Rational, and parsing the text gives the reduced Rational |
| RationalNumber.IsIntegral | src/RationalNumber.cpp:76-90 | fails with reduction; otherwise true exactly when the reduced denominator is `[1]`, that is when the denominator divides the numerator |
| RationalNumber.IntegralIffDivides | src/RationalNumber.cpp:76-90 | the reduced denominator is 1 exactly when the denominator divides the numerator |
| RationalNumber.ToInteger | src/RationalNumber.cpp:99-112 | fails with NotAnInteger unless the Rational is integral; otherwise the reduced numerator, with the Rational's value |
| RationalNumber.Add | src/RationalNumber.cpp:115-137 | fails exactly when a denominator is zero (lcm undefined); otherwise the denominator is lcm(d1, d2) and the value is a + b |
| RationalNumber.Subtract | src/RationalNumber.cpp:140-161 | fails exactly when a denominator is zero; otherwise the denominator is lcm(d1, d2) and the value is a − b |
| RationalNumber.CommonDenominator | src/RationalNumber.cpp:121-124 | lcm(d1, d2) is a positive multiple of each denominator |
| RationalNumber.Multiply | src/RationalNumber.cpp:164-169 | unreduced (n1·n2)/(d1·d2), whose value is the product |
| RationalNumber.Division | src/RationalNumber.cpp:172-187 | fails exactly when the divisor's numerator is zero; otherwise (n1·d2)/(d1·|n2|) with n2's sign in the numerator, whose value is the quotient |
| RationalNumber.RationalObject.constructor | RationalNumber.h:13-16 | the object holds the given Rational |
| RationalNumber.RationalObject.Reduce | src/RationalNumber.cpp:45-72 | in place, the fields become the reduced Rational; on failure they are unchanged |
| RationalNumber.RationalObject.ToString | src/RationalNumber.cpp:18-21 | returns the printed reduced Rational and leaves the object reduced |
| RationalNumber.RationalObject.IsInteger | src/RationalNumber.cpp:76-90 | returns IsIntegral and leaves the object reduced |
| Polynomial.Values | src/Polynomial.h:57 | the coefficient values, index by index |
| Polynomial.ZeroCoefficientsIff | src/Polynomial.cpp:89-90 | a coefficient has a zero numerator exactly when its value is zero |
| Polynomial.FromVector | src/Polynomial.h:18 | the explicit vector constructor stores the coefficients exactly as given |
| Polynomial.FromStrings | src/Polynomial.cpp:49-60 | fails on an empty vector or an unparsable text; otherwise coefficient k is the text at position n−1−k (input highest degree first) |
| Polynomial.FromPairs | src/Polynomial.cpp:62-73 | fails on an empty vector; otherwise coefficient k is the pair at position n−1−k, with the denominator read as an unsigned 64-bit value |
| Polynomial.GetDegree | src/Polynomial.cpp:381-383 | the last index; every coefficient above it is zero |
| Polynomial.GetLeadingCoefficient | src/Polynomial.cpp:376-378 | the coefficient at the degree |
| Polynomial.DegreeOfTrimmed | src/Polynomial.cpp:381-383 | for a trimmed nonzero polynomial the degree is the highest nonzero coefficient |
| Polynomial.Add | src/Polynomial.cpp:287-321 | the values are the trimmed coefficient-wise sum; every nonzero coefficient is in lowest terms |
| Polynomial.Subtract | src/Polynomial.cpp:324-333 | the values are the trimmed sum with the negated operand; every nonzero coefficient is in lowest terms |
| Polynomial.MultiplyByRational | src/Polynomial.cpp:336-351 | a zero scalar gives the single zero coefficient; otherwise every value is scaled and every coefficient is reduced |
| Polynomial.MultiplyByXInKPower | src/Polynomial.cpp:354-373 | k zero coefficients are prepended, so coefficient i moves to i + k |
| Polynomial.Multiply | src/Polynomial.cpp:191-228 | a zero operand gives the zero polynomial; otherwise the values are the convolution Σ_{i+j=k} a_i·b_j |
| Polynomial.Quotient | src/Polynomial.cpp:231-283 | fails exactly when the divisor's top coefficient is zero; a shorter dividend gives zero; otherwise the trimmed quotient q matches the dividend in every coefficient from the divisor's degree up |
| Polynomial.Remainder | src/Polynomial.cpp:76-83 | fails like quotient; otherwise a = q·b + r, with r zero from the divisor's degree up |
| Polynomial.RemainderValues | src/Polynomial.cpp:76-83 | subtracting q·b from a leaves a remainder below the divisor's degree, and a = q·b + r |
| Polynomial.Power | src/Polynomial.cpp:150-151 | the Rational built from the text `i/1` has value i |
| Polynomial.Derivative | src/Polynomial.cpp:136-161 | degree 0 gives the zero polynomial; otherwise the values are the formal derivative, entry i−1 being i·c_i |
| Polynomial.GCD | src/Polynomial.cpp:86-133 | fails when either operand is the zero polynomial, or when the divisor's top coefficient is zero; otherwise a monic trimmed common divisor of a and b that is a combination s·a + t·b of them |
| Polynomial.MakeSquareFree | src/Polynomial.cpp:164-175 | degree 0 is returned unchanged; otherwise the result times the monic gcd of p and p′ is p |
| Polynomial.FactorOutAsWritten | src/Polynomial.cpp:178-188 | fails exactly when the running numerator gcd meets two zeros; otherwise p scaled by lcm(denominators)/gcd(numerators) |
| Polynomial.FactorOutRejectsSquare | src/Polynomial.cpp:178-188 | x² makes factorOut fail although it is not the zero polynomial |
| Polynomial.FactorOut | src/Polynomial.cpp:178-188 | fails only on a polynomial with every numerator zero; otherwise p scaled by lcm(denominators)/gcd(numerators), and every coefficient is an integer |
| Polynomial.GcdStepAsWritten | src/Polynomial.cpp:183 | one fold step of GCD over the numerators, failing when the running gcd and the next numerator are both zero |
| Polynomial.GcdStep | src/Polynomial.cpp:183 | one fold step of the numerator gcd, skipping the undefined gcd(0, 0) |
| Polynomial.LcmStep | src/Polynomial.cpp:184 | one fold step of the denominator lcm |
| PolyAlgebra.Associative | src/Polynomial.cpp:191-228 | polynomial multiplication is associative on values |
| PolyAlgebra.EuclidStep | src/Polynomial.cpp:103-112 | one turn of the loop, (p, r) ← (r, p mod r), keeps its invariant: a and b are combinations of the pair, and the pair are combinations of a and b |
| PolyAlgebra.ExactQuotient | src/Polynomial.cpp:164-175 | a quotient whose remainder is zero multiplies back to the dividend |
| PolyMath.TrimUnique | src/Polynomial.cpp:311-317 | trimming gives the one shortest vector with the same coefficients |
| Token.CodeInjective | src/Validator/Utils/Token.h:11-19 | the token kinds have distinct codes (operators carry their own character, Num differs from all) |
| Token.CreateToken | src/Validator/Utils/Token.cpp:3-18 | fails with InvalidToken exactly on a character that is not one of `+ * - / ^ x` or a digit; the value is the character itself; the kind is Num exactly for digits and otherwise has the character as code |
| Token.CreateTokenInjective | src/Validator/Utils/Token.cpp:3-18 | distinct characters give distinct tokens |
| Token.Equals | src/Validator/Utils/Token.h:49-51 | tokens are equal exactly when kind and value are |
| Lexer.Lexer.constructor | src/Validator/Utils/Lexer.cpp:5 | the lexer holds the input and no tokens |
| Lexer.Lexer.PushToken | src/Validator/Utils/Lexer.cpp:53-61 | appends CreateToken's token, or fails with InvalidToken |
| Lexer.Lexer.CreateTokens | src/Validator/Utils/Lexer.cpp:7-46 | fails on empty input; otherwise the token list is the left-to-right scan of the input |
| Lexer.Tokenize | src/Validator/Utils/Lexer.cpp:7-46 | succeeds exactly on non-empty text of lexable characters; the tokens are well lexed |
| Lexer.ScanSucceedsIff | src/Validator/Utils/Lexer.cpp:14-18 | the scan fails exactly when some character is neither whitespace nor a token character |
| Lexer.TokenizeIgnoresSpaces | src/Validator/Utils/Lexer.cpp:14 | removing whitespace does not change the tokens |
| Lexer.ScanWellLexed | src/Validator/Utils/Lexer.cpp:23-44 | the scan's tokens are well lexed: a Num holds a non-empty digit run, any other token its own single character, and a Num is never followed by a Num or an X |
| Lexer.ScanDigits | src/Validator/Utils/Lexer.cpp:37-40 | consecutive digits form one Num token |
| Lexer.ImplicitProduct | src/Validator/Utils/Lexer.cpp:42-44 | `12x` lexes to Num "12", Mul, X |
| Lexer.TokenizeJoined | src/Validator/Utils/Lexer.cpp:7-46 | printing a well-lexed token list and lexing the text gives the list back |
| Parser.CoefficientAt | src/Validator/Utils/Parser.cpp:61-89 | the coefficient stage ends after a Num, or stays on an X |
| Parser.DegreeAt | src/Validator/Utils/Parser.cpp:105-131 | the degree stage consumes a Mul, X or Num last, and always consumes an X |
| Parser.ParseMonom | src/Validator/Utils/Parser.cpp:43-134 | a parsed monom consumes at least one token and ends on a Num, X or Mul |
| Parser.ReadCoefficient | src/Validator/Utils/Parser.cpp:61-89 | the coefficient loop stage equals CoefficientAt |
| Parser.ReadDegree | src/Validator/Utils/Parser.cpp:103-131 | the degree loop stage equals DegreeAt |
| Parser.ReadMonom | src/Validator/Utils/Parser.cpp:43-134 | one pass of the loop body equals ParseMonom |
| Parser.Parse | src/Validator/Utils/Parser.cpp:35-138 | the token loop equals the specification Monoms |
| Parser.TrailingSignFails | src/Validator/Utils/Parser.cpp:56-58 | a token list ending in a sign fails to parse |
| Parser.MonomsShaped | src/Validator/Utils/Parser.cpp:61-131 | on lexer output, every parsed monom has digit-string parts and an optionally signed numerator |
| Parser.ParseSpell | src/Validator/Utils/Parser.cpp:43-134 | a monom spelled as sign, numerator, `/`, denominator, `*`, `x`, `^`, degree parses back to itself |
| Parser.ParseSpelled | src/Validator/Utils/Parser.cpp:42-135 | a list of spelled monoms parses back to the list |
| Parser.TextRoundTrip | src/Validator/Utils/Parser.cpp:35-138 | printing spelled monoms, lexing and parsing gives back the monoms |
| Parser.ExampleSquare | src/Validator/Utils/Parser.cpp:29 | `3x^2` gives numerator 3, denominator 1, degree 2 |
| Parser.ExampleHalf | src/Validator/Utils/Parser.cpp:30 | `-1/2x` gives numerator −1, denominator 2, degree 1 |
| Parser.ExampleX | src/Validator/Utils/Parser.cpp:31 | `x` gives 1, 1, 1 |
| Parser.ExampleConstant | src/Validator/Utils/Parser.cpp:32 | `5` gives 5, 1, 0 |
| Parser.ExampleProduct | src/Validator/Utils/Parser.cpp:33 | `2*x^3` gives 2, 1, 3 |
| Validator.StripZeros | Validator/Validator.cpp:14-23 | removing leading zeros keeps the value and leaves a numeral whose only leading zero is `0` itself |
| Validator.ValidatedNatural | Validator/Validator.cpp:5-24 | accepts exactly the non-empty all-digit strings, with EmptyInput or NonDigit otherwise |
| Validator.ValidateNaturalNumber | Validator/Validator.cpp:5-24 | the in-place rewrite equals ValidatedNatural, and the string is untouched on failure |
| Validator.NaturalCanonical | Validator/Validator.cpp:14-23 | the accepted rewrite is the canonical printing of the value (`0` for all zeros) |
| Validator.NaturalIdempotent | Validator/Validator.cpp:5-24 | validating the rewrite again gives the same rewrite |
| Validator.NaturalZero | Validator/Validator.cpp:20-21 | the rewrite is `0` exactly when the value is zero |
| Validator.ValidateIntegerNumber | Validator/Validator.cpp:26-52 | the in-place rewrite equals ValidatedInteger, and on failure leaves the partly rewritten string the source leaves |
| Validator.IntegerCanonical | Validator/Validator.cpp:26-52 | accepts exactly an optional `-` before digits, except a negative zero; the rewrite is the canonical printing of the value |
| Validator.IntegerIdempotent | Validator/Validator.cpp:26-52 | validating the rewrite again gives the same rewrite |
| Validator.ValidatedRational | Validator/Validator.cpp:54-89 | a non-empty failure is a missing `/`, a bad numerator, a bad denominator or a zero denominator |
| Validator.ValidateRationalNumber | Validator/Validator.cpp:54-89 | the in-place rewrite equals ValidatedRational |
| Validator.RationalParts | Validator/Validator.cpp:65-88 | an accepted rewrite is a valid integer, `/`, and a valid nonzero natural |
| Validator.RationalCanonical | Validator/Validator.cpp:54-89 | the rewrite prints the literal's Rational, and parsing it gives that Rational |
| Validator.RationalIdempotent | Validator/Validator.cpp:54-89 | validating the rewrite again gives the same rewrite |
| Validator.ReadMonoms | Validator/Validator.cpp:92-116 | lexing then parsing the literal equals LiteralMonoms, whose monoms are well shaped |
| Validator.SortByDegree | Validator/Validator.cpp:118-129 | sorted by numeric degree, a permutation of the monoms |
| Validator.InsertSorted | Validator/Validator.cpp:118-129 | inserting into a sorted list keeps it sorted and adds one degree |
| Validator.FindRepeatedDegreeText | Validator/Validator.cpp:131-136 | the adjacent-equal-degree-text loop fails exactly when RepeatedDegreeText holds |
| Validator.FindRepeatedDegree | Validator/Validator.cpp:131-136 | the corrected loop compares numeric degrees |
| Validator.SortedRepeats | Validator/Validator.cpp:131-136 | after sorting, an adjacent repeat exists exactly when the degrees are not distinct |
| Validator.TextRepeatIsRepeat | Validator/Validator.cpp:133 | equal degree texts mean equal degrees |
| Validator.DistinctIffCounted | Validator/Validator.cpp:131-136 | degrees are distinct exactly when each occurs at most once |
| Validator.SortKeepsDistinct | Validator/Validator.cpp:118-136 | sorting neither creates nor removes repeated degrees |
| Validator.Fill | Validator/Validator.cpp:160-171 | the fill loop equals Placed |
| Validator.PlacedAt | Validator/Validator.cpp:160-171 | an unused degree holds 0/1; with distinct degrees each monom's rational sits at its degree |
| Validator.CoefficientAgrees | Validator/Validator.cpp:169 | the monom's `num/den` text parses to its coefficient |
| Validator.PlainDigits | src/NaturalNumber.cpp:34-46 | a numeral's untrimmed digit vector is the canonical vector of its value exactly when the numeral has no superfluous leading zero |
| Validator.PlainCoefficientExact | Validator/Validator.cpp:169 | the string constructor builds exactly the model's coefficient when, and only when, numerator and denominator numerals have no superfluous leading zero |
| Validator.FillCoefficients | Validator/Validator.cpp:143-171 | the sized, zero-filled, filled vector equals Coefficients: length top degree + 1, or DegreeTooLarge |
| Validator.ZeroScan | Validator/Validator.cpp:173-182 | fails with AllZero exactly when every coefficient prints as `0/1` |
| Validator.ZeroScanOutcome | Validator/Validator.cpp:173-182 | a pass means some coefficient prints otherwise; another failure means some printing failed |
| Validator.ScanReduced | Validator/Validator.cpp:173-182 | the vector the scan leaves: each entry it printed, up to and including the first not printing `0/1`, replaced by its reduced form, and every other entry kept |
| Validator.ScanReducedValues | Validator/Validator.cpp:173-182 | on valid coefficients that in-place reduction keeps every value and validity |
| Validator.CheckAllZero | Validator/Validator.cpp:173-182 | the scanning loop equals ZeroScan, and the vector it leaves equals ScanReduced |
| Validator.PrintedZeroIff | Validator/Validator.cpp:175 | a coefficient prints `0/1` exactly when its value is zero, unless it is a flagged zero over 1 |
| Validator.Reversed | Validator/Validator.cpp:185 | entry k is entry n−1−k |
| Validator.ReversedTwice | Validator/Validator.cpp:185 | reversing twice gives the vector back |
| Validator.Coefficients | Validator/Validator.cpp:143-171 | fails exactly when the top degree exceeds the size limit; otherwise top degree + 1 well-formed coefficients |
| Validator.ValidatePolynomialAsWritten | Validator/Validator.cpp:91-188 | the method equals PolynomialAsWritten, the source's pipeline for literals whose coefficient numerals have no superfluous leading zero, which returns reversed the vector the all-zero check left |
| Validator.ValidatePolynomial | Validator/Validator.cpp:91-188 | the method equals PolynomialLiteral, the corrected pipeline |
| Validator.FindZeroDenominator | Validator/Validator.cpp:165-171 | fails exactly when a monom has a zero denominator |
| Validator.CheckNonzero | Validator/Validator.cpp:173-182 | fails exactly when every numerator is zero |
| Validator.LiteralAcceptedIff | Validator/Validator.cpp:91-188 | the corrected validator accepts exactly a non-empty literal that lexes and parses into monoms with distinct degrees, nonzero denominators, degrees within the limit and some nonzero numerator |
| Validator.MonomsAcceptedIff | Validator/Validator.cpp:118-188 | the same condition, from the parsed monoms on |
| Validator.MonomsPlaced | Validator/Validator.cpp:160-187 | in the accepted vector, read lowest degree first, each monom's coefficient sits at its degree |
| Validator.MonomsUnplaced | Validator/Validator.cpp:162 | every other entry is 0/1 |
| Validator.MonomsValid | Validator/Validator.cpp:160-187 | the accepted vector is a valid polynomial whose top degree is some monom's and that has a nonzero coefficient |
| Validator.CorrectedAgrees | Validator/Validator.cpp:91-188 | on every literal with plain coefficient numerals that the corrected validator accepts, the source's validator accepts too, with the same coefficient values, each entry the corrected one or that one reduced |
| Validator.NegativeZeroAsWritten | Validator/Validator.cpp:173-182 | the source accepts `-0/1*x^0`, whose only coefficient is zero |
| Validator.NegativeZeroCorrected | Validator/Validator.cpp:173-182 | the corrected validator refuses it with AllZero |
| Validator.ZeroDenominatorAsWritten | Validator/Validator.cpp:165-182 | the source accepts `+3/0*x^0`, returning its coefficient reduced by the all-zero check to numerator ±1 over a zero denominator (1/0), a fraction validateRationalNumber refuses |
| Validator.ZeroDenominatorCorrected | Validator/Validator.cpp:165-171 | the corrected validator refuses it with ZeroDenominator |
| Validator.RespelledAsWritten | Validator/Validator.cpp:132-182 | the source accepts two constant monoms spelled with degree `0` and `00`, e.g. `+1/1*x^0+2/1*x^00`, and keeps only the second coefficient, reduced by the all-zero check, with its value |
| Validator.RespelledCorrected | Validator/Validator.cpp:132-136 | the corrected validator refuses them with DuplicateDegrees |

## Left out

- The Qt user interface in main.cpp, the exception class and its messages: each exception is one `Error` constructor, and messages are not modelled.
- Allocation failures and word-size checks (`bad_alloc`, `SIZE_MAX`): numbers are unbounded, except that the validator's degree limit 2^64 − 2 is kept as `MaxDegree`.
- NaturalNumber.FromMachine: takes values below 2^64, the range of its `unsigned long long` parameter.
- IntegerNumber.FromMachine: excludes LLONG_MIN (−2^63), for which the source's `a*(-1)` overflows a signed long long, undefined behaviour in C++. RationalNumber.FromMachine and Polynomial.FromPairs take their numerators through it and inherit the bound.
- Characters are Dafny `char`; `isdigit` and `isspace` are taken in the C locale.
- Running time (the repeated-subtraction Integer quotient, the trial-digit Natural quotient): values are modelled, not cost.
- Raw-pointer ownership: destructors and deep copies of Rational and Polynomial are value semantics. Only `IntegerNumber`'s copy and move operations are modelled as a class.
- `Polynomial::toString` and the `Polynomial` copy and move operations (src/Polynomial.h:24-38): display formatting, and value copies that Dafny's value types already give.
- Natural operations require canonical operands, as the source's comment at src/NaturalNumber.cpp:170-171 assumes; operands with most-significant zeros are not modelled.
- Polynomial operations require every denominator to be nonzero (`Polynomial.Valid`). The source's own validator can produce a zero denominator (see Findings); what the arithmetic then does is not modelled.
- Polynomial.GCD, Polynomial.Remainder, Polynomial.MakeSquareFree: the quotient and the Bézout coefficients that witness divisibility are ghost out-parameters; the returned polynomial is the real result.
- Validator.SortByDegree: a stable insertion sort on numeric degree stands for `std::sort`, which is not stable. Equal degrees spelled differently (`0` and `00`) are not refused by the duplicate check, and `std::sort` leaves their order unspecified. For degrees of 2^64 and above the comparator (Validator/Validator.cpp:121-127) returns false both ways, so the source's order is not numeric there; a lower monom with such a degree then reaches the unguarded `stoull` at line 166, which throws an uncaught `out_of_range`, where the model, having sorted it last, returns Err(DegreeTooLarge).
- Validator.RespelledAsWritten: assumes the two equal-degree monoms keep their input order; as `std::sort` need not keep it, the source may keep either coefficient. The second monom has plain coefficient numerals, for the reason given under Validator.ValidatePolynomialAsWritten (the source keeps `2/01` with its untrimmed denominator).
- Validator.ValidatePolynomial: numerals are read by value, so leading zeros in a coefficient text do not reach the stored digit vectors. The source keeps them (`NaturalNumber(string)` does not trim), and its printing then acts on untrimmed vectors, as the next line says.
- Validator.ValidatePolynomialAsWritten: the coefficients are built from the numerals' values, which is what the source builds exactly when no coefficient numeral has a superfluous leading zero (PlainCoefficientExact). With such zeros the source's `toString` and `reduce` at Validator/Validator.cpp:175 act on untrimmed digit vectors, on which `isNotEqualZero`, `cmp` and `GCD` (src/NaturalNumber.cpp:135-183, 319-321) do not follow the values. Then `+00/1*x^0` prints `00/1` and is accepted, `x+0/02` leaves an entry 0/0, and `+30/00*x^0` does not terminate. Those literals are outside what the model states about the source.
- Validator.CorrectedAgrees: stated only for literals whose coefficient numerals have no superfluous leading zero, for the reason on the line above.
- Validator.NegativeZeroAsWritten: its monom has plain coefficient numerals, for the same reason; `-0/01*x^0`, for instance, becomes 0/0 in the source.
- Validator.ZeroDenominatorAsWritten: its monom has plain coefficient numerals, for the same reason; on `+30/00*x^0` the source's GCD does not terminate.
- Validator.ValidatedInteger, Validator.ValidatedRational: their own contracts give only the error cases. Acceptance and the rewrite are stated by IntegerCanonical, RationalParts and RationalCanonical.

## Findings

| source | as written | input that shows it | evidently intended | confidence | as-written member | corrected member |
|---|---|---|---|---|---|---|
| Validator/Validator.cpp:173-182 | the all-zero check compares each printed coefficient with `0/1`, and `reduce` leaves the negative flag of a zero numerator, so it prints `-0/1` | `-0/1*x^0` is accepted with a single zero coefficient | a polynomial whose every coefficient is zero is refused | high, not executed | Validator.NegativeZeroAsWritten | Validator.NegativeZeroCorrected |
| Validator/Validator.cpp:165-171 | monom coefficients are built without the zero-denominator check of validateRationalNumber | `+3/0*x^0` is accepted with the coefficient 1/0 | a zero denominator is refused as in validateRationalNumber | high, not executed | Validator.ZeroDenominatorAsWritten | Validator.ZeroDenominatorCorrected |
| Validator/Validator.cpp:132-136 | duplicate degrees are detected by comparing the degree texts | `+1/1*x^0+2/1*x^00` is accepted with a single coefficient (2/1 when the sort keeps input order) | equal numeric degrees are refused | high, not executed | Validator.RespelledAsWritten | Validator.RespelledCorrected |
| src/Polynomial.cpp:178-188 | the numerator gcd is folded with Natural GCD, which fails on two zeros | x² (coefficients 0, 0, 1) fails | content extraction of any nonzero polynomial succeeds | high, not executed | Polynomial.FactorOutRejectsSquare | Polynomial.FactorOut |
| IntegerNumber.cpp:102 | the remainder is built with the sign code 0/1/2 as the negative flag | 7 rem 3 gives −1 | the remainder has the dividend's sign (truncated division) | high, not executed | IntegerNumber.RemainderSignCounterexample | IntegerNumber.Remainder |
