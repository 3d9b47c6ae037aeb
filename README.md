# circle-lang core in Dafny

circle-lang is a bracket-delimited language. Every value is a ratio of two polynomials in π
with integer coefficients. A name such as `std_output` is not a separate kind of token: the
lexer turns it into such a number.

A program is a circular array. Its elements run in order, and the first element decides
whether the loop runs again. Every object lives in the global circular array (the gca),
which is indexed by these numbers, taken modulo a whole number of turns.

This project models the C++ core of the interpreter:

- `lib/number.cpp`: the numeric values.
  - Coefficient lists with `*`, `-` and `plus`.
  - `simplify` and the value constructors.
  - Arithmetic, `equal` and the comparisons that build on it.
  - `div_pi`, `to_letters` and `to_string`.
  - The array key `Index` and its `operator==`.
  - The least-rotation algorithm that makes names canonical.
- `lib/lexer.cpp`: the streaming lexer.
  - The partial-token state machine, one character at a time.
  - The `lex` loop, including the final flush with a virtual `'\n'`.
- `lib/parser.cpp`: the four parsing stages.
  - `de_double_bracket::parse`: the `((` `))` `;` structure.
  - `de_bracket`: single brackets.
  - `parse_brackets_number_assign`, `parse_unary` and `parse_ops`, a shunting-yard over precedences.
  - `parse_any`, `parse_double` and the top-level `parse`.
- `lib/runtime.hpp`: the runtime without its debugger.
  - The object tree and `from_ast`.
  - `Array::insert` and `index`.
  - `evaluate` and `execute` of every object.
  - The three standard functions.
  - The `Runtime` constructor and `run`.
- `lib/diagnostic.cpp`: position order, range and diagnostic formatting, and sorted reporting.
- `lib/from_brainfuck.cpp`: the Brainfuck-to-circle-lang translator.
- `src/number.rs`: `Number::from_string` of the Rust rewrite.

## How the model is built

Code that works by recursion and expressions is written as functions over datatypes:

- the coefficient algebra;
- `to_letters` and the comparisons;
- `parse_element`, the stages of `parse_any` and the evaluation of objects.

Code that works by changing things step by step is written as methods with loops:

- the loops of `simplify`, `operator*`, `plus`, `equal`, `div_pi`, `to_string` and `Index::operator==`;
- the KMP-style least rotation;
- the lexer loop, the double-bracket loop and `Array::insert`;
- the runtime's `execute`.

Each such method is proved equal to a specification function, and the properties are proved as
lemmas about that function. Objects whose fields the source updates are classes:

- the lexer's partial token, `Lexer.PartialToken`;
- `diag::Diags`, `Diagnostics.Diags`;
- the runtime with its gca and I/O streams, `Runtime.Machine`.

Polynomials are coefficient lists, lowest power of π first, as in `std::vector<BigInt>`.
`Eval(p, t)` reads such a list as a polynomial at the point `t`. Every claim about what a value
*means* is stated for all positive `t`.

## Where the model follows the code over the language description

- Positions are 0-based. Only `Range::to_string` adds 1 to the line and the start column.
- Values are kept in the normal form that `simplify` produces:
  - trailing zeros are dropped;
  - common leading zeros are dropped;
  - everything is divided by the gcd of all coefficients.
- The lexer also produces operator, `;` and comment tokens.
- A failed final flush is reported, and the tokens read so far are still returned.

## Model

| member | source | states |
|---|---|---|
| Coefficients.Plus | lib/number.cpp:285-302 | the loop yields the coefficient-wise sum or difference over the longer length (`Combine`) |
| Coefficients.Minus | lib/number.cpp:272-283 | operator- on coefficient lists is `plus` with the sign flipped |
| Coefficients.EvalCombine | lib/number.cpp:285-302 | the combined list denotes the sum, or the difference, of the two polynomials at every point |
| Coefficients.Multiply | lib/number.cpp:259-270 | the double loop yields the convolution of the two lists |
| Coefficients.EvalConvolution | lib/number.cpp:259-270 | the convolution denotes the product of the two polynomials |
| Coefficients.Convolution | lib/number.cpp:259-270 | the product of lists of lengths m and n has length m+n−1, or 0 when either is empty |
| Coefficients.ConvolutionTop | lib/number.cpp:259-270 | the top coefficient of a product is the product of the top coefficients |
| Coefficients.ProductNonZero | lib/number.cpp:259-270 | the product of two non-zero polynomials is non-zero |
| Coefficients.VanishingIsZero | lib/number.cpp:259-302 | a coefficient list that evaluates to 0 at every positive point is all zeros, so the list determines the polynomial |
| Coefficients.SamePolyCoefficients | lib/number.cpp:348-368 | two lists that agree at every positive point agree coefficient by coefficient |
| Coefficients.Cancel | lib/number.cpp:320-330 | a non-zero common factor cancels from two products |
| Coefficients.TrimmedLength | lib/number.cpp:129-137 | the kept prefix ends in a non-zero coefficient, and everything after it is zero |
| Coefficients.TrimmedSize | lib/number.cpp:129-137 | the loop that pops trailing zeros finds that length |
| Coefficients.EvalTrim | lib/number.cpp:129-137 | dropping trailing zeros does not change the polynomial |
| Coefficients.LeadingZeros | lib/number.cpp:139-148 | the count is a run of zeros that stops at a non-zero coefficient or at the end |
| Coefficients.LeadingZeroCount | lib/number.cpp:139-148 | the counting loop finds the leading zeros of the kept prefix |
| Coefficients.LeadingZerosUnique | lib/number.cpp:139-148 | any run of zeros that stops at a non-zero coefficient or at the end is the leading-zero count |
| Coefficients.GcdDivides | lib/number.cpp:150-160 | the gcd divides both of its arguments |
| Coefficients.GcdSeqDivides | lib/number.cpp:150-160 | the folded gcd divides every coefficient it was folded over |
| Coefficients.GcdSeqNonZero | lib/number.cpp:150-160 | the folded gcd is positive as soon as one coefficient is non-zero, so the later division is defined |
| Coefficients.GcdFold | lib/number.cpp:154-159 | the gcd loop over a range computes the gcd of everything folded so far |
| Coefficients.CommonDivisor | lib/number.cpp:150-160 | both loops give the divisor simplify uses: the gcd of all kept coefficients, else 1 |
| Coefficients.SimplifyDivisor | lib/number.cpp:150-160 | that divisor is positive |
| Coefficients.SimplifyDivisorGcd | lib/number.cpp:150-160 | when both lists keep coefficients, the divisor is the gcd of all of them |
| Coefficients.DividedRange | lib/number.cpp:162-171 | the copy loop yields the kept range divided by the gcd |
| Coefficients.Simplify | lib/number.cpp:127-174 | the imperative simplify returns exactly the simplified pair |
| Coefficients.SimplifiedFactor | lib/number.cpp:127-174 | each trimmed list equals the shared leading zeros followed by g times the result: nothing but common factors is removed |
| Coefficients.DivisorDividesKept | lib/number.cpp:150-171 | the divisor divides every kept coefficient, so the division is exact |
| Coefficients.SimplifiedShape | lib/number.cpp:127-174 | the result has no trailing zeros, and it does not start with a zero in both lists |
| Coefficients.SimplifiedQuotient | lib/number.cpp:127-174 | the simplified pair denotes the same quotient as the input at every point |
| Number.MakeValueMeaning | lib/number.cpp:176-181 | the list constructor yields a normal value with the same quotient |
| Number.FromInt | lib/number.cpp:119-123 | the integer constructor yields a normal value |
| Number.FromIntMeaning | lib/number.cpp:119-123 | the integer n is the value n·π over 1 |
| Number.NameNumerator | lib/number.cpp:109-117 | a name has one coefficient per letter |
| Number.FromName | lib/number.cpp:109-117 | the loop pushes 256^i times each letter of the least rotation |
| Number.NameRotation | lib/number.cpp:109-117 | every rotation of a name denotes the same value |
| Number.NameNormal | lib/number.cpp:109-117 | a name without NUL characters yields a normal value |
| Number.AddMeaning | lib/number.cpp:304-310 | operator+ is normal and denotes a/b + c/d = (a·d + c·b)/(d·b) |
| Number.SubMeaning | lib/number.cpp:312-318 | operator- is normal and denotes (a·d − c·b)/(d·b) |
| Number.MulMeaning | lib/number.cpp:320-324 | operator* is normal and denotes (a·c)/(b·d) |
| Number.DivMeaning | lib/number.cpp:326-330 | operator/ is normal and denotes (a·d)/(b·c) |
| Number.CrossTerms | lib/number.cpp:304-318 | the cross products that operator+ and operator- build denote a·d ± c·b and d·b |
| Number.MulDivCancel | lib/number.cpp:320-330 | multiplying by a non-zero f and dividing by f again gives a value `equal` to the first |
| Number.DivByPi | lib/number.cpp:119-123 | the integer n divided by the integer 1 is the constant n |
| Number.SimplifiedNonZero | lib/number.cpp:127-174 | simplify keeps a non-zero denominator non-zero |
| Number.FromBoolValue | lib/number.cpp:332-338 | from_bool gives π for true and 0 for false, and to_bool reads the flag back |
| Number.And | lib/number.cpp:340-342 | operator&& is true exactly when both operands are |
| Number.Or | lib/number.cpp:344-346 | operator\|\| is true exactly when either operand is |
| Number.Not | lib/number.cpp:488 | operator! negates the flag |
| Number.Equal | lib/number.cpp:348-368 | the loop decides `Equivalent`: the cross products agree on every power of π from 1 to the degree |
| Number.EqualReflexive | lib/number.cpp:348-368 | every value is `equal` to itself |
| Number.EqualSymmetric | lib/number.cpp:348-368 | `equal` is symmetric |
| Number.EqualSound | lib/number.cpp:348-368 | when `equal` holds, the cross-multiplied numerators lhs.num·rhs.den and rhs.num·lhs.den differ only in their constant term |
| Number.EqualComplete | lib/number.cpp:348-368 | values with the same quotient are `equal` |
| Number.EqualIgnoresConstantTerm | lib/number.cpp:348-368 | the constants 5 and 3 (5π/π and 3π/π) are `equal` although their quotients differ at every point: index 0 is never compared |
| Number.ConstantsEquivalent | lib/number.cpp:348-368 | any two constants are `equal` |
| Number.GetRatioMeaning | lib/number.cpp:194-199 | get_ratio yields k exactly when y ≠ 0 and x = k·y |
| Number.PiRatioMeaning | lib/number.cpp:201-221 | the coefficient walk yields k exactly when p = π·k·d coefficient by coefficient |
| Number.PiMultipleEval | lib/number.cpp:201-221 | such a k makes p denote π·k·d at every point |
| Number.DivPi | lib/number.cpp:201-221 | the div_pi loop computes `DivPiOf` |
| Number.DivPiMeaning | lib/number.cpp:201-221 | div_pi yields k exactly when the value is 0 and k = 0, or num = π·k·den; then the value is k·π |
| Number.DivPiOfInt | lib/number.cpp:201-221 | div_pi inverts the integer constructor |
| Number.DivPiZeroCoefficient | lib/number.cpp:201-221 | (2π+2π³)/(1+π²) is 2π, but div_pi yields nothing because of a zero coefficient in the denominator |
| Number.Letters | lib/number.cpp:223-237 | letter i is coefficient i divided by 256^i |
| Number.ToLetters | lib/number.cpp:223-237 | the loop yields the letters exactly when every coefficient is a letter code times 256^i |
| Number.LettersOfMeaning | lib/number.cpp:223-237 | to_letters yields w exactly when the numerator is the name encoding of a non-empty w of letter codes |
| Number.EncodedLetters | lib/number.cpp:223-237 | to_letters inverts the name encoding |
| Number.DecodedLetters | lib/number.cpp:223-237 | whatever to_letters yields re-encodes to the numerator it came from |
| Number.NameLetters | lib/number.cpp:109-117 | reading a name's value back gives its least rotation |
| Number.ToString | lib/number.cpp:239-255 | the streaming loops produce `{num}{den}` with space-separated coefficients |
| Number.AppendJoined | lib/number.cpp:239-255 | one loop appends the space-separated coefficients |
| Number.ShowPi | lib/number.cpp:239-255 | the integer 1 prints as `{0 1}{1}` |
| Number.JoinIntsPlain | lib/number.cpp:239-255 | the joined text holds only digits, '-' and spaces |
| Number.JoinIntsSpace | lib/number.cpp:239-255 | there is a space exactly when there are at least two coefficients |
| Number.JoinIntsInjective | lib/number.cpp:239-255 | the joined text determines the coefficients |
| Number.ShowInjective | lib/number.cpp:239-255 | to_string determines the value |
| Number.TrimmedDifference | lib/number.cpp:557-571 | the difference of two keys after popping trailing zeros has no trailing zero |
| Number.PopTrailingZeros | lib/number.cpp:569-571 | the popping loop leaves exactly the trimmed prefix |
| Number.WholeTurns | lib/number.cpp:576-591 | the loop holds exactly when the difference is π·k·length·den for some k |
| Number.IndexEquals | lib/number.cpp:557-592 | Index::operator== decides `SameSlot` |
| Number.SlotShiftMeaning | lib/number.cpp:557-592 | two keys share a slot via shift k exactly when their difference is 0 (k = 0) or k whole turns of length·π |
| Number.IndexDifferenceEval | lib/number.cpp:557-571 | the cross products denote lhs − rhs over lhs.den·rhs.den |
| Number.IndexDenominatorTop | lib/number.cpp:566 | the product of two normal denominators has no trailing zero, as the assert demands |
| Number.SameSlotReflexive | lib/number.cpp:557-592 | every key names its own slot |
| Number.SameSlotZeroCoefficient | lib/number.cpp:582-590 | two keys exactly one turn apart are not the same slot when the denominator has a zero coefficient |
| Rotation.RotatableIndex.Contents | lib/number.cpp:22-73 | reading through the index gives the text rotated by its offset: the text from position offset mod length on, followed by the part before it |
| Rotation.RotatableIndex.Rotated | lib/number.cpp:22-73 | rotating keeps the underlying text |
| Rotation.RotateSplice | lib/number.cpp:22-73 | a rotation is the suffix followed by the prefix |
| Rotation.Periodic | lib/number.cpp:22-73 | indexing wraps around with period \|text\| |
| Rotation.LexLessIrreflexive | lib/number.cpp:75-106 | the lexicographic order used is irreflexive |
| Rotation.LexLessAsym | lib/number.cpp:75-106 | and asymmetric |
| Rotation.LexLessTrans | lib/number.cpp:75-106 | and transitive |
| Rotation.LexTotal | lib/number.cpp:75-106 | and total on strings of equal length |
| Rotation.BruteForceLeastRotationCorrect | lib/number.cpp:75-106 | the reference scan finds the first least rotation |
| Rotation.ScanLeastCorrect | lib/number.cpp:75-106 | each step of the reference scan keeps the first least rotation so far |
| Rotation.FirstLeastRotationUnique | lib/number.cpp:75-106 | the first least rotation is unique |
| Rotation.LexicographicallyMinimalRotation | lib/number.cpp:75-106 | the failure-function algorithm over the doubled text returns the first least rotation of s |
| Rotation.LeastRotation | lib/number.cpp:75-117 | the canonical text has the same length, and no rotation is smaller |
| Rotation.RotateTwice | lib/number.cpp:22-73 | rotating by x, then by y, is rotating by x+y |
| Rotation.RotateCongruent | lib/number.cpp:22-73 | rotations agree modulo the length |
| Rotation.RotateBack | lib/number.cpp:22-73 | every rotation of s can be reached from any other rotation of s |
| Rotation.LeastRotationOfRotation | lib/number.cpp:75-117 | all rotations of a name have the same canonical text |
| Decimal.DigitChar | lib/number.cpp:239-255 | a digit value maps to its character |
| Decimal.DigitValue | lib/lexer.cpp:193-206 | a digit character maps back to its value |
| Decimal.NatToString | lib/number.cpp:239-255 | decimal text is non-empty digits, with no leading zero unless the value is 0 |
| Decimal.NatToStringValue | lib/number.cpp:239-255 | the decimal text denotes the number |
| Decimal.ParseInt | lib/lexer.cpp:193-206 | a parsed integer comes from non-empty text; the accepted syntax (sign plus digits) is assumed for `BigInt(std::string)` |
| Decimal.ParseIntRoundTrip | lib/lexer.cpp:193-206 | parsing the text of an integer gives it back |
| Decimal.IntToStringInjective | lib/number.cpp:239-255 | distinct integers print differently |
| Diagnostics.Compare | lib/diagnostic.cpp:8-14 | operator<=> is 0, negative or positive exactly as the positions are equal, before or after in (line, column) order |
| Diagnostics.CompareSwap | lib/diagnostic.cpp:8-14 | swapping the operands negates the comparison |
| Diagnostics.BeforeOrder | lib/diagnostic.cpp:8-14 | the order is a strict total order on positions |
| Diagnostics.RangeStringExample | lib/diagnostic.cpp:20-23 | a range from 46:1 to 53:3 prints as `47:2-54:3` |
| Diagnostics.RangeShape | lib/diagnostic.cpp:20-23 | the text is start line+1 : start column+1 - end line+1 : end column |
| Diagnostics.RangeStringInjective | lib/diagnostic.cpp:20-23 | the text determines the range |
| Diagnostics.DiagnosticStringInjective | lib/diagnostic.cpp:16-18 | a diagnostic's text determines its range and message |
| Diagnostics.LevelNotPrinted | lib/diagnostic.cpp:16-18 | the level does not appear in the text |
| Diagnostics.InsertByStart | lib/diagnostic.cpp:25-28 | inserting adds exactly the one diagnostic (as a multiset) |
| Diagnostics.InsertSorted | lib/diagnostic.cpp:25-28 | insertion keeps the list sorted by start position |
| Diagnostics.SortByStart | lib/diagnostic.cpp:25-28 | sorting is a permutation |
| Diagnostics.SortByStartSorted | lib/diagnostic.cpp:25-28 | and its result is sorted by start position |
| Diagnostics.LinesCount | lib/diagnostic.cpp:29-33 | the report ends in a newline and has at least one character per diagnostic |
| Diagnostics.PrintLines | lib/diagnostic.cpp:29-33 | the loop writes each diagnostic's text and a newline, in order |
| Diagnostics.ReportString | lib/diagnostic.cpp:25-34 | to_string prints the diagnostics sorted by start, and prints nothing for none |
| Diagnostics.ErrorsAt | lib/parser.cpp:92-98 | one error per unmatched range, in order, all with the same message |
| Diagnostics.Diags.constructor | lib/diagnostic.hpp:41-52 | a new collection is empty |
| Diagnostics.Diags.Insert | lib/diagnostic.hpp:41-52 | insert appends the diagnostic |
| Diagnostics.Diags.InsertErrors | lib/parser.cpp:92-98 | the loop appends one error per range |
| Diagnostics.Diags.InsertAll | lib/diagnostic.hpp:41-52 | inserting several appends them in order |
| Lexer.NewPartialClasses | lib/lexer.cpp:104-127 | new_partial classifies a character as whitespace, bracket, `;`, comment, word or operator, and otherwise fails with the invalid-character message |
| Lexer.PartialToken.constructor | lib/lexer.cpp:22-90 | a partial token starts in the given state |
| Lexer.PartialToken.ReadChar | lib/lexer.cpp:135-265 | read_char either absorbs the character (changing state), hands over to a fresh partial with the finished token, or fails |
| Lexer.WithNewPartial | lib/lexer.cpp:129-133 | the hand-over emits the finished token and a fresh partial for the character, or fails |
| Lexer.ReadAt | lib/lexer.cpp:278-294 | a failed character reports an error at the range of the current partial token |
| Lexer.ReadAtKeepsEnd | lib/lexer.cpp:278-294 | reading a character never moves the end of the range; a hand-over only moves its start |
| Lexer.ReadInto | lib/lexer.cpp:278-294 | the read_char lambda updates the partial, tokens and range as `ReadAt` says |
| Lexer.Lex | lib/lexer.cpp:274-311 | the lex loop, together with the final flush, computes `Lexed` |
| Lexer.ScanNext | lib/lexer.cpp:295-306 | each iteration feeds one more character to the scan |
| Lexer.ErrorStops | lib/lexer.cpp:295-306 | after the first error, the rest of the input changes nothing |
| Lexer.ScanFromAppend | lib/lexer.cpp:295-306 | scanning a+b is scanning a, then b |
| Lexer.ScanEnd | lib/lexer.cpp:278-306 | the range end tracks the position after the text read so far |
| Lexer.EmptySource | lib/lexer.cpp:274-311 | empty input gives no tokens and no diagnostic |
| Lexer.FlushEmits | lib/lexer.cpp:307-309 | when the last character is not space, a virtual newline emits the pending token |
| Lexer.FlushFails | lib/lexer.cpp:307-309 | when the flush fails, the error is reported and the tokens so far are still returned |
| Lexer.LexWord | lib/lexer.cpp:193-206 | a run of name characters is one number token |
| Lexer.WordInteger | lib/lexer.cpp:193-206 | an all-digit word is the integer it spells |
| Lexer.WordName | lib/lexer.cpp:193-206 | a word with a non-digit is a name, under the integer syntax assumed for `BigInt(std::string)` |
| Lexer.LexOperator | lib/lexer.cpp:208-265 | a run of operator characters is one operator token if it spells one, and otherwise an invalid-operator error |
| Lexer.InvalidOperatorRun | lib/lexer.cpp:208-265 | `+-` is not an operator |
| Lexer.LexComment | lib/lexer.cpp:183-191 | `#` up to a newline is one comment token holding the text |
| Lexer.CommentAtEnd | lib/lexer.cpp:307-309 | a comment at the end of the input is emitted unless the input ends in space |
| Lexer.LexBrackets | lib/lexer.cpp:143-177 | one or two brackets are one token; three or more are an error |
| Lexer.BracketEmits | lib/lexer.cpp:143-177 | runs of one or two brackets are a single bracket or double-bracket token |
| Lexer.BracketFails | lib/lexer.cpp:143-177 | runs of three or more brackets are an error over the whole run |
| Lexer.FailsOnInvalid | lib/lexer.cpp:104-127 | a character no partial accepts fails every partial but a comment |
| Lexer.InvalidCharacterStops | lib/lexer.cpp:274-311 | an invalid character outside a comment ends lexing with no tokens |
| DoubleBracket.PushFrames | lib/parser.cpp:77-84 | a leaf joins the innermost current element and nothing else changes |
| DoubleBracket.Push | lib/parser.cpp:77-84 | pushing keeps the state well formed and keeps the open ranges and the fatal flag |
| DoubleBracket.OpenNode | lib/parser.cpp:41-44 | `((` opens a new frame and keeps the state well formed |
| DoubleBracket.CloseNode | lib/parser.cpp:45-66 | `))` closes the innermost frame, or is fatal when none is open |
| DoubleBracket.NextElement | lib/parser.cpp:67-74 | `;` starts a new element |
| DoubleBracket.Step | lib/parser.cpp:38-90 | one token keeps the state well formed |
| DoubleBracket.Run | lib/parser.cpp:37-91 | the token loop keeps the state well formed |
| DoubleBracket.CloseBracket2 | lib/parser.cpp:45-66 | the method updates the stacks as `CloseNode` and reports an unmatched `))` |
| DoubleBracket.Semicolon | lib/parser.cpp:67-74 | the method updates the stacks as `NextElement` with its report |
| DoubleBracket.Visit | lib/parser.cpp:38-90 | the visitor updates the stacks as `Step` and appends its report |
| DoubleBracket.Scan | lib/parser.cpp:37-91 | the token loop computes `Run` and appends its reports |
| DoubleBracket.Parse | lib/parser.cpp:28-108 | parse returns the debracketed elements and appends exactly the diagnostics the specification function gives |
| DoubleBracket.RunAppend | lib/parser.cpp:37-91 | running a+b is running a, then b |
| DoubleBracket.ReportedFrom | lib/parser.cpp:37-91 | reports only append to what was there |
| DoubleBracket.StepInv | lib/parser.cpp:38-90 | each token keeps every frame well formed |
| DoubleBracket.RunInv | lib/parser.cpp:37-91 | the whole loop keeps every frame well formed |
| DoubleBracket.DebracketedWellFormed | lib/parser.cpp:28-108 | every element the parse returns is well formed |
| DoubleBracket.FatalSticks | lib/parser.cpp:60-65 | once fatal, always fatal |
| DoubleBracket.UnmatchedCloseFails | lib/parser.cpp:59-101 | a `))` with nothing open makes the parse fail and reports it at its range |
| DoubleBracket.DropComments | lib/parser.cpp:75-76 | the filtered tokens hold no comment |
| DoubleBracket.CommentsIgnored | lib/parser.cpp:75-76 | comments change neither the result nor the diagnostics |
| DoubleBracket.PlainTokens | lib/parser.cpp:28-108 | tokens without `((`, `))`, `;` or comments give one element holding them in order |
| DoubleBracket.UnclosedReported | lib/parser.cpp:92-98 | without `))`, the parse fails exactly when a `((` is open, and reports one error per open `((` |
| SingleBracket.Push | lib/parser.cpp:167-171 | an item joins the innermost list and nothing else changes |
| SingleBracket.OpenGroup | lib/parser.cpp:149-151 | `(` opens a list and keeps the stack well formed |
| SingleBracket.CloseGroup | lib/parser.cpp:152-166 | `)` closes a list, or reports an unmatched `)` |
| SingleBracket.Items | lib/parser.cpp:145-181 | the token loop keeps the stack well formed |
| SingleBracket.Node | lib/parser.cpp:200-206 | every element is parsed |
| SingleBracket.CloseInto | lib/parser.cpp:152-166 | the method computes `CloseGroup` with its diagnostic |
| SingleBracket.ParseElementInto | lib/parser.cpp:140-198 | parse_element computes `ParseElement` with its diagnostics |
| SingleBracket.NodeInto | lib/parser.cpp:200-206 | parse computes `Node` with its diagnostics |
| SingleBracket.ElementAtomsKept | lib/parser.cpp:140-198 | the leaves of the result are the non-bracket tokens, in order, even when brackets are unbalanced |
| SingleBracket.NodeAtoms | lib/parser.cpp:200-206 | the same holds for a whole double-bracket node |
| SingleBracket.ElementDiagnostics | lib/parser.cpp:152-195 | diagnostics only grow, and none is added exactly when the brackets balance |
| SingleBracket.NodeDiagnostics | lib/parser.cpp:200-206 | the same holds for a whole node |
| Ast.Spelling | lib/parser.cpp:217-236 | each binary operator's spelling lexes back to that operator |
| Ast.Precedence | lib/parser.cpp:217-236 | `*` and `/` bind tightest, then `+` and `-`, then the comparisons, then `&&` and `\|\|` |
| Ast.TopPrecedence | lib/parser.cpp:217-236 | a node's binding strength is its operator's precedence, or tightest for a non-operator |
| Ast.Subscript | lib/parser.cpp:267-293 | `( e )` indexes the operand before it when that is indexable, and otherwise is an index without a subject |
| Ast.ParseUnary | lib/parser.cpp:337-384 | the corrected parse_unary consumes at least one item when it succeeds |
| Ast.WrapOutermost | lib/parser.cpp:367-379 | the operators apply innermost-last, and the range runs from the first operator to the end of the operand |
| Ast.UnaryOutcome | lib/parser.cpp:337-384 | the corrected parse_unary succeeds exactly on a run of unary operators closed by an operand, adding no diagnostic, and otherwise adds at most one error |
| Ast.UnaryRest | lib/parser.cpp:337-384 | the input is accepted exactly when what follows the unary run is |
| Ast.UnaryAsWrittenAborts | lib/parser.cpp:352-367 | parse_unary as written aborts on every closed run of unary operators, and otherwise yields nothing |
| Ast.NotOperandAsWritten | lib/parser.cpp:352-379 | `! x` aborts as written, and the corrected version yields `!x` over the whole range |
| Ast.PopOperator | lib/parser.cpp:390-400 | pop_operator joins the top operator with the top two operands |
| Ast.PopWhile | lib/parser.cpp:452-455 | pops until the top operator binds less tightly than the incoming one |
| Ast.PopAll | lib/parser.cpp:468-470 | the final pops leave one operand |
| Ast.ShuntOutcome | lib/parser.cpp:386-473 | with the corrected parse_unary, the loop succeeds exactly when operands and operators alternate correctly, and otherwise adds at most one error |
| Ast.TakeOutcome | lib/parser.cpp:432-441 | an operand is accepted exactly where one is expected and the rest is accepted |
| Ast.OpsOutcome | lib/parser.cpp:386-473 | with the corrected parse_unary, parse_ops aborts exactly on empty input; otherwise it succeeds exactly on a well-formed sequence, adding no diagnostic, and else adds at most one error |
| Ast.ShuntAsWrittenOutcome | lib/parser.cpp:386-473 | the loop as written matches the corrected one on items without a unary operator, aborts on every well-formed rest that holds one, and never yields an expression that holds one |
| Ast.OpsAsWrittenOutcome | lib/parser.cpp:386-473 | parse_ops as written aborts on empty input and on every well-formed expression with a unary operator, and otherwise agrees with the corrected parse_ops where no unary operator occurs |
| Ast.ShuntPrecedence | lib/parser.cpp:386-473 | the loop builds precedence-correct trees |
| Ast.OpsPrecedence | lib/parser.cpp:386-473 | no operand of a result binds less tightly than its parent, and right operands bind strictly tighter (left associativity) |
| Ast.ShuntSymbols | lib/parser.cpp:386-473 | the loop keeps the operators and operands in their input order |
| Ast.OpsSymbols | lib/parser.cpp:386-473 | the in-order reading of the tree is the input |
| Ast.PbnaPlain | lib/parser.cpp:255-335 | numbers and operators pass through one by one |
| Ast.PbnaSplit | lib/parser.cpp:255-335 | before any `:=`, items are taken left to right, one at a time |
| Ast.PbnaAssign | lib/parser.cpp:297-320 | at the first `:=`, the rest of the items becomes the right-hand side |
| Ast.ParseAnyPlain | lib/parser.cpp:476-494 | with the corrected parse_unary, on numbers and operators, parse_any yields a precedence-correct tree of the input with no diagnostic, or a placeholder with at most one error |
| Ast.ParseDouble | lib/parser.cpp:238-244 | one node per element |
| Ast.ParseUnaryAt | lib/parser.cpp:337-384 | the iterator version of the corrected parse_unary computes `ParseUnary` and moves past the run |
| Ast.PopOperatorOf | lib/parser.cpp:390-400 | the lambda computes `PopOperator` |
| Ast.PushOperatorOf | lib/parser.cpp:443-456 | the operator branch pops as `PopWhile`, then pushes |
| Ast.PopAllOf | lib/parser.cpp:468-472 | the final loop computes `PopAll` |
| Ast.ParseOpsInto | lib/parser.cpp:386-473 | the imperative parse_ops, on the corrected parse_unary, computes `ParseOps` with its diagnostics |
| Ast.ParseAnyInto | lib/parser.cpp:481-494 | parse_any computes `ParseAny` |
| Ast.PbnaInto | lib/parser.cpp:255-335 | parse_brackets_number_assign computes `Pbna` |
| Ast.AbsorbInto | lib/parser.cpp:264-296 | one non-assign item is taken as `Absorb` says |
| Ast.AssignInto | lib/parser.cpp:297-320 | the assign branch computes `AssignTo` |
| Ast.ParseDoubleInto | lib/parser.cpp:238-244 | parse_double computes `ParseDouble` |
| Ast.ParseProgram | lib/parser.cpp:497-511 | the whole pipeline computes `Parse` with its diagnostics |
| FromBrainfuck.Snippet | lib/from_brainfuck.cpp:10-40 | a character emits text exactly when it is one of the eight commands |
| FromBrainfuck.Transpile | lib/from_brainfuck.cpp:6-44 | the loop computes `Translation`, which starts with `(S);` and ends with `(S) := 0;` |
| FromBrainfuck.BodyAppend | lib/from_brainfuck.cpp:9-41 | the translation of a+b is that of a followed by that of b |
| FromBrainfuck.BodySingle | lib/from_brainfuck.cpp:9-41 | a single character translates to its snippet |
| FromBrainfuck.Commands | lib/from_brainfuck.cpp:38-39 | the command filter keeps only the eight commands |
| FromBrainfuck.CommentsIgnored | lib/from_brainfuck.cpp:38-39 | non-command characters do not change the translation |
| FromBrainfuck.UnbalancedLoops | lib/from_brainfuck.cpp:31-37 | brackets are not checked: `][` translates to a close then an open |
| RustNumber.FromString | src/number.rs:19-33 | failures carry the literal's own error text; a success has the single numerator key 1, the single denominator key 0 and a positive denominator |
| RustNumber.IntegerLiteral | src/number.rs:26-27 | an integer literal is that integer times π over 1 |
| RustNumber.DecimalLiteral | src/number.rs:21-25 | `p.s` is the integer ps over 10^\|s\| |
| RustNumber.TrailingDot | src/number.rs:21-25 | a trailing `.` changes nothing |
| RustNumber.TwoDots | src/number.rs:21-25 | two dots are invalid |
| RustNumber.EmptyLiteral | src/number.rs:26-27 | the empty literal is invalid |
| RustNumber.DotOnly | src/number.rs:21-25 | `.` alone is invalid |
| Runtime.FindFrom | lib/runtime.hpp:49-60 | find yields the first occurrence at or after j, or none |
| Runtime.Split | lib/runtime.hpp:49-60 | split yields at least one piece; the delimiter must not be empty, since the source loop never advances on an empty one |
| Runtime.SplitText | lib/runtime.hpp:49-60 | the loop computes `Split` |
| Runtime.SplitJoin | lib/runtime.hpp:49-60 | joining the pieces with the delimiter gives the text back |
| Runtime.SplitPieces | lib/runtime.hpp:49-60 | no piece contains the delimiter |
| Runtime.FindKey | lib/runtime.hpp:159-166 | find yields the first entry whose key names the same slot, or none when no key does |
| Runtime.PutFinds | lib/runtime.hpp:141-158 | after insert_or_assign, the key finds the new object |
| Runtime.PutKeeps | lib/runtime.hpp:141-158 | other keys keep their objects, and keys are never replaced |
| Runtime.FoundByKeys | lib/runtime.hpp:141-158 | lookups only depend on the keys |
| Runtime.Descend | lib/runtime.hpp:141-158 | the walk follows arrays, or fails with the non-array error at one step's range |
| Runtime.Inserted | lib/runtime.hpp:141-158 | insert only fails with the non-array error |
| Runtime.InsertedFinds | lib/runtime.hpp:141-158 | after insert, the walk is unchanged and the last index finds the value |
| Runtime.InsertedFails | lib/runtime.hpp:141-158 | a failed walk makes insert fail with the same error |
| Runtime.InsertedWalks | lib/runtime.hpp:141-158 | a successful walk makes insert put the value into the reached array |
| Runtime.InsertTop | lib/runtime.hpp:141-158 | a one-step path inserts into the gca itself |
| Runtime.DescendConcat | lib/runtime.hpp:141-158 | walking a+b is walking a, then b |
| Runtime.DescendRebuild | lib/runtime.hpp:141-158 | rebuilding the reached array keeps the walk |
| Runtime.RebuildShape | lib/runtime.hpp:141-158 | rebuilding changes only the reached array |
| Runtime.Slots | lib/runtime.hpp:132-138 | the array literal has one entry per element |
| Runtime.SlotsDistinct | lib/runtime.hpp:132-138 | indices 0..n−1 of an array of length n name distinct slots |
| Runtime.SlotsFind | lib/runtime.hpp:132-138 | element i is found at index i |
| Runtime.SlotsExtend | lib/runtime.hpp:132-138 | the constructor's loop adds one slot per step |
| Runtime.ArrayLiteralAt | lib/runtime.hpp:132-138 | from_ast builds an array of the literal's length whose element i is at index i |
| Runtime.Eval | lib/runtime.hpp:271-288 | evaluation yields an object that is not an index, an operator or a unary operation, leaves such objects unchanged, and throws only the evaluation messages |
| Runtime.Location | lib/runtime.hpp:230-256 | the path ends at the evaluated index, and every step of it has a source range |
| Runtime.EvalFuel | lib/runtime.hpp:271-288 | more fuel never changes a finished evaluation |
| Runtime.IndexFuel | lib/runtime.hpp:271-288 | the same for an index |
| Runtime.IndexFound | lib/runtime.hpp:271-288 | an index evaluates the element found at the subject's index |
| Runtime.BinaryFuel | lib/runtime.hpp:356-406 | more fuel never changes a finished operator |
| Runtime.Comparisons | lib/number.cpp:466-486 | `>=` negates `<`, `>` swaps it, `<=` swaps `>=`, `!=` negates `==`, and `==` is reflexive |
| Runtime.ComparisonTruth | lib/runtime.hpp:356-406 | a comparison yields a true value exactly when its verdict holds |
| Runtime.Exec | lib/runtime.hpp:167-188 | execution throws only the runtime messages |
| Runtime.AssignValue | lib/runtime.hpp:316-322 | the same for an assignment |
| Runtime.ExecValue | lib/runtime.hpp:271-288 | the same for an evaluated object |
| Runtime.Loop | lib/runtime.hpp:167-188 | the same for an array's loop |
| Runtime.Elements | lib/runtime.hpp:167-188 | the same for one round of the loop |
| Runtime.AssignThenRead | lib/runtime.hpp:316-322 | after assigning to a literal gca key, reading that key gives the value |
| Runtime.ZeroLoopSkips | lib/runtime.hpp:167-188 | an array whose first element is 0 does nothing |
| Runtime.InputStored | lib/runtime.hpp:494-507 | std_input stores the next byte, or −1 at end of input, and consumes it |
| Runtime.OutputOfInt | lib/runtime.hpp:509-531 | std_output writes an ASCII value, and throws otherwise |
| Runtime.OutputUnset | lib/runtime.hpp:509-531 | with nothing stored, it writes character 1 |
| Runtime.Decomposition | lib/runtime.hpp:540-559 | the decomposition array holds one element per coefficient, or one element when there are none |
| Runtime.DecompositionAt | lib/runtime.hpp:540-559 | element i is coefficient i |
| Runtime.DecompositionEmpty | lib/runtime.hpp:540-559 | no coefficients give one element, 0 |
| Runtime.DecomposeStored | lib/runtime.hpp:533-567 | std_decompose succeeds exactly on a number and keeps the streams; it stores the denominator array, and the numerator array survives that second store unless an entry already in the gca holds both names |
| Runtime.NumeratorSurvives | lib/runtime.hpp:540-558 | after a store under one name and then under a different-slot name, the first name still finds its object, provided no earlier entry holds both |
| Runtime.NamesApart | lib/runtime.hpp:540-558 | `std_decompose_numerator` and `std_decompose_denominator` are different slots of a gca of any length |
| Number.NameSlotsDistinct | lib/number.cpp:557-592 | names of different lengths (the longer one not of length 2) are never the same slot under `Index::operator==` |
| Number.DifferentDegrees | lib/number.cpp:557-592 | two coefficient lists without trailing zeros and of different lengths have a difference that keeps the longer length |
| Runtime.FillArray | lib/runtime.hpp:540-559 | the loop builds the decomposition array |
| Runtime.BuiltinsHold | lib/runtime.hpp:577-594 | the gca has the program's length and holds std_input, std_output and std_decompose under their names |
| Runtime.BuiltinNamesApart | lib/runtime.hpp:585-593 | `std_input`, `std_output` and `std_decompose` are three different slots of a gca of any length |
| Runtime.Machine.constructor | lib/runtime.hpp:577-594 | the runtime starts with the built-ins, the input and no output |
| Runtime.Machine.Insert | lib/runtime.hpp:141-158 | insert changes the gca as `Inserted`, or reports its failure and changes nothing |
| Runtime.Machine.Execute | lib/runtime.hpp:167-188 | execute computes `Exec` on the runtime's state; output is only appended to, also when execution fails |
| Runtime.Machine.ExecuteArray | lib/runtime.hpp:167-188 | the array loop computes `Loop`; output is only appended to, also when a round fails |
| Runtime.Machine.ExecuteRound | lib/runtime.hpp:167-188 | one round computes `Elements`; output is only appended to, also when an element fails |
| Runtime.Machine.ExecuteAssign | lib/runtime.hpp:316-322 | Assign::execute computes `AssignValue`; a failed assignment changes nothing, and no assignment writes output |
| Runtime.Machine.ExecuteInput | lib/runtime.hpp:496-503 | std_input computes `ReadInput` and writes no output |
| Runtime.Machine.ExecuteOutput | lib/runtime.hpp:511-527 | std_output computes `WriteOutput`; when it fails it changes nothing |
| Runtime.Machine.ExecuteDecompose | lib/runtime.hpp:535-563 | std_decompose computes `DecomposeValue`, writes no output, and changes nothing when it fails |
| Runtime.Machine.Run | lib/runtime.hpp:596-604 | run executes the program's loop and prints a runtime error's message and a newline; output written before the error stays written |

## Left out

- The debugger and the `DEBUG` template parameter (lib/runtime.hpp:63-87 and the debugger's use in `run` and `execute`). They are interactive I/O.
- `Index::hash` and `substitute` (lib/number.cpp:490-518). The model looks up keys with `Index::operator==` alone, as if the hash agreed with it. It does not always agree:
  - `num %= den * length * pi` truncates toward zero, so a negative index such as −1 hashes differently from its positive counterpart length − 1, which `operator==` calls the same slot;
  - in a length-0 array, such as the gca of an empty program, the hash computes `% 0`;
  - a key 0/0 (both lists empty) makes `gcd(num, den)` zero and the hash divides by it, while `operator==` puts that key in the same slot as every other key.
- Runtime.DecomposeStored: the numerator array is promised only when no entry of the gca already holds both `std_decompose_numerator` and `std_decompose_denominator`. Under `Index::operator==` alone, a stored key 0/0 holds both, and the second store would overwrite the first; in the source such a key cannot be hashed.
- Runtime.Eval: `less_than` and its floating-point helpers `evaluate`, `evaluate_with_margin` and `less_than(sf)` (lib/number.cpp:374-464) are not modelled. They compare by π's digits in floating point, so the model takes `less_than` as a parameter.
- Runtime.Eval: the fuel bounds evaluation and execution, because circle-lang programs need not terminate. An `OutOfFuel` outcome stands for "still running".
- Runtime.Machine.Run: streams are sequences. Input is a sequence of bytes, and output is the text written.
  - Output written before a runtime error is kept in the machine, not in the returned outcome: Runtime.Machine.Run promises only that the output it started with is a prefix of the output it leaves, whatever the outcome.
- Runtime.Exec: three behaviours the source leaves undefined are an `Undefined` outcome:
  - `std_decompose` on a non-number (a null dereference);
  - `std_output` on the value with numerator [0] and an empty denominator, where `div_pi` reads `den.back()` of an empty list (lib/number.cpp:207-211). No constructor produces that value;
  - in `get_gca_location`, an index that evaluates to a number without a source range, such as the result of an operator: the source dereferences that range.
- Runtime.Split: the `split` helper (lib/runtime.hpp:49-61) never advances on an empty delimiter and would loop forever, so the model requires a non-empty one. Its one caller splits on `"\n"` (lib/runtime.hpp:73).
- Objects are values: `clone` is a copy, so aliasing between objects is not modelled. `unordered_map` is an association list in insertion order.
- Diagnostics.SortByStart: insertion sort is stable, while `std::ranges::sort` is not. The order of diagnostics that share a start position is therefore not modelled.
- Lexer.Lex: the source text is taken as a sequence of characters, not of the UTF-8 bytes the source loops over (lib/lexer.cpp:295). Columns and comment text therefore count code points where the source counts bytes. A non-ASCII character outside a comment is an invalid character in the model; in the source it is a negative `char`, and `std::isspace` and the operator lookup table are then undefined behaviour (lib/lexer.cpp:92-105). So is the DEL character (127), which indexes the `std::array<bool, CHAR_MAX>` out of bounds.
- Lexer.Lex: the model starts with no diagnostics. The source checks the caller's `diags` after every character and returns nothing once it holds a fatal error (lib/lexer.cpp:297-298), so a call whose `diags` already holds a fatal error yields no tokens. The one caller passes a collection with no fatal error.
- Characters are compared by code point, while the source compares `signed char`. The two agree on the ASCII characters that names can contain.
- Coefficients.GcdDivides: the gcd is taken non-negative. The big-integer library's sign convention is not part of this model; the quotients are exact either way.
- `diag::to_string` for operators and for values (lib/diagnostic.hpp:54-56) is not part of this model beyond the operator spelling in error messages.
- Decimal.ParseInt: the string syntax that the big-integer library's `BigInt(std::string)` accepts is not part of this model. It is assumed to be an optional sign followed by at least one digit. Lexer.WordValue and Lexer.WordName rest on this assumption: a word such as `0x1F`, `1e3` or `1_000` is lexed as a name, while the source lexes it as whatever that constructor makes of it (a name only if it throws `std::invalid_argument`, lib/lexer.cpp:199-203).
- RustNumber.FromString: the `_` digit separators that the Rust big-integer parser accepts are not modelled. Literals are optional sign plus digits.
- RustNumber.FromString: `from_name` in src/number.rs has no body, so it is not modelled.
- Source `assert`s that would abort the program are an `Aborted` outcome in the parser and the runtime.
- Ast.Shunt, Ast.ParseOps, Ast.ParseUnaryAt: built on the corrected parse_unary (see Findings). The source aborts on every closed run of unary operators, so the parser pipeline (`parse_ops`, `parse_any`, `parse_double` and `parse`) is modelled as the corrected program. Ast.OpsAsWritten states what the source does instead, for `parse_ops`.
- ShuntOutcome: Ast.ShuntOutcome and Ast.OpsOutcome describe the corrected parse_ops. As written, parse_ops also aborts on every well-formed expression that holds a unary operator (Ast.OpsAsWrittenOutcome).
- ParseAnyPlain: Ast.ParseAnyPlain and the properties of `parse_any` and `parse` built on it describe the corrected program. As written, `parse_any` aborts where an element holds a closed unary run.

## Findings

| source | as written | input that shows it | evidently intended | confidence | as-written member | corrected member |
|---|---|---|---|---|---|---|
| lib/parser.cpp:352-379 | the unary-operator branch of `parse_unary` pushes nothing onto `ops`, so `assert(!ops.empty())` fails as soon as an operand closes the run; the wrapping loop also never pops | the items `!`, `x` (source text `! x`) | push each unary operator, then wrap the operand in them, innermost last | high, not executed | Ast.UnaryAsWritten (Ast.UnaryAsWrittenAborts, Ast.NotOperandAsWritten, Ast.OpsAsWrittenOutcome) | Ast.ParseUnary (Ast.UnaryOutcome, Ast.WrapOutermost) |

Three further behaviours follow the code as written and are stated as lemmas:

- `equal` never compares the constant term: Number.EqualIgnoresConstantTerm.
- `div_pi` gives up on a zero coefficient in the denominator: Number.DivPiZeroCoefficient.
- `Index::operator==` has the same limit: Number.SameSlotZeroCoefficient.
