/** The token kinds the scanner produces (namespace token in lib/lexer.hpp). */
module Tokens {
  import opened Number
  import opened Diagnostics
  import Ops

  datatype Kind =
    | OpenBracket
    | CloseBracket
    | Semicolon
    | OpenBracket2
    | CloseBracket2
    | Comment(content: string)
    | NumberLiteral(value: Value)
    | Assign
    | OperatorBinary(binary: Ops.Binary)
    | OperatorUnary(unary: Ops.Unary)

  /** A token with the source range it was read from (diag::WithInfo). */
  datatype Token = Token(range: Range, kind: Kind)
}

/** The scanner (lib/lexer.cpp): a state machine over partial tokens, fed one character at a
    time. Each partial either absorbs the character or is finished by it, handing over to a
    fresh partial that starts with that character. */
module Lexer {
  import opened Wrappers
  import opened Number
  import opened Diagnostics
  import Decimal
  import Ops
  import Tokens

  // ---------------------------------------------------------------------------
  // Character classes

  /** std::isspace in the "C" locale. */
  predicate IsSpace(c: char) {
    c == ' ' || c == '\t' || c == '\n' || c as int == 11 || c as int == 12 || c == '\r'
  }

  /** is_in_operator_char_set: one of + - * / & | = ! < > : */
  predicate IsOperatorChar(c: char) {
    c == '+' || c == '-' || c == '*' || c == '/' || c == '&' || c == '|'
    || c == '=' || c == '!' || c == '<' || c == '>' || c == ':'
  }

  // ---------------------------------------------------------------------------
  // Partial tokens

  /** The state of a partial token: a bracket run with its count, or the text a comment,
      word or operator has gathered. */
  datatype Partial =
    | WhiteSpace
    | OpenRun(count: int)
    | CloseRun(count: int)
    | Semicolon
    | Comment(content: string)
    | Word(content: string)
    | Operator(content: string)

  function InvalidCharacter(c: char): string {
    "'" + [c] + "' is not a valid character."
  }

  /** new_partial: the partial a character starts. */
  function NewPartial(c: char): Result<Partial, string> {
    if IsSpace(c) then Ok(WhiteSpace)
    else if c == '(' then Ok(OpenRun(1))
    else if c == ')' then Ok(CloseRun(1))
    else if c == ';' then Ok(Semicolon)
    else if c == '#' then Ok(Comment(""))
    else if IsInCharSet(c) then Ok(Word([c]))
    else if IsOperatorChar(c) then Ok(Operator([c]))
    else Err(InvalidCharacter(c))
  }

  /** Whitespace stays whitespace; '(' ')' ';' '#' open their partials; a letter, digit or
      underscore opens a word and an operator character an operator, each holding that
      character; anything else is not a valid character. */
  lemma NewPartialClasses(c: char)
    ensures NewPartial(c).Err? <==>
      !IsSpace(c) && c != '(' && c != ')' && c != ';' && c != '#'
      && !IsInCharSet(c) && !IsOperatorChar(c)
    ensures NewPartial(c).Err? ==> NewPartial(c).error == InvalidCharacter(c)
    ensures NewPartial(c) == Ok(WhiteSpace) <==> IsSpace(c)
    ensures c == '(' ==> NewPartial(c) == Ok(OpenRun(1))
    ensures c == ')' ==> NewPartial(c) == Ok(CloseRun(1))
    ensures c == ';' ==> NewPartial(c) == Ok(Semicolon)
    ensures c == '#' ==> NewPartial(c) == Ok(Comment(""))
    ensures IsInCharSet(c) ==> NewPartial(c) == Ok(Word([c]))
    ensures IsOperatorChar(c) ==> NewPartial(c) == Ok(Operator([c]))
  {
  }

  /** What reading one character does to a partial: it absorbs the character (possibly
      updating its count or text), or it is finished, handing over to the next partial and
      possibly emitting a token, or it fails. */
  datatype Transition =
    | Stay(updated: Partial)
    | Emit(next: Partial, token: Option<Tokens.Kind>)
    | Fail(message: string)

  /** state_with_new_partial: finish with the given token, c starting the next partial. */
  function HandOver(c: char, token: Option<Tokens.Kind>): Transition {
    match NewPartial(c)
    case Ok(p) => Emit(p, token)
    case Err(message) => Fail(message)
  }

  function Repeat(c: char, n: nat): (s: string)
    ensures |s| == n && forall i :: 0 <= i < n ==> s[i] == c
  {
    if n == 0 then "" else Repeat(c, n - 1) + [c]
  }

  function TooMany(bracket: char, count: nat): string {
    "\"" + Repeat(bracket, count) + "\" is too many '" + [bracket] + "' in a row. Try splitting them up with space."
  }

  function InvalidOperator(content: string): string {
    "\"" + content + "\" is not a valid operator."
  }

  /** The token a bracket run of the given length stands for. */
  function BracketToken(bracket: char, count: int): Option<Tokens.Kind> {
    if count == 1 then Some(if bracket == '(' then Tokens.OpenBracket else Tokens.CloseBracket)
    else if count == 2 then Some(if bracket == '(' then Tokens.OpenBracket2 else Tokens.CloseBracket2)
    else None
  }

  /** The number a word denotes: an integer literal when `BigInt(std::string)` accepts the
      word, otherwise the encoding of the word as a name. The accepted syntax is the one
      Decimal.ParseInt assumes, so a word is an integer exactly when it is a run of digits. */
  function WordValue(w: string): Value {
    match Decimal.ParseInt(w)
    case Some(n) => FromInt(n)
    case None => NameValue(w)
  }

  /** The fourteen operator spellings. */
  function OperatorToken(content: string): Option<Tokens.Kind> {
    if content == ":=" then Some(Tokens.Assign)
    else if content == "!" then Some(Tokens.OperatorUnary(Ops.BoolNot))
    else if content == "+" then Some(Tokens.OperatorBinary(Ops.Plus))
    else if content == "-" then Some(Tokens.OperatorBinary(Ops.Minus))
    else if content == "*" then Some(Tokens.OperatorBinary(Ops.Multiply))
    else if content == "/" then Some(Tokens.OperatorBinary(Ops.Divide))
    else if content == "&&" then Some(Tokens.OperatorBinary(Ops.BoolAnd))
    else if content == "||" then Some(Tokens.OperatorBinary(Ops.BoolOr))
    else if content == "=" then Some(Tokens.OperatorBinary(Ops.Equal))
    else if content == "!=" then Some(Tokens.OperatorBinary(Ops.NotEqual))
    else if content == "<" then Some(Tokens.OperatorBinary(Ops.Smaller))
    else if content == "<=" then Some(Tokens.OperatorBinary(Ops.SmallerOrEqual))
    else if content == ">" then Some(Tokens.OperatorBinary(Ops.Greater))
    else if content == ">=" then Some(Tokens.OperatorBinary(Ops.GreaterOrEqual))
    else None
  }

  /** WhiteSpace::read_char. */
  function ReadWhiteSpace(c: char): Transition {
    if IsSpace(c) then Stay(WhiteSpace) else HandOver(c, None)
  }

  /** OpenBracket::read_char and CloseBracket::read_char: count the run, then finish it. */
  function ReadBracket(bracket: char, n: int, c: char): Transition {
    if c == bracket then Stay(if bracket == '(' then OpenRun(n + 1) else CloseRun(n + 1))
    else if n == 1 || n == 2 then HandOver(c, BracketToken(bracket, n))
    else Fail(TooMany(bracket, if n < 0 then 0 else n))
  }

  /** Semicolon::read_char. */
  function ReadSemicolon(c: char): Transition {
    HandOver(c, Some(Tokens.Semicolon))
  }

  /** Comment::read_char. */
  function ReadComment(s: string, c: char): Transition {
    if c == '\n' then Emit(WhiteSpace, Some(Tokens.Comment(s))) else Stay(Comment(s + [c]))
  }

  /** Number::read_char (a word partial). */
  function ReadWord(w: string, c: char): Transition {
    if IsInCharSet(c) then Stay(Word(w + [c]))
    else HandOver(c, Some(Tokens.NumberLiteral(WordValue(w))))
  }

  /** Operator::read_char. */
  function ReadOperator(o: string, c: char): Transition {
    if IsOperatorChar(c) then Stay(Operator(o + [c]))
    else match OperatorToken(o)
      case Some(token) => HandOver(c, Some(token))
      case None => Fail(InvalidOperator(o))
  }

  /** read_char, dispatched on the kind of partial. */
  function Step(p: Partial, c: char): Transition {
    match p
    case WhiteSpace => ReadWhiteSpace(c)
    case OpenRun(n) => ReadBracket('(', n, c)
    case CloseRun(n) => ReadBracket(')', n, c)
    case Semicolon => ReadSemicolon(c)
    case Comment(s) => ReadComment(s, c)
    case Word(w) => ReadWord(w, c)
    case Operator(o) => ReadOperator(o, c)
  }

  /** A partial token object; read_char updates its count or text in place, or hands over
      to a freshly allocated partial. */
  class PartialToken {
    var state: Partial

    constructor (p: Partial)
      ensures state == p
    {
      state := p;
    }

    /** read_char: absorbs c, or returns the next partial (a new object) and the token the
        current one finishes as, or the error. */
    method ReadChar(c: char) returns (r: Result<Option<NextState>, string>)
      modifies this
      ensures match Step(old(state), c)
        case Stay(p) => r == Ok(None) && state == p
        case Emit(p, token) =>
          r.Ok? && r.value.Some? && fresh(r.value.value.partial)
          && r.value.value.partial.state == p && r.value.value.token == token
          && state == old(state)
        case Fail(message) => r == Err(message) && state == old(state)
    {
      match state
      case WhiteSpace =>
        if IsSpace(c) {
          return Ok(None);
        }
        r := WithNewPartial(c, None);
      case OpenRun(n) =>
        if c == '(' {
          state := OpenRun(n + 1);
          return Ok(None);
        }
        if n == 1 || n == 2 {
          r := WithNewPartial(c, BracketToken('(', n));
        } else {
          r := Err(TooMany('(', if n < 0 then 0 else n));
        }
      case CloseRun(n) =>
        if c == ')' {
          state := CloseRun(n + 1);
          return Ok(None);
        }
        if n == 1 || n == 2 {
          r := WithNewPartial(c, BracketToken(')', n));
        } else {
          r := Err(TooMany(')', if n < 0 then 0 else n));
        }
      case Semicolon =>
        r := WithNewPartial(c, Some(Tokens.Semicolon));
      case Comment(s) =>
        if c == '\n' {
          var next := new PartialToken(WhiteSpace);
          return Ok(Some(NextState(next, Some(Tokens.Comment(s)))));
        }
        state := Comment(s + [c]);
        r := Ok(None);
      case Word(w) =>
        if IsInCharSet(c) {
          state := Word(w + [c]);
          return Ok(None);
        }
        var value: Value;
        match Decimal.ParseInt(w) {
          case Some(n) => value := FromInt(n);
          case None => value := FromName(w);
        }
        r := WithNewPartial(c, Some(Tokens.NumberLiteral(value)));
      case Operator(o) =>
        if IsOperatorChar(c) {
          state := Operator(o + [c]);
          return Ok(None);
        }
        match OperatorToken(o) {
          case Some(token) => r := WithNewPartial(c, Some(token));
          case None => r := Err(InvalidOperator(o));
        }
    }
  }

  /** The partial that takes over, and the token the previous one finished as. */
  datatype NextState = NextState(partial: PartialToken, token: Option<Tokens.Kind>)

  /** state_with_new_partial: allocates the partial c starts. */
  method WithNewPartial(c: char, token: Option<Tokens.Kind>) returns (r: Result<Option<NextState>, string>)
    ensures match HandOver(c, token)
      case Emit(p, t) =>
        r.Ok? && r.value.Some? && fresh(r.value.value.partial)
        && r.value.value.partial.state == p && r.value.value.token == t
      case Fail(message) => r == Err(message)
      case Stay(_) => false
  {
    match NewPartial(c)
    case Ok(p) =>
      var next := new PartialToken(p);
      r := Ok(Some(NextState(next, token)));
    case Err(message) =>
      r := Err(message);
  }

  // ---------------------------------------------------------------------------
  // lex: the scanning loop, range tracking and the final flush

  /** The scanner's state between two characters: the current partial, the tokens so far,
      and the range from where the partial began to the current character. */
  datatype ScanState = ScanState(partial: Partial, tokens: seq<Tokens.Token>, range: Range)

  const Origin := Position(0, 0)
  const Initial := ScanState(WhiteSpace, [], Range(Origin, Origin))

  /** The read_char lambda: step the partial; a hand-over records the token with the current
      range and starts the next range at the current character; a failure becomes an error
      diagnostic over the current range. */
  function ReadAt(st: ScanState, c: char): (r: Result<ScanState, Diagnostic>)
    ensures r.Err? ==> r.error.level == Error && r.error.range == st.range
  {
    match Step(st.partial, c)
    case Stay(p) => Ok(st.(partial := p))
    case Emit(p, token) =>
      var tokens := if token.Some? then st.tokens + [Tokens.Token(st.range, token.value)] else st.tokens;
      Ok(ScanState(p, tokens, st.range.(start := st.range.end)))
    case Fail(message) => Err(Diagnostic(Error, st.range, message))
  }

  /** A newline moves to column 0 of the next line; any other character one column on. */
  function Advance(p: Position, c: char): Position {
    if c == '\n' then Position(p.line + 1, 0) else Position(p.line, p.column + 1)
  }

  /** One iteration of the loop: read the character, then advance the range's end past it. */
  function Feed(st: ScanState, c: char): Result<ScanState, Diagnostic> {
    match ReadAt(st, c)
    case Ok(next) => Ok(next.(range := next.range.(end := Advance(next.range.end, c))))
    case Err(d) => Err(d)
  }

  /** The loop over a text from a given state; the first error ends it. */
  function ScanFrom(st: ScanState, src: string): Result<ScanState, Diagnostic> {
    if src == [] then Ok(st)
    else match ScanFrom(st, src[..|src| - 1])
      case Ok(prev) => Feed(prev, src[|src| - 1])
      case Err(d) => Err(d)
  }

  /** One more character of the text is fed to the state reached so far. */
  lemma ScanNext(src: string, i: nat, st: ScanState)
    requires i < |src| && ScanFrom(Initial, src[..i]) == Ok(st)
    ensures ScanFrom(Initial, src[..i + 1]) == Feed(st, src[i])
  {
    assert src[..i + 1][..i] == src[..i] && src[..i + 1][i] == src[i];
  }

  /** The first error ends the scan: nothing after it is read, and its diagnostic is the
      outcome of the whole text. */
  lemma {:induction false} ErrorStops(st: ScanState, src: string, k: nat)
    requires k <= |src| && ScanFrom(st, src[..k]).Err?
    ensures ScanFrom(st, src) == ScanFrom(st, src[..k])
    decreases |src| - k
  {
    if k < |src| {
      var next := src[..k + 1];
      assert next[..k] == src[..k];
      ErrorStops(st, src, k + 1);
    } else {
      assert src[..k] == src;
    }
  }

  /** What lex returns: the tokens (none after a fatal error) and the diagnostics it
      inserted. */
  datatype LexResult = LexResult(tokens: Option<seq<Tokens.Token>>, diags: seq<Diagnostic>)

  /** lex: scan every character; if the text is non-empty and its last character is not
      whitespace, feed one more newline to finish the pending partial. An error there is
      reported, but the tokens are still returned. */
  function Lexed(src: string): LexResult {
    match ScanFrom(Initial, src)
    case Err(d) => LexResult(None, [d])
    case Ok(st) =>
      if src != [] && !IsSpace(src[|src| - 1]) then
        match ReadAt(st, '\n')
        case Ok(last) => LexResult(Some(last.tokens), [])
        case Err(d) => LexResult(Some(st.tokens), [d])
      else LexResult(Some(st.tokens), [])
  }

  /** The read_char lambda on the scanner's own variables. */
  method ReadInto(partial: PartialToken, tokens: seq<Tokens.Token>, range: Range, c: char)
    returns (r: Result<(PartialToken, seq<Tokens.Token>, Range), Diagnostic>)
    modifies partial
    ensures match ReadAt(ScanState(old(partial.state), tokens, range), c)
      case Ok(st) =>
        r.Ok? && (r.value.0 == partial || fresh(r.value.0))
        && r.value.0.state == st.partial && r.value.1 == st.tokens && r.value.2 == st.range
      case Err(d) => r == Err(d)
  {
    var next := partial.ReadChar(c);
    match next
    case Err(message) =>
      r := Err(Diagnostic(Error, range, message));
    case Ok(None) =>
      r := Ok((partial, tokens, range));
    case Ok(Some(NextState(p, token))) =>
      var newTokens := tokens;
      if token.Some? {
        newTokens := tokens + [Tokens.Token(range, token.value)];
      }
      r := Ok((p, newTokens, range.(start := range.end)));
  }

  /** lex. */
  method Lex(src: string) returns (r: LexResult)
    ensures r == Lexed(src)
  {
    var tokens: seq<Tokens.Token> := [];
    var partial := new PartialToken(WhiteSpace);
    var range := Range(Origin, Origin);
    for i := 0 to |src|
      invariant fresh(partial)
      invariant ScanFrom(Initial, src[..i]) == Ok(ScanState(partial.state, tokens, range))
    {
      ghost var before := ScanState(partial.state, tokens, range);
      ScanNext(src, i, before);
      var c := src[i];
      var next := ReadInto(partial, tokens, range, c);
      if next.Err? {
        ErrorStops(Initial, src, i + 1);
        return LexResult(None, [next.error]);
      }
      partial, tokens, range := next.value.0, next.value.1, next.value.2;
      range := range.(end := Advance(range.end, c));
    }
    assert src[..|src|] == src;
    if src != [] && !IsSpace(src[|src| - 1]) {
      var last := ReadInto(partial, tokens, range, '\n');
      if last.Err? {
        return LexResult(Some(tokens), [last.error]);
      }
      tokens := last.value.1;
    }
    return LexResult(Some(tokens), []);
  }

  // ---------------------------------------------------------------------------
  // Properties of the scanner

  /** Scanning a concatenation scans the second part from where the first left off. */
  lemma {:induction false} ScanFromAppend(st: ScanState, a: string, b: string)
    ensures ScanFrom(st, a + b) ==
      match ScanFrom(st, a)
      case Ok(mid) => ScanFrom(mid, b)
      case Err(d) => Err(d)
    decreases |b|
  {
    if b == [] {
      assert a + b == a;
    } else {
      var c := a + b;
      assert c[..|c| - 1] == a + b[..|b| - 1] && c[|c| - 1] == b[|b| - 1];
      ScanFromAppend(st, a, b[..|b| - 1]);
    }
  }

  /** Scanning one character is one iteration of the loop. */
  lemma ScanOne(st: ScanState, c: char)
    ensures ScanFrom(st, [c]) == Feed(st, c)
  {
    assert [c][..0] == [];
  }

  /** The first character of a source starts its partial at the origin. */
  lemma ScanFirst(c: char, p: Partial)
    requires NewPartial(c) == Ok(p)
    ensures ScanFrom(Initial, [c]) == Ok(ScanState(p, [], Range(Origin, Advance(Origin, c))))
    ensures c != '\n' ==> ScanFrom(Initial, [c]) == Ok(ScanState(p, [], Range(Origin, Position(0, 1))))
  {
    ScanOne(Initial, c);
  }

  /** Scanning a text that extends a scanned prefix continues from the prefix's state. */
  lemma ScanContinue(st: ScanState, a: string, b: string, mid: ScanState)
    requires ScanFrom(st, a) == Ok(mid)
    ensures ScanFrom(st, a + b) == ScanFrom(mid, b)
  {
    ScanFromAppend(st, a, b);
  }

  /** An empty source yields no tokens and no diagnostics. */
  lemma EmptySource()
    ensures Lexed("") == LexResult(Some([]), [])
  {
  }

  /** The final newline hands a finished partial over to whitespace. */
  lemma HandOverNewline(token: Option<Tokens.Kind>)
    ensures HandOver('\n', token) == Emit(WhiteSpace, token)
  {
    NewPartialClasses('\n');
  }

  /** When the last character is not whitespace and the final newline finishes the pending
      partial, its token (if any) is appended with the range the partial covered. */
  lemma FlushEmits(src: string, st: ScanState, token: Option<Tokens.Kind>)
    requires src != [] && !IsSpace(src[|src| - 1])
    requires ScanFrom(Initial, src) == Ok(st) && Step(st.partial, '\n') == Emit(WhiteSpace, token)
    ensures Lexed(src)
         == LexResult(Some(if token.Some? then st.tokens + [Tokens.Token(st.range, token.value)] else st.tokens), [])
  {
  }

  /** When the final newline makes the pending partial fail, the failure is the only
      diagnostic and the tokens gathered so far are still returned. */
  lemma FlushFails(src: string, st: ScanState, message: string)
    requires src != [] && !IsSpace(src[|src| - 1])
    requires ScanFrom(Initial, src) == Ok(st) && Step(st.partial, '\n') == Fail(message)
    ensures Lexed(src) == LexResult(Some(st.tokens), [Diagnostic(Error, st.range, message)])
  {
  }

  /** A character the partial absorbs (other than a newline) moves the range's end one
      column on and leaves the tokens alone. */
  lemma Absorb(st: ScanState, c: char, p: Partial)
    requires c != '\n' && Step(st.partial, c) == Stay(p)
    ensures Feed(st, c)
         == Ok(ScanState(p, st.tokens, Range(st.range.start, Position(st.range.end.line, st.range.end.column + 1))))
  {
  }

  /** A letter, digit or underscore starts a word. */
  lemma WordStarts(c: char)
    requires IsInCharSet(c)
    ensures c != '\n' && NewPartial(c) == Ok(Word([c]))
  {
  }

  /** A word takes in a letter, digit or underscore. */
  lemma WordAbsorbs(w: string, c: char)
    requires IsInCharSet(c)
    ensures c != '\n' && Step(Word(w), c) == Stay(Word(w + [c]))
  {
  }

  /** The scan of a word: one word partial covering the whole source. */
  lemma {:induction false} WordScan(w: string)
    requires |w| >= 1 && forall i :: 0 <= i < |w| ==> IsInCharSet(w[i])
    ensures ScanFrom(Initial, w) == Ok(ScanState(Word(w), [], Range(Origin, Position(0, |w|))))
    decreases |w|
  {
    if |w| == 1 {
      WordStarts(w[0]);
      assert w == [w[0]];
      ScanFirst(w[0], Word(w));
    } else {
      var w0, c := w[..|w| - 1], w[|w| - 1];
      WordScan(w0);
      var st := ScanState(Word(w0), [], Range(Origin, Position(0, |w0|)));
      ScanExtend(Initial, w0, c, st);
      WordAbsorbs(w0, c);
      Absorb(st, c, Word(w0 + [c]));
      assert w0 + [c] == w;
    }
  }

  /** A word, scanned to the end of the source, becomes one number token spanning it: an
      integer when it is a numeral, otherwise the encoding of the name. */
  lemma LexWord(w: string)
    requires |w| >= 1 && forall i :: 0 <= i < |w| ==> IsInCharSet(w[i])
    ensures Lexed(w) == LexResult(Some([Tokens.Token(Range(Origin, Position(0, |w|)),
                                                     Tokens.NumberLiteral(WordValue(w)))]), [])
  {
    WordScan(w);
    var st := ScanState(Word(w), [], Range(Origin, Position(0, |w|)));
    var token := Some(Tokens.NumberLiteral(WordValue(w)));
    HandOverNewline(token);
    assert Step(st.partial, '\n') == Emit(WhiteSpace, token);
    assert IsInCharSet(w[|w| - 1]);
    FlushEmits(w, st, token);
    assert [] + [Tokens.Token(st.range, token.value)] == [Tokens.Token(st.range, token.value)];
  }

  /** A numeral word is the integer literal n, denoting n·π. */
  lemma WordInteger(w: string)
    requires |w| >= 1 && Decimal.AllDigits(w)
    ensures WordValue(w) == FromInt(Decimal.DigitsValue(w))
  {
    assert Decimal.IsDigit(w[0]);
  }

  /** A word with a letter or underscore in it is a name (under the integer syntax that
      Decimal.ParseInt assumes for `BigInt(std::string)`). */
  lemma WordName(w: string, k: nat)
    requires forall i :: 0 <= i < |w| ==> IsInCharSet(w[i])
    requires k < |w| && !Decimal.IsDigit(w[k])
    ensures WordValue(w) == NameValue(w)
  {
    assert !Decimal.AllDigits(w);
  }

  /** The scan of an operator run: one operator partial covering the whole source. */
  lemma {:induction false} OperatorScan(o: string)
    requires |o| >= 1 && forall i :: 0 <= i < |o| ==> IsOperatorChar(o[i])
    ensures ScanFrom(Initial, o) == Ok(ScanState(Operator(o), [], Range(Origin, Position(0, |o|))))
    decreases |o|
  {
    if |o| == 1 {
      OperatorStarts(o[0]);
      assert o == [o[0]];
      ScanFirst(o[0], Operator(o));
    } else {
      var o0, c := o[..|o| - 1], o[|o| - 1];
      OperatorScan(o0);
      var st := ScanState(Operator(o0), [], Range(Origin, Position(0, |o0|)));
      ScanExtend(Initial, o0, c, st);
      OperatorAbsorbs(o0, c);
      Absorb(st, c, Operator(o0 + [c]));
      assert o0 + [c] == o;
    }
  }

  /** An operator character starts an operator. */
  lemma OperatorStarts(c: char)
    requires IsOperatorChar(c)
    ensures c != '\n' && NewPartial(c) == Ok(Operator([c]))
  {
  }

  /** An operator takes in a further operator character. */
  lemma OperatorAbsorbs(o: string, c: char)
    requires IsOperatorChar(c)
    ensures c != '\n' && Step(Operator(o), c) == Stay(Operator(o + [c]))
  {
  }

  /** A maximal run of operator characters must be one of the fourteen spellings. At the end
      of the source, a valid run becomes its token; an invalid one (such as "+-") is
      reported, yet the tokens, here none, are still returned. */
  lemma LexOperator(o: string)
    requires |o| >= 1 && forall i :: 0 <= i < |o| ==> IsOperatorChar(o[i])
    ensures OperatorToken(o).Some? ==>
      Lexed(o) == LexResult(Some([Tokens.Token(Range(Origin, Position(0, |o|)), OperatorToken(o).value)]), [])
    ensures OperatorToken(o).None? ==>
      Lexed(o) == LexResult(Some([]), [Diagnostic(Error, Range(Origin, Position(0, |o|)), InvalidOperator(o))])
  {
    OperatorScan(o);
    var st := ScanState(Operator(o), [], Range(Origin, Position(0, |o|)));
    assert IsOperatorChar(o[|o| - 1]);
    match OperatorToken(o)
    case Some(kind) =>
      HandOverNewline(Some(kind));
      assert Step(st.partial, '\n') == Emit(WhiteSpace, Some(kind));
      FlushEmits(o, st, Some(kind));
      assert [] + [Tokens.Token(st.range, kind)] == [Tokens.Token(st.range, kind)];
    case None =>
      assert Step(st.partial, '\n') == Fail(InvalidOperator(o));
      FlushFails(o, st, InvalidOperator(o));
  }

  /** "+-" is not an operator. */
  lemma InvalidOperatorRun()
    ensures OperatorToken("+-") == None
  {
  }

  /** A comment partial absorbs every character but a newline. */
  lemma {:induction false} CommentRun(t: string, tokens: seq<Tokens.Token>, start: Position, line: int, k: int, s: string)
    requires forall i :: 0 <= i < |s| ==> s[i] != '\n'
    ensures ScanFrom(ScanState(Comment(t), tokens, Range(start, Position(line, k))), s)
         == Ok(ScanState(Comment(t + s), tokens, Range(start, Position(line, k + |s|))))
    decreases |s|
  {
    if s != [] {
      var s0, c := s[..|s| - 1], s[|s| - 1];
      CommentRun(t, tokens, start, line, k, s0);
      var mid := ScanState(Comment(t + s0), tokens, Range(start, Position(line, k + |s0|)));
      ScanExtend(ScanState(Comment(t), tokens, Range(start, Position(line, k))), s0, c, mid);
      assert s0 + [c] == s;
      assert c != '\n';
      Absorb(mid, c, Comment(t + s0 + [c]));
      assert t + s0 + [c] == t + s;
    } else {
      assert t + s == t;
    }
  }

  /** The scan of "#" followed by one line of text. */
  lemma CommentText(s: string)
    requires forall i :: 0 <= i < |s| ==> s[i] != '\n'
    ensures ScanFrom(Initial, "#" + s) == Ok(ScanState(Comment(s), [], Range(Origin, Position(0, |s| + 1))))
  {
    var first: string := ['#'];
    assert NewPartial('#') == Ok(Comment("")) by { NewPartialClasses('#'); }
    ScanFirst('#', Comment(""));
    ScanContinue(Initial, first, s, ScanState(Comment(""), [], Range(Origin, Position(0, 1))));
    CommentRun("", [], Origin, 0, 1, s);
    assert "" + s == s;
    assert first + s == "#" + s;
  }

  /** A comment holds every character after '#' up to the newline, which emits it. */
  lemma LexComment(s: string)
    requires forall i :: 0 <= i < |s| ==> s[i] != '\n'
    ensures Lexed("#" + s + "\n")
         == LexResult(Some([Tokens.Token(Range(Origin, Position(0, |s| + 1)), Tokens.Comment(s))]), [])
  {
    CommentText(s);
    var st := ScanState(Comment(s), [], Range(Origin, Position(0, |s| + 1)));
    ScanExtend(Initial, "#" + s, '\n', st);
    assert "#" + s + "\n" == ("#" + s) + ['\n'];
    assert Step(st.partial, '\n') == Emit(WhiteSpace, Some(Tokens.Comment(s)));
    assert [] + [Tokens.Token(st.range, Tokens.Comment(s))] == [Tokens.Token(st.range, Tokens.Comment(s))];
  }

  /** A comment running to the end of the source is emitted by the final newline only when
      the source does not end in whitespace; otherwise it is lost. */
  lemma CommentAtEnd(s: string)
    requires forall i :: 0 <= i < |s| ==> s[i] != '\n'
    ensures s != [] && IsSpace(s[|s| - 1]) ==> Lexed("#" + s) == LexResult(Some([]), [])
    ensures s == [] || !IsSpace(s[|s| - 1]) ==>
      Lexed("#" + s) == LexResult(Some([Tokens.Token(Range(Origin, Position(0, |s| + 1)), Tokens.Comment(s))]), [])
  {
    CommentText(s);
    var src := "#" + s;
    var st := ScanState(Comment(s), [], Range(Origin, Position(0, |s| + 1)));
    assert src[|src| - 1] == if s == [] then '#' else s[|s| - 1];
    if s == [] || !IsSpace(s[|s| - 1]) {
      assert Step(st.partial, '\n') == Emit(WhiteSpace, Some(Tokens.Comment(s)));
      FlushEmits(src, st, Some(Tokens.Comment(s)));
      assert [] + [Tokens.Token(st.range, Tokens.Comment(s))] == [Tokens.Token(st.range, Tokens.Comment(s))];
    }
  }

  /** The partial of a run of n brackets of the given kind. */
  function BracketPartial(bracket: char, n: int): Partial {
    if bracket == '(' then OpenRun(n) else CloseRun(n)
  }

  /** Scanning one more character is one more iteration of the loop. */
  lemma ScanExtend(st: ScanState, s: string, c: char, prev: ScanState)
    requires ScanFrom(st, s) == Ok(prev)
    ensures ScanFrom(st, s + [c]) == Feed(prev, c)
  {
    assert (s + [c])[..|s|] == s;
  }

  lemma BracketMore(st: ScanState, bracket: char, n: int)
    requires bracket == '(' || bracket == ')'
    requires st.partial == BracketPartial(bracket, n)
    ensures Feed(st, bracket) == Ok(ScanState(BracketPartial(bracket, n + 1), st.tokens,
                                              st.range.(end := Advance(st.range.end, bracket))))
  {
  }

  /** A bracket partial counts a run of the same bracket. */
  lemma {:induction false} BracketRun(bracket: char, n: nat)
    requires bracket == '(' || bracket == ')'
    requires n >= 1
    ensures ScanFrom(Initial, Repeat(bracket, n))
         == Ok(ScanState(BracketPartial(bracket, n), [], Range(Origin, Position(0, n))))
  {
    if n == 1 {
      assert Repeat(bracket, 1) == [bracket];
      assert NewPartial(bracket) == Ok(BracketPartial(bracket, 1)) by { NewPartialClasses(bracket); }
      ScanFirst(bracket, BracketPartial(bracket, 1));
    } else {
      var prev := Repeat(bracket, n - 1);
      assert Repeat(bracket, n) == prev + [bracket];
      BracketRun(bracket, n - 1);
      ScanExtend(Initial, prev, bracket, ScanState(BracketPartial(bracket, n - 1), [], Range(Origin, Position(0, n - 1))));
      BracketMore(ScanState(BracketPartial(bracket, n - 1), [], Range(Origin, Position(0, n - 1))), bracket, n - 1);
    }
  }

  /** The final newline finishes a bracket run: a token for one or two brackets, a failure
      for more. */
  lemma BracketFlush(bracket: char, n: nat)
    requires bracket == '(' || bracket == ')'
    requires n >= 1
    ensures n <= 2 ==> Step(BracketPartial(bracket, n), '\n') == Emit(WhiteSpace, BracketToken(bracket, n))
    ensures n >= 3 ==> Step(BracketPartial(bracket, n), '\n') == Fail(TooMany(bracket, n))
  {
    HandOverNewline(BracketToken(bracket, n));
  }

  /** A run of one bracket is a single bracket token, a run of two a double bracket token,
      and a longer run an error naming the run. */
  lemma LexBrackets(bracket: char, n: nat)
    requires bracket == '(' || bracket == ')'
    requires n >= 1
    ensures n <= 2 ==>
      Lexed(Repeat(bracket, n))
      == LexResult(Some([Tokens.Token(Range(Origin, Position(0, n)), BracketToken(bracket, n).value)]), [])
    ensures n >= 3 ==>
      Lexed(Repeat(bracket, n))
      == LexResult(Some([]), [Diagnostic(Error, Range(Origin, Position(0, n)), TooMany(bracket, n))])
  {
    if n <= 2 {
      BracketEmits(bracket, n);
    } else {
      BracketFails(bracket, n);
    }
  }

  lemma BracketEmits(bracket: char, n: nat)
    requires bracket == '(' || bracket == ')'
    requires 1 <= n <= 2
    ensures Lexed(Repeat(bracket, n))
      == LexResult(Some([Tokens.Token(Range(Origin, Position(0, n)), BracketToken(bracket, n).value)]), [])
  {
    var st := ScanState(BracketPartial(bracket, n), [], Range(Origin, Position(0, n)));
    BracketRun(bracket, n);
    BracketFlush(bracket, n);
    assert Repeat(bracket, n)[n - 1] == bracket && !IsSpace(bracket);
    FlushEmits(Repeat(bracket, n), st, BracketToken(bracket, n));
    var t := Tokens.Token(st.range, BracketToken(bracket, n).value);
    assert [] + [t] == [t];
  }

  lemma BracketFails(bracket: char, n: nat)
    requires bracket == '(' || bracket == ')'
    requires n >= 3
    ensures Lexed(Repeat(bracket, n))
      == LexResult(Some([]), [Diagnostic(Error, Range(Origin, Position(0, n)), TooMany(bracket, n))])
  {
    BracketRun(bracket, n);
    BracketFlush(bracket, n);
    assert Repeat(bracket, n)[n - 1] == bracket && !IsSpace(bracket);
    FlushFails(Repeat(bracket, n), ScanState(BracketPartial(bracket, n), [], Range(Origin, Position(0, n))), TooMany(bracket, n));
  }

  /** The position just after a text: a newline moves to the start of the next line, any
      other character one column on. */
  function EndOf(src: string): Position {
    if src == [] then Origin else Advance(EndOf(src[..|src| - 1]), src[|src| - 1])
  }

  /** Reading a character never moves the end of the range: a hand-over only restarts its
      start there. */
  lemma ReadAtKeepsEnd(st: ScanState, c: char)
    ensures ReadAt(st, c).Ok? ==> ReadAt(st, c).value.range.end == st.range.end
  {
  }

  /** After a successful scan the range ends just after the last character read, whatever
      the tokens were. */
  lemma {:induction false} ScanEnd(src: string)
    ensures ScanFrom(Initial, src).Ok? ==> ScanFrom(Initial, src).value.range.end == EndOf(src)
    decreases |src|
  {
    if src != [] {
      var init, c := src[..|src| - 1], src[|src| - 1];
      ScanEnd(init);
      if ScanFrom(Initial, init).Ok? {
        ReadAtKeepsEnd(ScanFrom(Initial, init).value, c);
      }
    }
  }

  /** A partial that a character it does not absorb finishes without an error of its own:
      anything but a comment, a bracket run too long to be a token, or an operator run that
      is not one of the spellings. */
  predicate Finishable(p: Partial) {
    match p
    case OpenRun(n) => n == 1 || n == 2
    case CloseRun(n) => n == 1 || n == 2
    case Comment(_) => false
    case Operator(o) => OperatorToken(o).Some?
    case _ => true
  }

  /** Every partial but a comment hands over to a character it does not absorb, so a
      character that starts no partial makes it fail. */
  lemma FailsOnInvalid(st: ScanState, c: char)
    requires NewPartial(c).Err? && !st.partial.Comment?
    ensures Feed(st, c).Err? && Feed(st, c).error.range == st.range
    ensures Finishable(st.partial) ==>
            Feed(st, c).error.message == InvalidCharacter(c)
  {
    NewPartialClasses(c);
  }

  /** A character that starts no partial stops the scan as soon as the pending partial hands
      over to it (any partial but a comment, which takes in everything but a newline); the
      text after it is never read and lex returns no tokens. When the pending partial is
      finishable the error names the character. */
  lemma InvalidCharacterStops(a: string, c: char, b: string)
    requires NewPartial(c).Err?
    requires ScanFrom(Initial, a).Ok? && !ScanFrom(Initial, a).value.partial.Comment?
    ensures ScanFrom(Initial, a + [c] + b).Err?
    ensures ScanFrom(Initial, a + [c] + b).error.range == ScanFrom(Initial, a).value.range
    ensures Lexed(a + [c] + b).tokens == None
    ensures Finishable(ScanFrom(Initial, a).value.partial) ==>
            ScanFrom(Initial, a + [c] + b).error.message == InvalidCharacter(c)
  {
    var st := ScanFrom(Initial, a).value;
    FailsOnInvalid(st, c);
    ScanExtend(Initial, a, c, st);
    var src := a + [c] + b;
    assert src[..|a| + 1] == a + [c];
    ErrorStops(Initial, src, |a| + 1);
  }

}
