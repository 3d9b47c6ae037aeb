/** The first parsing stage (de_double_bracket in lib/parser.cpp): match "((" with "))" using
    a stack of element lists, splitting each list into elements at ';'. */
module DoubleBracket {
  import opened Wrappers
  import opened Diagnostics
  import opened Number
  import Ops
  import Tokens

  /** A token that survives this stage, or a matched "(( ... ))" node. */
  datatype Item =
    | Open(range: Range)
    | Close(range: Range)
    | Literal(range: Range, value: Value)
    | Assign(range: Range)
    | Binary(range: Range, binary: Ops.Binary)
    | Unary(range: Range, unary: Ops.Unary)
    | Node(range: Range, elements: seq<Element>)

  /** The items between two ';'. */
  datatype Element = Element(items: seq<Item>)

  /** Every element of a node is non-empty, all the way down. */
  predicate WellFormed(item: Item) {
    match item
    case Node(_, elements) => WellFormedElements(elements)
    case _ => true
  }

  predicate WellFormedElements(elements: seq<Element>) {
    forall i :: 0 <= i < |elements| ==> elements[i].items != [] && WellFormedItems(elements[i].items)
  }

  predicate WellFormedItems(items: seq<Item>) {
    forall j :: 0 <= j < |items| ==> WellFormed(items[j])
  }

  const UnmatchedClose := "Can not find matching '(('"
  const UnmatchedOpen := "Can not find matching '))'"
  const ExtraSemicolon := "Extra ';' found"

  /** The loop's variables: the stack of element lists (one per open "((" plus the outermost),
      the ranges of the open "((", and the fatal flag. */
  datatype State = State(frames: seq<seq<Element>>, open: seq<Range>, fatal: bool)

  /** One frame per open "((" plus the outermost, and every frame has a current element. */
  predicate Valid(st: State) {
    |st.frames| == |st.open| + 1 && forall k :: 0 <= k < |st.frames| ==> st.frames[k] != []
  }

  const Initial := State([[Element([])]], [], false)

  function Last<T>(s: seq<T>): T
    requires s != []
  {
    s[|s| - 1]
  }

  /** The items of the current element. */
  function Current(st: State): seq<Item>
    requires Valid(st)
  {
    Last(Last(st.frames)).items
  }

  /** Append an item to the current element of the top frame. */
  function PushFrames(frames: seq<seq<Element>>, item: Item): (r: seq<seq<Element>>)
    requires frames != [] && Last(frames) != []
    ensures |r| == |frames| && r[..|r| - 1] == frames[..|frames| - 1]
    ensures |Last(r)| == |Last(frames)| && Last(r)[..|Last(r)| - 1] == Last(frames)[..|Last(frames)| - 1]
    ensures Last(Last(r)).items == Last(Last(frames)).items + [item]
  {
    var frame := Last(frames);
    frames[..|frames| - 1] + [frame[..|frame| - 1] + [Element(Last(frame).items + [item])]]
  }

  function Push(st: State, item: Item): (r: State)
    requires Valid(st)
    ensures Valid(r) && r.open == st.open && r.fatal == st.fatal
  {
    st.(frames := PushFrames(st.frames, item))
  }

  /** A closed frame loses its current element when that is empty (a trailing ';'). */
  function DropEmpty(frame: seq<Element>): seq<Element>
    requires frame != []
  {
    if Last(frame).items == [] then frame[..|frame| - 1] else frame
  }

  /** A token that is carried through unchanged, as an item. */
  function Leaf(token: Tokens.Token): Option<Item> {
    match token.kind
    case OpenBracket => Some(Open(token.range))
    case CloseBracket => Some(Close(token.range))
    case NumberLiteral(value) => Some(Literal(token.range, value))
    case Assign => Some(Assign(token.range))
    case OperatorBinary(binary) => Some(Binary(token.range, binary))
    case OperatorUnary(unary) => Some(Unary(token.range, unary))
    case _ => None
  }

  /** "((": a new frame with an empty current element. */
  function OpenNode(st: State, range: Range): (r: State)
    requires Valid(st)
    ensures Valid(r)
  {
    State(st.frames + [[Element([])]], st.open + [range], st.fatal)
  }

  /** "))": the top frame becomes a node in the frame below, spanning from the "((" to the "))";
      without an open "((" the stage is marked as failed. */
  function CloseNode(st: State, range: Range): (r: State)
    requires Valid(st)
    ensures Valid(r)
  {
    if st.open != [] then
      var node := Node(Range(Last(st.open).start, range.end), DropEmpty(Last(st.frames)));
      Push(State(st.frames[..|st.frames| - 1], st.open[..|st.open| - 1], st.fatal), node)
    else
      st.(fatal := true)
  }

  /** ';': a new current element, unless the current one is empty. */
  function NextElement(st: State): (r: State)
    requires Valid(st)
    ensures Valid(r)
  {
    if Current(st) == [] then st
    else st.(frames := st.frames[..|st.frames| - 1] + [Last(st.frames) + [Element([])]])
  }

  /** The visitor applied to one token: the new loop variables. */
  function Step(st: State, token: Tokens.Token): (r: State)
    requires Valid(st)
    ensures Valid(r)
  {
    match token.kind
    case OpenBracket2 => OpenNode(st, token.range)
    case CloseBracket2 => CloseNode(st, token.range)
    case Semicolon => NextElement(st)
    case Comment(_) => st
    case _ => Push(st, Leaf(token).value)
  }

  /** The visitor applied to one token: the diagnostic it inserts, if any. */
  function Report(st: State, token: Tokens.Token): seq<Diagnostic>
    requires Valid(st)
  {
    match token.kind
    case CloseBracket2 =>
      if st.open == [] then [Diagnostic(Error, token.range, UnmatchedClose)] else []
    case Semicolon =>
      if Current(st) == [] then [Diagnostic(Warning, token.range, ExtraSemicolon)] else []
    case _ => []
  }

  /** The loop over the remaining tokens: the final variables. */
  function Run(st: State, tokens: seq<Tokens.Token>): (r: State)
    requires Valid(st)
    ensures Valid(r)
    decreases |tokens|
  {
    if tokens == [] then st else Run(Step(st, tokens[0]), tokens[1..])
  }

  /** The loop over the remaining tokens: the diagnostics inserted so far (acc) followed by those
      it inserts, in order. */
  function Reported(st: State, acc: seq<Diagnostic>, tokens: seq<Tokens.Token>): seq<Diagnostic>
    requires Valid(st)
    decreases |tokens|
  {
    if tokens == [] then acc else Reported(Step(st, tokens[0]), acc + Report(st, tokens[0]), tokens[1..])
  }

  /** What parse returns: the outermost elements, or none on failure, and the diagnostics it
      inserted. */
  datatype Outcome = Outcome(elements: Option<seq<Element>>, diags: seq<Diagnostic>)

  /** After the loop: open "((" are errors; a fatal "))" fails; otherwise the single remaining
      frame, without an empty trailing element. */
  function Finish(st: State, reported: seq<Diagnostic>): Outcome
    requires Valid(st)
  {
    if st.open != [] then Outcome(None, reported + ErrorsAt(st.open, UnmatchedOpen))
    else if st.fatal then Outcome(None, reported)
    else Outcome(Some(DropEmpty(st.frames[0])), reported)
  }

  /** de_double_bracket::parse. */
  function Debracketed(tokens: seq<Tokens.Token>): Outcome {
    Finish(Run(Initial, tokens), Reported(Initial, [], tokens))
  }

  method CloseBracket2(frames: seq<seq<Element>>, open: seq<Range>, fatal: bool, range: Range, diags: Diags)
    returns (frames': seq<seq<Element>>, open': seq<Range>, fatal': bool)
    requires Valid(State(frames, open, fatal))
    modifies diags
    ensures State(frames', open', fatal') == CloseNode(State(frames, open, fatal), range)
    ensures diags.items == old(diags.items) + (if open == [] then [Diagnostic(Error, range, UnmatchedClose)] else [])
  {
    frames', open', fatal' := frames, open, fatal;
    if open != [] {
      var elements := frames[|frames| - 1];
      frames' := frames[..|frames| - 1];
      if elements[|elements| - 1].items == [] {
        elements := elements[..|elements| - 1];
      }
      var start := open[|open| - 1];
      open' := open[..|open| - 1];
      frames' := PushFrames(frames', Node(Range(start.start, range.end), elements));
    } else {
      diags.Insert(Diagnostic(Error, range, UnmatchedClose));
      fatal' := true;
      assert open + [] == open;
    }
  }

  method Semicolon(frames: seq<seq<Element>>, open: seq<Range>, fatal: bool, range: Range, diags: Diags)
    returns (frames': seq<seq<Element>>)
    requires Valid(State(frames, open, fatal))
    modifies diags
    ensures State(frames', open, fatal) == NextElement(State(frames, open, fatal))
    ensures diags.items == old(diags.items) + Report(State(frames, open, fatal), Tokens.Token(range, Tokens.Semicolon))
  {
    frames' := frames;
    var frame := frames[|frames| - 1];
    if frame[|frame| - 1].items == [] {
      diags.Insert(Diagnostic(Warning, range, ExtraSemicolon));
    } else {
      frames' := frames[..|frames| - 1] + [frame + [Element([])]];
    }
  }

  /** The visitor, on the loop's own stacks; a diagnostic goes to the sink. */
  method Visit(frames: seq<seq<Element>>, open: seq<Range>, fatal: bool, token: Tokens.Token, diags: Diags)
    returns (frames': seq<seq<Element>>, open': seq<Range>, fatal': bool)
    requires Valid(State(frames, open, fatal))
    modifies diags
    ensures State(frames', open', fatal') == Step(State(frames, open, fatal), token)
    ensures diags.items == old(diags.items) + Report(State(frames, open, fatal), token)
  {
    frames', open', fatal' := frames, open, fatal;
    match token.kind {
      case OpenBracket2 =>
        open' := open + [token.range];
        frames' := frames + [[Element([])]];
      case CloseBracket2 =>
        frames', open', fatal' := CloseBracket2(frames, open, fatal, token.range, diags);
      case Semicolon =>
        frames' := Semicolon(frames, open, fatal, token.range, diags);
      case Comment(_) =>
      case _ =>
        frames' := PushFrames(frames, Leaf(token).value);
    }
  }

  /** The token loop of de_double_bracket::parse: the final stacks, diagnostics to the sink. */
  method Scan(tokens: seq<Tokens.Token>, diags: Diags)
    returns (frames: seq<seq<Element>>, open: seq<Range>, fatal: bool)
    modifies diags
    ensures Valid(State(frames, open, fatal))
    ensures State(frames, open, fatal) == Run(Initial, tokens)
    ensures diags.items == Reported(Initial, old(diags.items), tokens)
  {
    frames, open, fatal := [[Element([])]], [], false;
    for i := 0 to |tokens|
      invariant Valid(State(frames, open, fatal))
      invariant Run(State(frames, open, fatal), tokens[i..]) == Run(Initial, tokens)
      invariant Reported(State(frames, open, fatal), diags.items, tokens[i..])
             == Reported(Initial, old(diags.items), tokens)
    {
      assert tokens[i..][1..] == tokens[i + 1..];
      frames, open, fatal := Visit(frames, open, fatal, tokens[i], diags);
    }
    assert tokens[|tokens|..] == [];
  }

  /** de_double_bracket::parse; diagnostics go to the sink. */
  method Parse(tokens: seq<Tokens.Token>, diags: Diags) returns (r: Option<seq<Element>>)
    modifies diags
    ensures r == Debracketed(tokens).elements
    ensures diags.items == old(diags.items) + Debracketed(tokens).diags
  {
    ReportedFrom(Initial, old(diags.items), tokens);
    var frames, open, fatal := Scan(tokens, diags);
    if open != [] {
      diags.InsertErrors(open, UnmatchedOpen);
      return None;
    }
    if fatal {
      return None;
    }
    var top := frames[0];
    if top[|top| - 1].items == [] {
      top := top[..|top| - 1];
    }
    return Some(top);
  }

  // ---- Properties of the stage ----

  /** Running over a + b is running over a, then over b. */
  lemma {:induction false} RunAppend(st: State, acc: seq<Diagnostic>, a: seq<Tokens.Token>, b: seq<Tokens.Token>)
    requires Valid(st)
    ensures Run(st, a + b) == Run(Run(st, a), b)
    ensures Reported(st, acc, a + b) == Reported(Run(st, a), Reported(st, acc, a), b)
    decreases |a|
  {
    if a == [] {
      assert a + b == b;
    } else {
      assert (a + b)[1..] == a[1..] + b;
      RunAppend(Step(st, a[0]), acc + Report(st, a[0]), a[1..], b);
    }
  }

  /** The diagnostics already inserted stay in front of those the loop inserts. */
  lemma {:induction false} ReportedFrom(st: State, acc: seq<Diagnostic>, tokens: seq<Tokens.Token>)
    requires Valid(st)
    ensures Reported(st, acc, tokens) == acc + Reported(st, [], tokens)
    decreases |tokens|
  {
    if tokens == [] {
      assert acc + [] == acc;
    } else {
      var next, r := Step(st, tokens[0]), Report(st, tokens[0]);
      var rest := Reported(next, [], tokens[1..]);
      assert Reported(st, acc, tokens) == acc + r + rest by {
        ReportedFrom(next, acc + r, tokens[1..]);
      }
      assert Reported(st, [], tokens) == r + rest by {
        ReportedFrom(next, r, tokens[1..]);
        assert [] + r == r;
      }
      assert acc + r + rest == acc + (r + rest);
    }
  }

  /** A frame as the loop keeps it: only its current (last) element may be empty. */
  predicate FrameOk(frame: seq<Element>) {
    && frame != []
    && (forall i :: 0 <= i < |frame| - 1 ==> frame[i].items != [])
    && (forall i :: 0 <= i < |frame| ==> WellFormedItems(frame[i].items))
  }

  predicate Inv(st: State) {
    Valid(st) && forall k :: 0 <= k < |st.frames| ==> FrameOk(st.frames[k])
  }

  lemma DropEmptyWellFormed(frame: seq<Element>)
    requires FrameOk(frame)
    ensures WellFormedElements(DropEmpty(frame))
  {
  }

  lemma PushInv(st: State, item: Item)
    requires Inv(st) && WellFormed(item)
    ensures Inv(Push(st, item))
  {
    var r := Push(st, item);
    var frame := Last(r.frames);
    assert frame == Last(st.frames)[..|Last(st.frames)| - 1] + [Element(Current(st) + [item])];
    forall k | 0 <= k < |r.frames|
      ensures FrameOk(r.frames[k])
    {
      if k < |r.frames| - 1 {
        assert r.frames[k] == st.frames[k];
      }
    }
  }

  lemma CloseInv(st: State, range: Range)
    requires Inv(st)
    ensures Inv(CloseNode(st, range))
  {
    if st.open != [] {
      DropEmptyWellFormed(Last(st.frames));
      var below := State(st.frames[..|st.frames| - 1], st.open[..|st.open| - 1], st.fatal);
      PushInv(below, Node(Range(Last(st.open).start, range.end), DropEmpty(Last(st.frames))));
    }
  }

  lemma StepInv(st: State, token: Tokens.Token)
    requires Inv(st)
    ensures Inv(Step(st, token))
  {
    match token.kind
    case CloseBracket2 => CloseInv(st, token.range);
    case Semicolon =>
    case OpenBracket2 =>
    case Comment(_) =>
    case _ => PushInv(st, Leaf(token).value);
  }

  lemma {:induction false} RunInv(st: State, tokens: seq<Tokens.Token>)
    requires Inv(st)
    ensures Inv(Run(st, tokens))
    decreases |tokens|
  {
    if tokens != [] {
      StepInv(st, tokens[0]);
      RunInv(Step(st, tokens[0]), tokens[1..]);
    }
  }

  /** What the stage hands on has no empty element, at any depth. */
  lemma DebracketedWellFormed(tokens: seq<Tokens.Token>)
    ensures Debracketed(tokens).elements.Some? ==> WellFormedElements(Debracketed(tokens).elements.value)
  {
    RunInv(Initial, tokens);
    var st := Run(Initial, tokens);
    if st.open == [] && !st.fatal {
      DropEmptyWellFormed(st.frames[0]);
    }
  }

  /** An unmatched "))" is reported and the whole stage fails, whatever follows. */
  lemma {:induction false} FatalSticks(st: State, tokens: seq<Tokens.Token>)
    requires Valid(st) && st.fatal
    ensures Run(st, tokens).fatal
    decreases |tokens|
  {
    if tokens != [] {
      FatalSticks(Step(st, tokens[0]), tokens[1..]);
    }
  }

  /** The unmatched "))" itself: the stage is marked as failed and the error reported. */
  lemma UnmatchedCloseStep(st: State, acc: seq<Diagnostic>, tokens: seq<Tokens.Token>)
    requires Valid(st) && st.open == [] && tokens != [] && tokens[0].kind.CloseBracket2?
    ensures Run(st, tokens).fatal
    ensures |acc| < |Reported(st, acc, tokens)|
    ensures Reported(st, acc, tokens)[|acc|] == Diagnostic(Error, tokens[0].range, UnmatchedClose)
  {
    var err := Diagnostic(Error, tokens[0].range, UnmatchedClose);
    var next := Step(st, tokens[0]);
    assert next.fatal && Report(st, tokens[0]) == [err];
    FatalSticks(next, tokens[1..]);
    ReportedFrom(next, acc + [err], tokens[1..]);
    assert (acc + [err] + Reported(next, [], tokens[1..]))[|acc|] == err;
  }

  lemma UnmatchedCloseFails(tokens: seq<Tokens.Token>, i: nat)
    requires i < |tokens| && tokens[i].kind.CloseBracket2?
    requires Run(Initial, tokens[..i]).open == []
    ensures Debracketed(tokens).elements.None?
    ensures Diagnostic(Error, tokens[i].range, UnmatchedClose) in Debracketed(tokens).diags
  {
    assert tokens == tokens[..i] + tokens[i..];
    RunAppend(Initial, [], tokens[..i], tokens[i..]);
    var before := Reported(Initial, [], tokens[..i]);
    UnmatchedCloseStep(Run(Initial, tokens[..i]), before, tokens[i..]);
    var reported := Reported(Initial, [], tokens);
    assert reported[|before|] in reported;
    var st := Run(Initial, tokens);
    assert Debracketed(tokens).diags == reported || Debracketed(tokens).diags == reported + ErrorsAt(st.open, UnmatchedOpen);
  }

  /** Comments are ignored. */
  function DropComments(tokens: seq<Tokens.Token>): (r: seq<Tokens.Token>)
    ensures forall j :: 0 <= j < |r| ==> !r[j].kind.Comment?
    ensures |r| <= |tokens|
  {
    if tokens == [] then []
    else if tokens[0].kind.Comment? then DropComments(tokens[1..])
    else [tokens[0]] + DropComments(tokens[1..])
  }

  lemma {:induction false} RunDropComments(st: State, acc: seq<Diagnostic>, tokens: seq<Tokens.Token>)
    requires Valid(st)
    ensures Run(st, DropComments(tokens)) == Run(st, tokens)
    ensures Reported(st, acc, DropComments(tokens)) == Reported(st, acc, tokens)
    decreases |tokens|
  {
    if tokens != [] {
      var next, r := Step(st, tokens[0]), Report(st, tokens[0]);
      RunDropComments(next, acc + r, tokens[1..]);
      if tokens[0].kind.Comment? {
        assert next == st && acc + r == acc;
      } else {
        assert ([tokens[0]] + DropComments(tokens[1..]))[1..] == DropComments(tokens[1..]);
      }
    }
  }

  lemma CommentsIgnored(tokens: seq<Tokens.Token>)
    ensures Debracketed(DropComments(tokens)) == Debracketed(tokens)
  {
    RunDropComments(Initial, [], tokens);
  }

  predicate AllLeaves(tokens: seq<Tokens.Token>) {
    forall j :: 0 <= j < |tokens| ==> Leaf(tokens[j]).Some?
  }

  function Leaves(tokens: seq<Tokens.Token>): (items: seq<Item>)
    requires AllLeaves(tokens)
    ensures |items| == |tokens|
    ensures forall j :: 0 <= j < |tokens| ==> items[j] == Leaf(tokens[j]).value
  {
    if tokens == [] then [] else [Leaf(tokens[0]).value] + Leaves(tokens[1..])
  }

  lemma LeafStep(items: seq<Item>, token: Tokens.Token)
    requires Leaf(token).Some?
    ensures Step(State([[Element(items)]], [], false), token) == State([[Element(items + [Leaf(token).value])]], [], false)
    ensures Report(State([[Element(items)]], [], false), token) == []
  {
  }

  lemma {:induction false} RunLeaves(items: seq<Item>, acc: seq<Diagnostic>, tokens: seq<Tokens.Token>)
    requires AllLeaves(tokens)
    ensures Run(State([[Element(items)]], [], false), tokens) == State([[Element(items + Leaves(tokens))]], [], false)
    ensures Reported(State([[Element(items)]], [], false), acc, tokens) == acc
    decreases |tokens|
  {
    if tokens == [] {
      assert items + [] == items;
    } else {
      var item := Leaf(tokens[0]).value;
      LeafStep(items, tokens[0]);
      assert acc + [] == acc;
      RunLeaves(items + [item], acc, tokens[1..]);
      assert items + [item] + Leaves(tokens[1..]) == items + Leaves(tokens);
    }
  }

  /** Without brackets, ';' or comments, the tokens become one element holding them in order. */
  lemma PlainTokens(tokens: seq<Tokens.Token>)
    requires tokens != [] && AllLeaves(tokens)
    ensures Debracketed(tokens) == Outcome(Some([Element(Leaves(tokens))]), [])
  {
    RunLeaves([], [], tokens);
    assert [] + Leaves(tokens) == Leaves(tokens);
  }

  /** The ranges of the "((" tokens, in order, after those already in acc. */
  function OpenRanges(acc: seq<Range>, tokens: seq<Tokens.Token>): seq<Range>
    decreases |tokens|
  {
    if tokens == [] then acc
    else OpenRanges(if tokens[0].kind.OpenBracket2? then acc + [tokens[0].range] else acc, tokens[1..])
  }

  /** No "))" among the tokens. */
  predicate NoClose(tokens: seq<Tokens.Token>) {
    forall j :: 0 <= j < |tokens| ==> !tokens[j].kind.CloseBracket2?
  }

  lemma StepWithoutClose(st: State, token: Tokens.Token)
    requires Valid(st) && !token.kind.CloseBracket2?
    ensures Step(st, token).open == (if token.kind.OpenBracket2? then st.open + [token.range] else st.open)
    ensures Step(st, token).fatal == st.fatal
  {
  }

  lemma NoCloseCons(tokens: seq<Tokens.Token>)
    requires tokens != [] && NoClose(tokens)
    ensures !tokens[0].kind.CloseBracket2? && NoClose(tokens[1..])
  {
  }

  lemma {:induction false} RunWithoutClose(st: State, tokens: seq<Tokens.Token>)
    requires Valid(st) && NoClose(tokens)
    ensures Run(st, tokens).open == OpenRanges(st.open, tokens)
    ensures Run(st, tokens).fatal == st.fatal
    decreases |tokens|
  {
    if tokens != [] {
      NoCloseCons(tokens);
      StepWithoutClose(st, tokens[0]);
      RunWithoutClose(Step(st, tokens[0]), tokens[1..]);
    }
  }

  /** Without any "))", the stage fails exactly when some "((" is present; each "((" is reported,
      in order, after whatever ';' warnings came before. */
  lemma UnclosedReported(tokens: seq<Tokens.Token>)
    requires NoClose(tokens)
    ensures Debracketed(tokens).elements.None? <==> OpenRanges([], tokens) != []
    ensures Debracketed(tokens).diags == Reported(Initial, [], tokens) + ErrorsAt(OpenRanges([], tokens), UnmatchedOpen)
  {
    RunWithoutClose(Initial, tokens);
  }
}
