/** The third parsing stage (namespace ast in lib/parser.cpp): the items of every element become
    one expression tree. Numbers, "( ... )" groups, "(( ... ))" nodes and ":=" are turned into
    operands first (parse_brackets_number_assign); the operators are then resolved by
    precedence with an operator stack and an operand stack (parse_ops, parse_unary). */
module Ast {
  import opened Wrappers
  import opened Diagnostics
  import Num = Number
  import Ops
  import Tokens
  import Lexer
  import DoubleBracket
  import SingleBracket

  /** An expression (ast::Any) together with its source range (diag::WithInfo). */
  datatype Node = Node(range: Range, any: Any)

  datatype Any =
    | Array(elements: seq<Node>)
    | Assign(lhs: Node, rhs: Node)
    | Index(subject: Option<Node>, index: Node)
    | Binary(kind: Ops.Binary, lhs: Node, rhs: Node)
    | Unary(op: Ops.Unary, rhs: Node)
    | Number(value: Num.Value)

  /** The items between the two halves of the stage (IRBNA): an operator, or an operand whose
      range is its node's range. */
  datatype Ir =
    | Operator(range: Range, binary: Ops.Binary)
    | UnaryOp(range: Range, unary: Ops.Unary)
    | Operand(node: Node)

  /** A result with the diagnostics inserted so far, or a failed assert of the source, which
      ends the process. */
  datatype Outcome<T> = Done(value: T, diags: seq<Diagnostic>) | Aborted

  /** The operand that lets parsing go on after an element that could not be parsed. */
  const Placeholder := Node(Range(Position(0, 0), Position(0, 0)), Number(Num.NameValue("Place_holder_to_continue_parsing")))

  const UnexpectedAssign := "Unexpected ':='"
  const ExpectedExpression := "Expected expression after ':='"
  const ExpectedOperator := "Expected operator"

  /** How a binary operator is named in a diagnostic: its spelling in source text. */
  function Spelling(b: Ops.Binary): (s: string)
    ensures Lexer.OperatorToken(s) == Some(Tokens.OperatorBinary(b))
  {
    match b
    case Plus => "+"
    case Minus => "-"
    case Multiply => "*"
    case Divide => "/"
    case BoolAnd => "&&"
    case BoolOr => "||"
    case Equal => "="
    case NotEqual => "!="
    case Smaller => "<"
    case SmallerOrEqual => "<="
    case Greater => ">"
    case GreaterOrEqual => ">="
  }

  function Unexpected(b: Ops.Binary): string {
    "Unexpected '" + Spelling(b) + "'"
  }

  function UnexpectedAfterUnary(b: Ops.Binary): string {
    "Unexpected '" + Spelling(b) + "' after unary operator"
  }

  /** get_precedence: a greater value binds tighter. */
  function Precedence(b: Ops.Binary): (p: int)
    ensures 1 <= p <= 4
    ensures p == 4 <==> b.Multiply? || b.Divide?
    ensures p == 3 <==> b.Plus? || b.Minus?
    ensures p == 1 <==> b.BoolAnd? || b.BoolOr?
  {
    match b
    case Multiply => 4
    case Divide => 4
    case Plus => 3
    case Minus => 3
    case BoolAnd => 1
    case BoolOr => 1
    case _ => 2
  }

  // ---------------------------------------------------------------------------
  // parse_unary

  /** A run of unary operators applied to the operand that ends it, and the items after it. */
  datatype Applied = Applied(node: Node, rest: seq<Ir>)

  /** The unary operators in ops applied to node, the last one innermost: each spans from its
      own start to the end of its operand. */
  function Wrap(ops: seq<(Range, Ops.Unary)>, node: Node): Node
    decreases |ops|
  {
    if ops == [] then node
    else
      var op := ops[|ops| - 1];
      Wrap(ops[..|ops| - 1], Node(Range(op.0.start, node.range.end), Unary(op.1, node)))
  }

  /** parse_unary from the current item on, with the unary operators ops collected so far: a
      binary operator is reported and stops the expression, the end of the items stops it
      silently, and an operand closes the run. */
  function ParseUnary(ops: seq<(Range, Ops.Unary)>, irs: seq<Ir>, acc: seq<Diagnostic>): (r: Outcome<Option<Applied>>)
    ensures r.Done? && r.value.Some? ==> |r.value.value.rest| < |irs|
    decreases |irs|
  {
    if irs == [] then Done(None, acc)
    else
      match irs[0]
      case Operator(range, b) => Done(None, acc + [Diagnostic(Error, range, UnexpectedAfterUnary(b))])
      case UnaryOp(range, u) => ParseUnary(ops + [(range, u)], irs[1..], acc)
      case Operand(node) =>
        if ops == [] then Aborted else Done(Some(Applied(Wrap(ops, node), irs[1..])), acc)
  }

  /** parse_unary as it is written: the branch for a unary operator records nothing, so the
      operand that ends the run always meets an empty operator list and the assert on it
      fails. */
  function UnaryAsWritten(irs: seq<Ir>, acc: seq<Diagnostic>): (r: Outcome<Option<Applied>>)
    decreases |irs|
  {
    if irs == [] then Done(None, acc)
    else
      match irs[0]
      case Operator(range, b) => Done(None, acc + [Diagnostic(Error, range, UnexpectedAfterUnary(b))])
      case UnaryOp(_, _) => UnaryAsWritten(irs[1..], acc)
      case Operand(_) => Aborted
  }

  // ---------------------------------------------------------------------------
  // parse_ops

  /** A binary operator on the operator stack, with its source range. */
  datatype Pending = Pending(range: Range, kind: Ops.Binary)

  /** The operator stack and the operand stack of parse_ops. */
  datatype Stacks = Stacks(operators: seq<Pending>, operands: seq<Node>)

  /** There is one operand more than operators when an operator is due, as many when an
      operand is due. */
  predicate Balanced(st: Stacks) {
    |st.operands| == |st.operators| || |st.operands| == |st.operators| + 1
  }

  /** pop_operator: the top operator joins the top two operands, spanning both. */
  function PopOperator(st: Stacks): (r: Stacks)
    requires |st.operators| >= 1 && |st.operands| == |st.operators| + 1
    ensures |r.operators| == |st.operators| - 1 && |r.operands| == |r.operators| + 1
  {
    var n := |st.operands|;
    var lhs := st.operands[n - 2];
    var rhs := st.operands[n - 1];
    var op := st.operators[|st.operators| - 1];
    Stacks(st.operators[..|st.operators| - 1],
           st.operands[..n - 2] + [Node(Range(lhs.range.start, rhs.range.end), Binary(op.kind, lhs, rhs))])
  }

  /** Before an incoming operator b: pop while the top operator binds at least as tightly. */
  function PopWhile(st: Stacks, b: Ops.Binary): (r: Stacks)
    requires |st.operands| == |st.operators| + 1
    ensures |r.operands| == |r.operators| + 1
    ensures r.operators == [] || Precedence(b) > Precedence(r.operators[|r.operators| - 1].kind)
    decreases |st.operators|
  {
    if st.operators != [] && Precedence(b) <= Precedence(st.operators[|st.operators| - 1].kind) then
      PopWhile(PopOperator(st), b)
    else st
  }

  /** After the last item: pop every operator. */
  function PopAll(st: Stacks): (r: Stacks)
    requires |st.operands| == |st.operators| + 1
    ensures r.operators == [] && |r.operands| == 1
    decreases |st.operators|
  {
    if st.operators != [] then PopAll(PopOperator(st)) else st
  }

  /** The loop of parse_ops over the remaining items. */
  function Shunt(st: Stacks, irs: seq<Ir>, acc: seq<Diagnostic>): Outcome<Option<Node>>
    requires Balanced(st) && (irs != [] || st.operands != [])
    decreases |irs|, 1
  {
    if irs == [] then
      if |st.operands| == |st.operators| + 1 then Done(Some(PopAll(st).operands[0]), acc)
      else
        var op := st.operators[|st.operators| - 1];
        Done(None, acc + [Diagnostic(Error, op.range, Unexpected(op.kind))])
    else
      match irs[0]
      case Operator(range, b) =>
        if |st.operands| != |st.operators| + 1 then Done(None, acc + [Diagnostic(Error, range, Unexpected(b))])
        else
          var popped := PopWhile(st, b);
          Shunt(Stacks(popped.operators + [Pending(range, b)], popped.operands), irs[1..], acc)
      case UnaryOp(_, _) =>
        var unary := ParseUnary([], irs, acc);
        if unary.Aborted? then Aborted
        else if unary.value.None? then Done(None, unary.diags)
        else Take(st, unary.value.value.node, unary.value.value.rest, unary.diags)
      case Operand(node) => Take(st, node, irs[1..], acc)
  }

  /** An operand arrives: it is reported unless an operand is due. */
  function Take(st: Stacks, node: Node, rest: seq<Ir>, acc: seq<Diagnostic>): Outcome<Option<Node>>
    requires Balanced(st)
    decreases |rest|, 2
  {
    if |st.operands| != |st.operators| then Done(None, acc + [Diagnostic(Error, node.range, ExpectedOperator)])
    else Shunt(Stacks(st.operators, st.operands + [node]), rest, acc)
  }

  /** parse_ops: the expression, or None after a reported mistake; the items must not be
      empty. */
  function ParseOps(irs: seq<Ir>, acc: seq<Diagnostic>): Outcome<Option<Node>> {
    if irs == [] then Aborted else Shunt(Stacks([], []), irs, acc)
  }

  // ---------------------------------------------------------------------------
  // parse_brackets_number_assign, parse_any and parse_double

  /** An operand that a following "( ... )" indexes. */
  predicate Indexable(node: Node) {
    node.any.Array? || node.any.Index? || node.any.Number?
  }

  /** A "( ... )" whose contents parsed to expr: an Index on the operand before it when that is
      an Array, Index or Number, which it replaces, otherwise an Index without a subject. */
  function Subscript(irs: seq<Ir>, expr: Node): (r: seq<Ir>)
    ensures r != [] && r[|r| - 1].Operand? && r[|r| - 1].node.any.Index? && r[|r| - 1].node.any.index == expr
    ensures |r| == |irs| + 1 || (|r| == |irs| && r[..|r| - 1] == irs[..|irs| - 1])
    ensures r[|r| - 1].node.any.subject.Some? <==> irs != [] && irs[|irs| - 1].Operand? && Indexable(irs[|irs| - 1].node)
    ensures r[|r| - 1].node.any.subject.Some? ==> r[|r| - 1].node.any.subject.value == irs[|irs| - 1].node
    ensures r[|r| - 1].node.any.subject.None? ==> r == irs + [Operand(Node(expr.range, Index(None, expr)))]
  {
    if irs != [] && irs[|irs| - 1].Operand? && Indexable(irs[|irs| - 1].node) then
      var subject := irs[|irs| - 1].node;
      irs[..|irs| - 1] + [Operand(Node(Range(subject.range.start, expr.range.end), Index(Some(subject), expr)))]
    else
      irs + [Operand(Node(expr.range, Index(None, expr)))]
  }

  /** parse_any: an element's items as one expression; the items must not be empty, and an
      element that parse_ops rejects becomes the placeholder. */
  function ParseAny(tokens: seq<SingleBracket.Item>, acc: seq<Diagnostic>): (r: Outcome<Node>)
    decreases tokens, 2
  {
    if tokens == [] then Aborted
    else
      var irs := Pbna([], tokens, acc);
      if irs.Aborted? then Aborted
      else
        var any := ParseOps(irs.value, irs.diags);
        if any.Aborted? then Aborted
        else if any.value.None? then Done(Placeholder, any.diags)
        else Done(any.value.value, any.diags)
  }

  /** The loop of parse_brackets_number_assign over the remaining items, with the items built
      so far. */
  function Pbna(irs: seq<Ir>, tokens: seq<SingleBracket.Item>, acc: seq<Diagnostic>): Outcome<seq<Ir>>
    decreases tokens, 1
  {
    if tokens == [] then Done(irs, acc)
    else if tokens[0].Assign? then AssignTo(irs, tokens[0].range, tokens[1..], acc)
    else
      var next := Absorb(irs, tokens[0], acc);
      if next.Aborted? then Aborted else Pbna(next.value, tokens[1..], next.diags)
  }

  /** The visitor of parse_brackets_number_assign on one item other than ":=". */
  function Absorb(irs: seq<Ir>, t: SingleBracket.Item, acc: seq<Diagnostic>): Outcome<seq<Ir>>
    requires !t.Assign?
    decreases t, 0
  {
    match t
    case Double(range, elements) =>
      var node := ParseDouble(elements, acc);
      if node.Aborted? then Aborted else Done(irs + [Operand(Node(range, Array(node.value)))], node.diags)
    case Single(_, children) =>
      var expr := ParseAny(children, acc);
      if expr.Aborted? then Aborted else Done(Subscript(irs, expr.value), expr.diags)
    case Literal(range, value) => Done(irs + [Operand(Node(range, Number(value)))], acc)
    case Binary(range, b) => Done(irs + [Operator(range, b)], acc)
    case Unary(range, u) => Done(irs + [UnaryOp(range, u)], acc)
  }

  /** ":=" at range followed by rest: it needs an Index right before it, and its right-hand side
      is all of rest; either way the element ends here. */
  function AssignTo(irs: seq<Ir>, range: Range, rest: seq<SingleBracket.Item>, acc: seq<Diagnostic>): Outcome<seq<Ir>>
    decreases rest, 3
  {
    if irs != [] && irs[|irs| - 1].Operand? && irs[|irs| - 1].node.any.Index? then
      var lhs := irs[|irs| - 1].node;
      if rest == [] then Done(irs[..|irs| - 1], acc + [Diagnostic(Error, range, ExpectedExpression)])
      else
        var rhs := ParseAny(rest, acc);
        if rhs.Aborted? then Aborted
        else Done(irs[..|irs| - 1] + [Operand(Node(Range(lhs.range.start, rhs.value.range.end), Assign(lhs, rhs.value)))], rhs.diags)
    else Done(irs, acc + [Diagnostic(Error, range, UnexpectedAssign)])
  }

  /** parse_double: every element of a "(( ... ))" node, in order. */
  function ParseDouble(elements: seq<SingleBracket.Element>, acc: seq<Diagnostic>): (r: Outcome<seq<Node>>)
    ensures r.Done? ==> |r.value| == |elements|
    decreases elements, 3
  {
    if elements == [] then Done([], acc)
    else
      var first := ParseAny(elements[0].items, acc);
      if first.Aborted? then Aborted
      else
        var rest := ParseDouble(elements[1..], first.diags);
        if rest.Aborted? then Aborted
        else Done([first.value] + rest.value, rest.diags)
  }

  /** parse: lex the text, match "((" with "))" and "(" with ")", then build the expression of
      every element. Nothing when lexing or the double brackets fail; the diagnostics of every
      stage, in order. */
  function Parse(src: string, acc: seq<Diagnostic>): Outcome<Option<seq<Node>>> {
    var lexed := Lexer.Lexed(src);
    var lexAcc := acc + lexed.diags;
    if lexed.tokens.None? then Done(None, lexAcc)
    else
      var double := DoubleBracket.Debracketed(lexed.tokens.value);
      var doubleAcc := lexAcc + double.diags;
      if double.elements.None? then Done(None, doubleAcc)
      else
        var single := SingleBracket.Node(double.elements.value, doubleAcc);
        var program := ParseDouble(single.value, single.diags);
        if program.Aborted? then Aborted else Done(Some(program.value), program.diags)
  }

  // ---------------------------------------------------------------------------
  // Properties of parse_unary

  /** A run of unary operators (possibly empty) ended by an operand. */
  predicate ClosedRun(irs: seq<Ir>)
    decreases |irs|
  {
    irs != [] && (irs[0].Operand? || (irs[0].UnaryOp? && ClosedRun(irs[1..])))
  }

  /** The first unary operator of a run is the outermost, and spans to the operand's end. */
  lemma {:induction false} WrapOutermost(op: (Range, Ops.Unary), ops: seq<(Range, Ops.Unary)>, node: Node)
    ensures Wrap([op] + ops, node) == Node(Range(op.0.start, node.range.end), Unary(op.1, Wrap(ops, node)))
    ensures Wrap(ops, node).range.end == node.range.end
    decreases |ops|
  {
    if ops != [] {
      var last := ops[|ops| - 1];
      var inner := Node(Range(last.0.start, node.range.end), Unary(last.1, node));
      assert ([op] + ops)[..|ops|] == [op] + ops[..|ops| - 1];
      WrapOutermost(op, ops[..|ops| - 1], inner);
    }
  }

  /** The corrected parse_unary, started on a unary operator, never aborts; it applies the run
      exactly when an operand ends it, reporting nothing, and otherwise reports at most one
      error. */
  lemma {:induction false} UnaryOutcome(ops: seq<(Range, Ops.Unary)>, irs: seq<Ir>, acc: seq<Diagnostic>)
    requires ops != [] || (irs != [] && irs[0].UnaryOp?)
    ensures ParseUnary(ops, irs, acc).Done?
    ensures ParseUnary(ops, irs, acc).value.Some? <==> ClosedRun(irs)
    ensures ParseUnary(ops, irs, acc).value.Some? ==> ParseUnary(ops, irs, acc).diags == acc
    ensures ParseUnary(ops, irs, acc).value.None? ==> AtMostOneError(acc, ParseUnary(ops, irs, acc).diags)
    decreases |irs|
  {
    if irs != [] && irs[0].UnaryOp? {
      UnaryOutcome(ops + [(irs[0].range, irs[0].unary)], irs[1..], acc);
    }
  }

  /** The operand that closes a run, and what follows it. */
  lemma {:induction false} UnaryRest(ops: seq<(Range, Ops.Unary)>, irs: seq<Ir>, acc: seq<Diagnostic>)
    requires ParseUnary(ops, irs, acc).Done? && ParseUnary(ops, irs, acc).value.Some?
    ensures Accepts(true, irs) <==> Accepts(false, ParseUnary(ops, irs, acc).value.value.rest)
    decreases |irs|
  {
    if irs[0].UnaryOp? {
      UnaryRest(ops + [(irs[0].range, irs[0].unary)], irs[1..], acc);
    }
  }

  /** parse_unary as written aborts exactly where the corrected one applies the run, and never
      yields an expression. */
  lemma {:induction false} UnaryAsWrittenAborts(irs: seq<Ir>, acc: seq<Diagnostic>)
    ensures UnaryAsWritten(irs, acc).Aborted? <==> ClosedRun(irs)
    ensures UnaryAsWritten(irs, acc).Done? ==> UnaryAsWritten(irs, acc).value.None?
    decreases |irs|
  {
    if irs != [] && irs[0].UnaryOp? {
      UnaryAsWrittenAborts(irs[1..], acc);
    }
  }

  /** The shortest input that shows it: "! x". */
  lemma NotOperandAsWritten(r: Range, x: Node, acc: seq<Diagnostic>)
    ensures UnaryAsWritten([UnaryOp(r, Ops.BoolNot), Operand(x)], acc).Aborted?
    ensures ParseUnary([], [UnaryOp(r, Ops.BoolNot), Operand(x)], acc)
      == Done(Some(Applied(Node(Range(r.start, x.range.end), Unary(Ops.BoolNot, x)), [])), acc)
  {
    var irs := [UnaryOp(r, Ops.BoolNot), Operand(x)];
    assert irs[1..][1..] == [];
    var ops := [(r, Ops.BoolNot)];
    assert ops[..0] == [] && [] + ops == ops;
    assert Wrap(ops, x) == Node(Range(r.start, x.range.end), Unary(Ops.BoolNot, x));
    assert ParseUnary([], irs, acc) == ParseUnary(ops, irs[1..], acc);
    UnaryAsWrittenAborts(irs, acc);
    assert ClosedRun(irs[1..]);
  }

  // ---------------------------------------------------------------------------
  // What parse_ops accepts

  /** Nothing was removed from the diagnostics, and at most one error was added. */
  predicate AtMostOneError(acc: seq<Diagnostic>, diags: seq<Diagnostic>) {
    diags == acc || (|diags| == |acc| + 1 && diags[..|acc|] == acc && diags[|acc|].level == Error)
  }

  /** The items form an expression: operands (each after any number of unary operators)
      separated by binary operators. operandDue says whether an operand is due next. */
  predicate Accepts(operandDue: bool, irs: seq<Ir>)
    decreases |irs|
  {
    if irs == [] then !operandDue
    else
      match irs[0]
      case Operand(_) => operandDue && Accepts(false, irs[1..])
      case UnaryOp(_, _) => operandDue && Accepts(true, irs[1..])
      case Operator(_, _) => !operandDue && Accepts(true, irs[1..])
  }

  /** An operand is due after a unary operator, so an accepted run of them is closed by one. */
  lemma {:induction false} AcceptsClosedRun(irs: seq<Ir>)
    ensures Accepts(true, irs) ==> ClosedRun(irs)
    decreases |irs|
  {
    if irs != [] && irs[0].UnaryOp? {
      AcceptsClosedRun(irs[1..]);
    }
  }

  lemma {:induction false} ShuntOutcome(st: Stacks, irs: seq<Ir>, acc: seq<Diagnostic>)
    requires Balanced(st) && (irs != [] || st.operands != [])
    ensures Shunt(st, irs, acc).Done?
    ensures Shunt(st, irs, acc).value.Some? <==> Accepts(|st.operands| == |st.operators|, irs)
    ensures Shunt(st, irs, acc).value.Some? ==> Shunt(st, irs, acc).diags == acc
    ensures Shunt(st, irs, acc).value.None? ==> AtMostOneError(acc, Shunt(st, irs, acc).diags)
    decreases |irs|, 1
  {
    if irs != [] {
      match irs[0]
      case Operator(range, b) =>
        if |st.operands| == |st.operators| + 1 {
          var popped := PopWhile(st, b);
          ShuntOutcome(Stacks(popped.operators + [Pending(range, b)], popped.operands), irs[1..], acc);
        }
      case UnaryOp(_, _) =>
        UnaryOutcome([], irs, acc);
        var unary := ParseUnary([], irs, acc);
        if unary.value.Some? {
          UnaryRest([], irs, acc);
          TakeOutcome(st, unary.value.value.node, unary.value.value.rest, unary.diags);
        } else {
          AcceptsClosedRun(irs);
        }
      case Operand(node) =>
        TakeOutcome(st, node, irs[1..], acc);
    }
  }

  lemma {:induction false} TakeOutcome(st: Stacks, node: Node, rest: seq<Ir>, acc: seq<Diagnostic>)
    requires Balanced(st)
    ensures Take(st, node, rest, acc).Done?
    ensures Take(st, node, rest, acc).value.Some? <==> |st.operands| == |st.operators| && Accepts(false, rest)
    ensures Take(st, node, rest, acc).value.Some? ==> Take(st, node, rest, acc).diags == acc
    ensures Take(st, node, rest, acc).value.None? ==> AtMostOneError(acc, Take(st, node, rest, acc).diags)
    decreases |rest|, 2
  {
    if |st.operands| == |st.operators| {
      ShuntOutcome(Stacks(st.operators, st.operands + [node]), rest, acc);
    }
  }

  /** parse_ops aborts only on empty items; otherwise it yields an expression exactly when the
      items form one, reporting nothing, and else reports at most one error. */
  lemma OpsOutcome(irs: seq<Ir>, acc: seq<Diagnostic>)
    ensures ParseOps(irs, acc).Aborted? <==> irs == []
    ensures irs != [] ==> (ParseOps(irs, acc).value.Some? <==> Accepts(true, irs))
    ensures ParseOps(irs, acc).Done? && ParseOps(irs, acc).value.Some? ==> ParseOps(irs, acc).diags == acc
    ensures ParseOps(irs, acc).Done? && ParseOps(irs, acc).value.None? ==> AtMostOneError(acc, ParseOps(irs, acc).diags)
  {
    if irs != [] {
      ShuntOutcome(Stacks([], []), irs, acc);
    }
  }

  // ---------------------------------------------------------------------------
  // parse_ops as written, on top of parse_unary as written

  /** No item is a unary operator. */
  predicate NoUnary(irs: seq<Ir>) {
    forall i :: 0 <= i < |irs| ==> !irs[i].UnaryOp?
  }

  /** The loop of parse_ops with the unary branch as written: that branch never yields an
      operand (UnaryAsWrittenAborts), so it either aborts or ends the expression. */
  function ShuntAsWritten(st: Stacks, irs: seq<Ir>, acc: seq<Diagnostic>): Outcome<Option<Node>>
    requires Balanced(st) && (irs != [] || st.operands != [])
    decreases |irs|
  {
    if irs == [] then
      if |st.operands| == |st.operators| + 1 then Done(Some(PopAll(st).operands[0]), acc)
      else
        var op := st.operators[|st.operators| - 1];
        Done(None, acc + [Diagnostic(Error, op.range, Unexpected(op.kind))])
    else
      match irs[0]
      case Operator(range, b) =>
        if |st.operands| != |st.operators| + 1 then Done(None, acc + [Diagnostic(Error, range, Unexpected(b))])
        else
          var popped := PopWhile(st, b);
          ShuntAsWritten(Stacks(popped.operators + [Pending(range, b)], popped.operands), irs[1..], acc)
      case UnaryOp(_, _) =>
        var unary := UnaryAsWritten(irs, acc);
        if unary.Aborted? then Aborted else Done(None, unary.diags)
      case Operand(node) =>
        if |st.operands| != |st.operators| then Done(None, acc + [Diagnostic(Error, node.range, ExpectedOperator)])
        else ShuntAsWritten(Stacks(st.operators, st.operands + [node]), irs[1..], acc)
  }

  /** parse_ops as written. */
  function OpsAsWritten(irs: seq<Ir>, acc: seq<Diagnostic>): Outcome<Option<Node>> {
    if irs == [] then Aborted else ShuntAsWritten(Stacks([], []), irs, acc)
  }

  /** The loop as written agrees with the corrected one until it meets a unary operator; it
      aborts on every well-formed rest that holds one, and never yields an expression that
      contains one. */
  lemma {:induction false} ShuntAsWrittenOutcome(st: Stacks, irs: seq<Ir>, acc: seq<Diagnostic>)
    requires Balanced(st) && (irs != [] || st.operands != [])
    ensures NoUnary(irs) ==> ShuntAsWritten(st, irs, acc) == Shunt(st, irs, acc)
    ensures Accepts(|st.operands| == |st.operators|, irs) && !NoUnary(irs) ==> ShuntAsWritten(st, irs, acc).Aborted?
    ensures ShuntAsWritten(st, irs, acc).Done? && ShuntAsWritten(st, irs, acc).value.Some? ==> NoUnary(irs)
    decreases |irs|
  {
    if irs != [] {
      assert NoUnary(irs) <==> !irs[0].UnaryOp? && NoUnary(irs[1..]) by {
        if !irs[0].UnaryOp? && NoUnary(irs[1..]) {
          forall i | 0 <= i < |irs| ensures !irs[i].UnaryOp? {
            if i > 0 { assert irs[i] == irs[1..][i - 1]; }
          }
        }
      }
      match irs[0]
      case Operator(range, b) =>
        if |st.operands| == |st.operators| + 1 {
          var popped := PopWhile(st, b);
          ShuntAsWrittenOutcome(Stacks(popped.operators + [Pending(range, b)], popped.operands), irs[1..], acc);
        }
      case UnaryOp(_, _) =>
        UnaryAsWrittenAborts(irs, acc);
        AcceptsClosedRun(irs);
      case Operand(node) =>
        if |st.operands| == |st.operators| {
          ShuntAsWrittenOutcome(Stacks(st.operators, st.operands + [node]), irs[1..], acc);
        }
    }
  }

  /** parse_ops as written aborts on the empty items and on every well-formed expression with a
      unary operator, and agrees with the corrected parse_ops wherever there is none. */
  lemma OpsAsWrittenOutcome(irs: seq<Ir>, acc: seq<Diagnostic>)
    ensures irs == [] ==> OpsAsWritten(irs, acc).Aborted?
    ensures Accepts(true, irs) && !NoUnary(irs) ==> OpsAsWritten(irs, acc).Aborted?
    ensures NoUnary(irs) ==> OpsAsWritten(irs, acc) == ParseOps(irs, acc)
    ensures OpsAsWritten(irs, acc).Done? && OpsAsWritten(irs, acc).value.Some? ==> NoUnary(irs)
  {
    if irs != [] {
      ShuntAsWrittenOutcome(Stacks([], []), irs, acc);
    }
  }

  // ---------------------------------------------------------------------------
  // Precedence and associativity of what parse_ops builds

  /** The precedence of a node's top operator; anything but a binary operation binds tightest. */
  function TopPrecedence(node: Node): (p: int)
    ensures 1 <= p <= 5
    ensures p == 5 <==> !node.any.Binary?
  {
    if node.any.Binary? then Precedence(node.any.kind) else 5
  }

  /** Along the operator spine, the left operand of every binary operation binds at least as
      tightly as it and the right operand strictly more tightly: higher precedence binds first
      and operators of equal precedence group to the left. */
  predicate PrecedenceOk(node: Node)
    decreases node
  {
    node.any.Binary? ==>
      Precedence(node.any.kind) <= TopPrecedence(node.any.lhs)
      && Precedence(node.any.kind) < TopPrecedence(node.any.rhs)
      && PrecedenceOk(node.any.lhs) && PrecedenceOk(node.any.rhs)
  }

  /** Precedences rise towards the top of the operator stack. */
  predicate Rising(operators: seq<Pending>) {
    forall k :: 0 <= k < |operators| - 1 ==> Precedence(operators[k].kind) < Precedence(operators[k + 1].kind)
  }

  /** Every operator has an operand on its left binding at least as tightly as it. */
  predicate LeftBound(operators: seq<Pending>, operands: seq<Node>)
    requires |operators| <= |operands|
  {
    forall k :: 0 <= k < |operators| ==> Precedence(operators[k].kind) <= TopPrecedence(operands[k])
  }

  /** Every operator with an operand on its right is bound more loosely than it. */
  predicate RightBound(operators: seq<Pending>, operands: seq<Node>) {
    forall k :: 0 <= k < |operators| && k + 1 < |operands| ==> Precedence(operators[k].kind) < TopPrecedence(operands[k + 1])
  }

  predicate AllOk(operands: seq<Node>) {
    forall k :: 0 <= k < |operands| ==> PrecedenceOk(operands[k])
  }

  /** The invariant of the two stacks. */
  predicate Ordered(st: Stacks) {
    Balanced(st) && Rising(st.operators) && LeftBound(st.operators, st.operands)
    && RightBound(st.operators, st.operands) && AllOk(st.operands)
  }

  /** When an operator is due, the top operand came straight from the items. */
  predicate Fresh(st: Stacks) {
    |st.operands| == |st.operators| + 1 ==> !st.operands[|st.operands| - 1].any.Binary?
  }

  /** No operand of the items is itself a binary operation. */
  predicate Atomic(irs: seq<Ir>) {
    forall i :: 0 <= i < |irs| && irs[i].Operand? ==> !irs[i].node.any.Binary?
  }

  lemma PopNode(st: Stacks)
    requires Ordered(st) && |st.operators| >= 1 && |st.operands| == |st.operators| + 1
    ensures var node := PopOperator(st).operands[|st.operators| - 1];
      PrecedenceOk(node) && TopPrecedence(node) == Precedence(st.operators[|st.operators| - 1].kind)
  {
    var j := |st.operators| - 1;
    assert Precedence(st.operators[j].kind) <= TopPrecedence(st.operands[j]);
    assert Precedence(st.operators[j].kind) < TopPrecedence(st.operands[j + 1]);
    assert PrecedenceOk(st.operands[j]) && PrecedenceOk(st.operands[j + 1]);
  }

  lemma PopOrdered(st: Stacks)
    requires Ordered(st) && |st.operators| >= 1 && |st.operands| == |st.operators| + 1
    ensures Ordered(PopOperator(st))
    ensures TopPrecedence(PopOperator(st).operands[|PopOperator(st).operands| - 1])
      == Precedence(st.operators[|st.operators| - 1].kind)
  {
    var r := PopOperator(st);
    var j := |st.operators| - 1;
    PopNode(st);
    assert forall k :: 0 <= k < j ==> r.operands[k] == st.operands[k] && r.operators[k] == st.operators[k];
    assert AllOk(r.operands) by {
      forall k | 0 <= k < |r.operands|
        ensures PrecedenceOk(r.operands[k])
      {
        if k < j {
          assert r.operands[k] == st.operands[k];
        }
      }
    }
    assert RightBound(r.operators, r.operands) by {
      forall k | 0 <= k < |r.operators| && k + 1 < |r.operands|
        ensures Precedence(r.operators[k].kind) < TopPrecedence(r.operands[k + 1])
      {
        if k + 1 < j {
          assert r.operands[k + 1] == st.operands[k + 1];
        } else {
          assert Precedence(st.operators[k].kind) < Precedence(st.operators[k + 1].kind);
        }
      }
    }
  }

  lemma {:induction false} PopWhileOrdered(st: Stacks, b: Ops.Binary)
    requires Ordered(st) && |st.operands| == |st.operators| + 1
    ensures Ordered(PopWhile(st, b))
    decreases |st.operators|
  {
    if st.operators != [] && Precedence(b) <= Precedence(st.operators[|st.operators| - 1].kind) {
      PopStep(st, b);
      PopWhileOrdered(PopOperator(st), b);
    }
  }

  /** One pop of the operator loop keeps the stacks ordered. */
  lemma PopStep(st: Stacks, b: Ops.Binary)
    requires Ordered(st) && |st.operands| == |st.operators| + 1
    requires st.operators != [] && Precedence(b) <= Precedence(st.operators[|st.operators| - 1].kind)
    ensures Ordered(PopOperator(st)) && PopWhile(st, b) == PopWhile(PopOperator(st), b)
  {
    PopOrdered(st);
  }

  /** After the popping, the incoming operator binds no more tightly than the top operand. */
  lemma {:induction false} PopWhileTop(st: Stacks, b: Ops.Binary)
    requires |st.operands| == |st.operators| + 1
    requires Precedence(b) <= TopPrecedence(st.operands[|st.operands| - 1])
    ensures Precedence(b) <= TopPrecedence(PopWhile(st, b).operands[|PopWhile(st, b).operands| - 1])
    decreases |st.operators|
  {
    if st.operators != [] && Precedence(b) <= Precedence(st.operators[|st.operators| - 1].kind) {
      var popped := PopOperator(st);
      assert popped.operands[|popped.operands| - 1].any.kind == st.operators[|st.operators| - 1].kind;
      PopWhileTop(popped, b);
    }
  }

  lemma PushOperatorOrdered(st: Stacks, op: Pending)
    requires Ordered(st) && |st.operands| == |st.operators| + 1
    requires st.operators == [] || Precedence(op.kind) > Precedence(st.operators[|st.operators| - 1].kind)
    requires Precedence(op.kind) <= TopPrecedence(st.operands[|st.operands| - 1])
    ensures Ordered(Stacks(st.operators + [op], st.operands))
  {
    var ops := st.operators + [op];
    assert forall k :: 0 <= k < |st.operators| ==> ops[k] == st.operators[k];
  }

  /** An incoming operator keeps the stacks ordered. */
  lemma OperatorOrdered(st: Stacks, range: Range, b: Ops.Binary)
    requires Ordered(st) && Fresh(st) && |st.operands| == |st.operators| + 1
    ensures Ordered(Stacks(PopWhile(st, b).operators + [Pending(range, b)], PopWhile(st, b).operands))
  {
    var popped := PopWhile(st, b);
    assert TopPrecedence(st.operands[|st.operands| - 1]) == 5;
    PopWhileTop(st, b);
    PopWhileOrdered(st, b);
    PushOperatorOrdered(popped, Pending(range, b));
  }

  /** An operand pushed when one is due keeps the stacks ordered. */
  lemma OperandOrdered(st: Stacks, node: Node)
    requires Ordered(st) && |st.operands| == |st.operators| && !node.any.Binary?
    ensures Ordered(Stacks(st.operators, st.operands + [node]))
    ensures Fresh(Stacks(st.operators, st.operands + [node]))
  {
    var operands := st.operands + [node];
    assert forall k :: 0 <= k < |st.operands| ==> operands[k] == st.operands[k];
    assert PrecedenceOk(node);
  }

  lemma {:induction false} PopAllOrdered(st: Stacks)
    requires Ordered(st) && |st.operands| == |st.operators| + 1
    ensures PrecedenceOk(PopAll(st).operands[0])
    decreases |st.operators|
  {
    if st.operators != [] {
      PopOrdered(st);
      PopAllOrdered(PopOperator(st));
    }
  }

  lemma {:induction false} WrapUnary(ops: seq<(Range, Ops.Unary)>, node: Node)
    requires ops != []
    ensures Wrap(ops, node).any.Unary?
    decreases |ops|
  {
    var op := ops[|ops| - 1];
    var inner := Node(Range(op.0.start, node.range.end), Unary(op.1, node));
    if |ops| > 1 {
      WrapUnary(ops[..|ops| - 1], inner);
    }
  }

  /** The applied run is a unary operation, and the items after it are a suffix. */
  lemma {:induction false} UnaryApplied(ops: seq<(Range, Ops.Unary)>, irs: seq<Ir>, acc: seq<Diagnostic>)
    requires ParseUnary(ops, irs, acc).Done? && ParseUnary(ops, irs, acc).value.Some?
    ensures ParseUnary(ops, irs, acc).value.value.node.any.Unary?
    ensures var rest := ParseUnary(ops, irs, acc).value.value.rest; rest == irs[|irs| - |rest|..]
    decreases |irs|
  {
    if irs[0].UnaryOp? {
      var next := irs[1..];
      UnaryApplied(ops + [(irs[0].range, irs[0].unary)], next, acc);
      var rest := ParseUnary(ops, irs, acc).value.value.rest;
      assert next[|next| - |rest|..] == irs[|irs| - |rest|..];
    } else {
      WrapUnary(ops, irs[0].node);
    }
  }

  lemma {:induction false} ShuntPrecedence(st: Stacks, irs: seq<Ir>, acc: seq<Diagnostic>)
    requires Ordered(st) && Fresh(st) && Atomic(irs) && (irs != [] || st.operands != [])
    ensures Shunt(st, irs, acc).Done? && Shunt(st, irs, acc).value.Some? ==> PrecedenceOk(Shunt(st, irs, acc).value.value)
    decreases |irs|, 1
  {
    if irs == [] {
      if |st.operands| == |st.operators| + 1 {
        PopAllOrdered(st);
      }
    } else {
      match irs[0]
      case Operator(range, b) =>
        if |st.operands| == |st.operators| + 1 {
          var popped := PopWhile(st, b);
          OperatorOrdered(st, range, b);
          ShuntPrecedence(Stacks(popped.operators + [Pending(range, b)], popped.operands), irs[1..], acc);
        }
      case UnaryOp(_, _) =>
        var unary := ParseUnary([], irs, acc);
        if unary.Done? && unary.value.Some? {
          UnaryApplied([], irs, acc);
          TakePrecedence(st, unary.value.value.node, unary.value.value.rest, unary.diags);
        }
      case Operand(node) =>
        TakePrecedence(st, node, irs[1..], acc);
    }
  }

  lemma {:induction false} TakePrecedence(st: Stacks, node: Node, rest: seq<Ir>, acc: seq<Diagnostic>)
    requires Ordered(st) && Atomic(rest) && !node.any.Binary?
    ensures Take(st, node, rest, acc).Done? && Take(st, node, rest, acc).value.Some? ==> PrecedenceOk(Take(st, node, rest, acc).value.value)
    decreases |rest|, 2
  {
    if |st.operands| == |st.operators| {
      OperandOrdered(st, node);
      ShuntPrecedence(Stacks(st.operators, st.operands + [node]), rest, acc);
    }
  }

  /** The expression parse_ops builds groups by precedence, equal precedence to the left. */
  lemma OpsPrecedence(irs: seq<Ir>, acc: seq<Diagnostic>)
    requires Atomic(irs)
    ensures ParseOps(irs, acc).Done? && ParseOps(irs, acc).value.Some? ==> PrecedenceOk(ParseOps(irs, acc).value.value)
  {
    if irs != [] {
      ShuntPrecedence(Stacks([], []), irs, acc);
    }
  }

  // ---------------------------------------------------------------------------
  // parse_ops keeps the items in order

  /** An operand, or an operator without its range. */
  datatype Symbol = Leaf(node: Node) | BinarySymbol(kind: Ops.Binary) | UnarySymbol(op: Ops.Unary)

  /** The operator spine of an expression read from left to right. */
  function Spine(node: Node): seq<Symbol>
    decreases node
  {
    match node.any
    case Binary(kind, lhs, rhs) => Spine(lhs) + [BinarySymbol(kind)] + Spine(rhs)
    case Unary(op, rhs) => [UnarySymbol(op)] + Spine(rhs)
    case _ => [Leaf(node)]
  }

  function IrSymbols(ir: Ir): seq<Symbol> {
    match ir
    case Operator(_, kind) => [BinarySymbol(kind)]
    case UnaryOp(_, op) => [UnarySymbol(op)]
    case Operand(node) => Spine(node)
  }

  /** The items read from left to right. */
  function Symbols(irs: seq<Ir>): seq<Symbol>
    decreases |irs|
  {
    if irs == [] then [] else IrSymbols(irs[0]) + Symbols(irs[1..])
  }

  function UnarySymbols(ops: seq<(Range, Ops.Unary)>): seq<Symbol>
    decreases |ops|
  {
    if ops == [] then [] else UnarySymbols(ops[..|ops| - 1]) + [UnarySymbol(ops[|ops| - 1].1)]
  }

  /** The stacks read from bottom to top, operands and operators interleaved. */
  function StackSymbols(operators: seq<Pending>, operands: seq<Node>): seq<Symbol>
    requires |operands| == |operators| || |operands| == |operators| + 1
    decreases |operands| + |operators|
  {
    if operands == [] then []
    else if |operands| == |operators| then
      StackSymbols(operators[..|operators| - 1], operands) + [BinarySymbol(operators[|operators| - 1].kind)]
    else StackSymbols(operators, operands[..|operands| - 1]) + Spine(operands[|operands| - 1])
  }

  lemma PopSymbols(st: Stacks)
    requires |st.operators| >= 1 && |st.operands| == |st.operators| + 1
    ensures StackSymbols(PopOperator(st).operators, PopOperator(st).operands) == StackSymbols(st.operators, st.operands)
  {
    var r := PopOperator(st);
    var n := |st.operands|;
    var lhs := st.operands[n - 2];
    var rhs := st.operands[n - 1];
    var c := st.operators[|st.operators| - 1];
    var below := st.operands[..n - 2];
    assert st.operands[..n - 1][..n - 2] == below && st.operands[..n - 1][n - 2] == lhs;
    assert r.operands[..n - 2] == below;
    calc {
      StackSymbols(st.operators, st.operands);
      StackSymbols(st.operators, st.operands[..n - 1]) + Spine(rhs);
      StackSymbols(r.operators, st.operands[..n - 1]) + [BinarySymbol(c.kind)] + Spine(rhs);
      StackSymbols(r.operators, below) + Spine(lhs) + [BinarySymbol(c.kind)] + Spine(rhs);
      StackSymbols(r.operators, below) + (Spine(lhs) + [BinarySymbol(c.kind)] + Spine(rhs));
      StackSymbols(r.operators, r.operands);
    }
  }

  lemma {:induction false} PopWhileSymbols(st: Stacks, b: Ops.Binary)
    requires |st.operands| == |st.operators| + 1
    ensures StackSymbols(PopWhile(st, b).operators, PopWhile(st, b).operands) == StackSymbols(st.operators, st.operands)
    decreases |st.operators|
  {
    if st.operators != [] && Precedence(b) <= Precedence(st.operators[|st.operators| - 1].kind) {
      PopSymbols(st);
      PopWhileSymbols(PopOperator(st), b);
    }
  }

  lemma {:induction false} PopAllSymbols(st: Stacks)
    requires |st.operands| == |st.operators| + 1
    ensures Spine(PopAll(st).operands[0]) == StackSymbols(st.operators, st.operands)
    decreases |st.operators|
  {
    if st.operators != [] {
      PopSymbols(st);
      PopAllSymbols(PopOperator(st));
    } else {
      assert st.operands[..0] == [];
    }
  }

  lemma {:induction false} WrapSymbols(ops: seq<(Range, Ops.Unary)>, node: Node)
    ensures Spine(Wrap(ops, node)) == UnarySymbols(ops) + Spine(node)
    decreases |ops|
  {
    if ops != [] {
      var op := ops[|ops| - 1];
      var inner := Node(Range(op.0.start, node.range.end), Unary(op.1, node));
      WrapSymbols(ops[..|ops| - 1], inner);
    }
  }

  /** A run of unary operators and its operand, read from left to right. */
  lemma {:induction false} UnaryRunSymbols(ops: seq<(Range, Ops.Unary)>, irs: seq<Ir>, acc: seq<Diagnostic>)
    requires ParseUnary(ops, irs, acc).Done? && ParseUnary(ops, irs, acc).value.Some?
    ensures var a := ParseUnary(ops, irs, acc).value.value;
      UnarySymbols(ops) + Symbols(irs) == Spine(a.node) + Symbols(a.rest)
    decreases |irs|
  {
    if irs[0].UnaryOp? {
      var ops' := ops + [(irs[0].range, irs[0].unary)];
      assert ParseUnary(ops, irs, acc) == ParseUnary(ops', irs[1..], acc);
      UnaryRunSymbols(ops', irs[1..], acc);
      PushSymbols(ops, irs);
    } else {
      RunEndSymbols(ops, irs, acc);
    }
  }

  /** Moving a unary operator from the items onto the run keeps the reading. */
  lemma PushSymbols(ops: seq<(Range, Ops.Unary)>, irs: seq<Ir>)
    requires irs != [] && irs[0].UnaryOp?
    ensures UnarySymbols(ops) + Symbols(irs) == UnarySymbols(ops + [(irs[0].range, irs[0].unary)]) + Symbols(irs[1..])
  {
    var u := [UnarySymbol(irs[0].unary)];
    var ops' := ops + [(irs[0].range, irs[0].unary)];
    assert ops'[..|ops'| - 1] == ops;
    var before, after := UnarySymbols(ops), Symbols(irs[1..]);
    assert Symbols(irs) == u + after;
    assert UnarySymbols(ops') == before + u;
    assert before + (u + after) == (before + u) + after;
  }

  lemma RunEndSymbols(ops: seq<(Range, Ops.Unary)>, irs: seq<Ir>, acc: seq<Diagnostic>)
    requires ops != [] && irs != [] && irs[0].Operand?
    ensures var a := ParseUnary(ops, irs, acc).value.value;
      UnarySymbols(ops) + Symbols(irs) == Spine(a.node) + Symbols(a.rest)
  {
    var node := irs[0].node;
    assert ParseUnary(ops, irs, acc) == Done(Some(Applied(Wrap(ops, node), irs[1..])), acc);
    WrapSymbols(ops, node);
    assert Symbols(irs) == Spine(node) + Symbols(irs[1..]);
  }

  lemma {:induction false} ShuntSymbols(st: Stacks, irs: seq<Ir>, acc: seq<Diagnostic>)
    requires Balanced(st) && (irs != [] || st.operands != [])
    ensures Shunt(st, irs, acc).Done? && Shunt(st, irs, acc).value.Some? ==>
      Spine(Shunt(st, irs, acc).value.value) == StackSymbols(st.operators, st.operands) + Symbols(irs)
    decreases |irs|, 1
  {
    if irs == [] {
      if |st.operands| == |st.operators| + 1 {
        PopAllSymbols(st);
      }
    } else if irs[0].Operator? {
      OperatorSymbols(st, irs, acc);
    } else if irs[0].UnaryOp? {
      UnaryOpSymbols(st, irs, acc);
    } else {
      assert Shunt(st, irs, acc) == Take(st, irs[0].node, irs[1..], acc);
      assert Symbols(irs) == Spine(irs[0].node) + Symbols(irs[1..]);
      TakeSymbols(st, irs[0].node, irs[1..], acc);
    }
  }

  lemma {:induction false} OperatorSymbols(st: Stacks, irs: seq<Ir>, acc: seq<Diagnostic>)
    requires Balanced(st) && irs != [] && irs[0].Operator?
    ensures Shunt(st, irs, acc).Done? && Shunt(st, irs, acc).value.Some? ==>
      Spine(Shunt(st, irs, acc).value.value) == StackSymbols(st.operators, st.operands) + Symbols(irs)
    decreases |irs|, 0
  {
    var b := irs[0].binary;
    if |st.operands| == |st.operators| + 1 {
      var popped := PopWhile(st, b);
      var next := Stacks(popped.operators + [Pending(irs[0].range, b)], popped.operands);
      assert Shunt(st, irs, acc) == Shunt(next, irs[1..], acc);
      assert Symbols(irs) == [BinarySymbol(b)] + Symbols(irs[1..]);
      PopWhileSymbols(st, b);
      assert next.operators[..|next.operators| - 1] == popped.operators;
      assert StackSymbols(next.operators, next.operands) == StackSymbols(st.operators, st.operands) + [BinarySymbol(b)];
      ShuntSymbols(next, irs[1..], acc);
    }
  }

  lemma {:induction false} UnaryOpSymbols(st: Stacks, irs: seq<Ir>, acc: seq<Diagnostic>)
    requires Balanced(st) && irs != [] && irs[0].UnaryOp?
    ensures Shunt(st, irs, acc).Done? && Shunt(st, irs, acc).value.Some? ==>
      Spine(Shunt(st, irs, acc).value.value) == StackSymbols(st.operators, st.operands) + Symbols(irs)
    decreases |irs|, 0
  {
    var unary := ParseUnary([], irs, acc);
    if unary.Done? && unary.value.Some? {
      var a := unary.value.value;
      assert Shunt(st, irs, acc) == Take(st, a.node, a.rest, unary.diags);
      UnaryRunSymbols([], irs, acc);
      assert UnarySymbols([]) == [];
      assert Symbols(irs) == Spine(a.node) + Symbols(a.rest);
      TakeSymbols(st, a.node, a.rest, unary.diags);
    }
  }

  lemma {:induction false} TakeSymbols(st: Stacks, node: Node, rest: seq<Ir>, acc: seq<Diagnostic>)
    requires Balanced(st)
    ensures Take(st, node, rest, acc).Done? && Take(st, node, rest, acc).value.Some? ==>
      Spine(Take(st, node, rest, acc).value.value) == StackSymbols(st.operators, st.operands) + Spine(node) + Symbols(rest)
    decreases |rest|, 2
  {
    if |st.operands| == |st.operators| {
      var operands := st.operands + [node];
      assert operands[..|operands| - 1] == st.operands;
      ShuntSymbols(Stacks(st.operators, operands), rest, acc);
    }
  }

  /** The expression parse_ops builds holds its items in their order: no operand or operator is
      dropped, added or moved. */
  lemma OpsSymbols(irs: seq<Ir>, acc: seq<Diagnostic>)
    ensures ParseOps(irs, acc).Done? && ParseOps(irs, acc).value.Some? ==>
      Spine(ParseOps(irs, acc).value.value) == Symbols(irs)
  {
    if irs != [] {
      ShuntSymbols(Stacks([], []), irs, acc);
    }
  }

  // ---------------------------------------------------------------------------
  // parse_brackets_number_assign and parse_any

  /** A number or an operator: an item that passes through parse_brackets_number_assign as one
      item of its own. */
  predicate Plain(t: SingleBracket.Item) {
    t.Literal? || t.Binary? || t.Unary?
  }

  predicate AllPlain(tokens: seq<SingleBracket.Item>) {
    forall i :: 0 <= i < |tokens| ==> Plain(tokens[i])
  }

  function PlainIr(t: SingleBracket.Item): Ir
    requires Plain(t)
  {
    match t
    case Literal(range, value) => Operand(Node(range, Number(value)))
    case Binary(range, b) => Operator(range, b)
    case Unary(range, u) => UnaryOp(range, u)
  }

  function PlainIrs(tokens: seq<SingleBracket.Item>): (irs: seq<Ir>)
    requires AllPlain(tokens)
    ensures |irs| == |tokens|
    decreases |tokens|
  {
    if tokens == [] then [] else [PlainIr(tokens[0])] + PlainIrs(tokens[1..])
  }

  lemma {:induction false} PlainAtomic(tokens: seq<SingleBracket.Item>)
    requires AllPlain(tokens)
    ensures Atomic(PlainIrs(tokens))
    decreases |tokens|
  {
    if tokens != [] {
      PlainAtomic(tokens[1..]);
      var irs := PlainIrs(tokens);
      forall i | 0 <= i < |irs| && irs[i].Operand?
        ensures !irs[i].node.any.Binary?
      {
        if i > 0 {
          assert irs[i] == PlainIrs(tokens[1..])[i - 1];
        }
      }
    }
  }

  lemma AbsorbPlain(irs: seq<Ir>, t: SingleBracket.Item, acc: seq<Diagnostic>)
    requires Plain(t)
    ensures Absorb(irs, t, acc) == Done(irs + [PlainIr(t)], acc)
  {
  }

  /** Numbers and operators become one item each, in order, with nothing reported. */
  lemma {:induction false} PbnaPlain(irs: seq<Ir>, tokens: seq<SingleBracket.Item>, acc: seq<Diagnostic>)
    requires AllPlain(tokens)
    ensures Pbna(irs, tokens, acc) == Done(irs + PlainIrs(tokens), acc)
    decreases |tokens|
  {
    if tokens == [] {
      assert irs + [] == irs;
    } else {
      var next := irs + [PlainIr(tokens[0])];
      AbsorbPlain(irs, tokens[0], acc);
      PbnaPlain(next, tokens[1..], acc);
      assert next + PlainIrs(tokens[1..]) == irs + PlainIrs(tokens);
    }
  }

  /** An element of numbers and operators is an expression that groups by precedence and keeps
      its items in order, reported nothing about; or, when it does not form an expression, the
      placeholder after at most one error. */
  lemma ParseAnyPlain(tokens: seq<SingleBracket.Item>, acc: seq<Diagnostic>)
    requires tokens != [] && AllPlain(tokens)
    ensures ParseAny(tokens, acc).Done?
    ensures Accepts(true, PlainIrs(tokens)) ==>
      ParseAny(tokens, acc).diags == acc && PrecedenceOk(ParseAny(tokens, acc).value)
      && Spine(ParseAny(tokens, acc).value) == Symbols(PlainIrs(tokens))
    ensures !Accepts(true, PlainIrs(tokens)) ==>
      ParseAny(tokens, acc).value == Placeholder && AtMostOneError(acc, ParseAny(tokens, acc).diags)
  {
    var irs := PlainIrs(tokens);
    PbnaPlain([], tokens, acc);
    PlainAtomic(tokens);
    assert [] + irs == irs;
    OpsOutcome(irs, acc);
    OpsPrecedence(irs, acc);
    OpsSymbols(irs, acc);
  }

  /** The item is not ":=" at this level. */
  predicate NoAssign(tokens: seq<SingleBracket.Item>) {
    forall i :: 0 <= i < |tokens| ==> !tokens[i].Assign?
  }

  /** Before any ":=", the items are taken one at a time from left to right. */
  lemma {:induction false} PbnaSplit(irs: seq<Ir>, a: seq<SingleBracket.Item>, b: seq<SingleBracket.Item>, acc: seq<Diagnostic>)
    requires NoAssign(a)
    ensures Pbna(irs, a + b, acc) ==
      if Pbna(irs, a, acc).Aborted? then Aborted else Pbna(Pbna(irs, a, acc).value, b, Pbna(irs, a, acc).diags)
    decreases |a|
  {
    if a == [] {
      assert a + b == b;
    } else {
      assert (a + b)[0] == a[0] && (a + b)[1..] == a[1..] + b;
      var step := Absorb(irs, a[0], acc);
      if step.Done? {
        PbnaSplit(step.value, a[1..], b, step.diags);
      }
    }
  }

  /** The first ":=" of an element takes everything after it as its right-hand side. */
  lemma PbnaAssign(irs: seq<Ir>, tokens: seq<SingleBracket.Item>, i: nat, acc: seq<Diagnostic>)
    requires i < |tokens| && tokens[i].Assign? && NoAssign(tokens[..i])
    ensures Pbna(irs, tokens, acc) ==
      if Pbna(irs, tokens[..i], acc).Aborted? then Aborted
      else AssignTo(Pbna(irs, tokens[..i], acc).value, tokens[i].range, tokens[i + 1..], Pbna(irs, tokens[..i], acc).diags)
  {
    assert tokens == tokens[..i] + tokens[i..];
    PbnaSplit(irs, tokens[..i], tokens[i..], acc);
    assert tokens[i..][1..] == tokens[i + 1..];
  }

  // ---------------------------------------------------------------------------
  // The imperative stage

  /** A method's outcome: aborted, or its value with the diagnostics inserted by then. */
  function Result<T>(aborted: bool, value: T, diags: seq<Diagnostic>): Outcome<T> {
    if aborted then Aborted else Done(value, diags)
  }

  /** parse_unary, with the unary operators recorded, from the unary operator at start; next
      is the index after the operand that closes the run. */
  method ParseUnaryAt(irs: seq<Ir>, start: nat, diags: Diags) returns (aborted: bool, applied: Option<Node>, next: nat)
    requires start < |irs|
    modifies diags
    ensures var spec := ParseUnary([], irs[start..], old(diags.items));
      aborted == spec.Aborted?
      && (spec.Done? ==> diags.items == spec.diags && (applied.Some? <==> spec.value.Some?))
      && (spec.Done? && applied.Some? ==> start < next <= |irs| && spec.value.value == Applied(applied.value, irs[next..]))
  {
    var ops: seq<(Range, Ops.Unary)> := [];
    var i := start;
    aborted, applied, next := false, None, start;
    while i < |irs|
      invariant start <= i <= |irs|
      invariant diags.items == old(diags.items)
      invariant ParseUnary([], irs[start..], old(diags.items)) == ParseUnary(ops, irs[i..], old(diags.items))
      decreases |irs| - i
    {
      assert irs[i..][0] == irs[i] && irs[i..][1..] == irs[i + 1..];
      match irs[i] {
        case Operator(range, b) =>
          diags.Insert(Diagnostic(Error, range, UnexpectedAfterUnary(b)));
          return;
        case UnaryOp(range, u) =>
          ops := ops + [(range, u)];
        case Operand(node) =>
          if ops == [] {
            aborted := true;
            return;
          }
          ghost var whole := Wrap(ops, node);
          var op := Node(Range(ops[|ops| - 1].0.start, node.range.end), Unary(ops[|ops| - 1].1, node));
          ops := ops[..|ops| - 1];
          while ops != []
            invariant Wrap(ops, op) == whole
            decreases |ops|
          {
            op := Node(Range(ops[|ops| - 1].0.start, op.range.end), Unary(ops[|ops| - 1].1, op));
            ops := ops[..|ops| - 1];
          }
          applied, next := Some(op), i + 1;
          return;
      }
      i := i + 1;
    }
  }

  /** pop_operator on the two stacks. */
  method PopOperatorOf(operators: seq<Pending>, operands: seq<Node>) returns (operators': seq<Pending>, operands': seq<Node>)
    requires |operators| >= 1 && |operands| == |operators| + 1
    ensures Stacks(operators', operands') == PopOperator(Stacks(operators, operands))
  {
    var op := operators[|operators| - 1];
    operators' := operators[..|operators| - 1];
    var rhs := operands[|operands| - 1];
    var lhs := operands[|operands| - 2];
    operands' := operands[..|operands| - 2];
    operands' := operands' + [Node(Range(lhs.range.start, rhs.range.end), Binary(op.kind, lhs, rhs))];
  }

  /** The operator b arrives after an operand: pop every operator binding at least as tightly,
      then push b. */
  method PushOperatorOf(operators: seq<Pending>, operands: seq<Node>, range: Range, b: Ops.Binary)
    returns (operators': seq<Pending>, operands': seq<Node>)
    requires |operands| == |operators| + 1
    ensures var popped := PopWhile(Stacks(operators, operands), b);
      operators' == popped.operators + [Pending(range, b)] && operands' == popped.operands
  {
    operators', operands' := operators, operands;
    while operators' != [] && Precedence(b) <= Precedence(operators'[|operators'| - 1].kind)
      invariant |operands'| == |operators'| + 1
      invariant PopWhile(Stacks(operators', operands'), b) == PopWhile(Stacks(operators, operands), b)
      decreases |operators'|
    {
      operators', operands' := PopOperatorOf(operators', operands');
    }
    operators' := operators' + [Pending(range, b)];
  }

  /** The end of the items: pop every operator; the one operand left is the expression. */
  method PopAllOf(operators: seq<Pending>, operands: seq<Node>) returns (r: Node)
    requires |operands| == |operators| + 1
    ensures r == PopAll(Stacks(operators, operands)).operands[0]
  {
    var ops, nodes := operators, operands;
    while ops != []
      invariant |nodes| == |ops| + 1
      invariant PopAll(Stacks(ops, nodes)) == PopAll(Stacks(operators, operands))
      decreases |ops|
    {
      ops, nodes := PopOperatorOf(ops, nodes);
    }
    r := nodes[0];
  }

  /** parse_ops on the two stacks. */
  method ParseOpsInto(irs: seq<Ir>, diags: Diags) returns (aborted: bool, r: Option<Node>)
    modifies diags
    ensures Result(aborted, r, diags.items) == ParseOps(irs, old(diags.items))
  {
    aborted, r := false, None;
    if irs == [] {
      aborted := true;
      return;
    }
    var operators: seq<Pending> := [];
    var operands: seq<Node> := [];
    var i := 0;
    while i < |irs|
      invariant 0 <= i <= |irs|
      invariant Balanced(Stacks(operators, operands)) && (i < |irs| || operands != [])
      invariant !aborted && r.None?
      invariant Shunt(Stacks(operators, operands), irs[i..], diags.items) == ParseOps(irs, old(diags.items))
      decreases |irs| - i
    {
      ghost var st, d := Stacks(operators, operands), diags.items;
      assert irs[i..][0] == irs[i] && irs[i..][1..] == irs[i + 1..];
      var operand: Node;
      var after: nat;
      match irs[i] {
        case Operator(range, b) =>
          if |operands| != |operators| + 1 {
            diags.Insert(Diagnostic(Error, range, Unexpected(b)));
            assert Shunt(st, irs[i..], d) == Done(None, diags.items);
            return;
          }
          operators, operands := PushOperatorOf(operators, operands, range, b);
          assert Shunt(st, irs[i..], d) == Shunt(Stacks(operators, operands), irs[i + 1..], d);
          i := i + 1;
          continue;
        case UnaryOp(_, _) =>
          var applied;
          aborted, applied, after := ParseUnaryAt(irs, i, diags);
          if aborted || applied.None? {
            return;
          }
          operand := applied.value;
          assert Shunt(st, irs[i..], d) == Take(st, operand, irs[after..], diags.items);
        case Operand(node) =>
          operand, after := node, i + 1;
          assert Shunt(st, irs[i..], d) == Take(st, operand, irs[after..], diags.items);
      }
      ghost var taken := Take(st, operand, irs[after..], diags.items);
      if |operators| != |operands| {
        diags.Insert(Diagnostic(Error, operand.range, ExpectedOperator));
        assert taken == Done(None, diags.items);
        return;
      }
      operands := operands + [operand];
      i := after;
    }
    assert irs[i..] == [];
    if |operands| != |operators| + 1 {
      var op := operators[|operators| - 1];
      diags.Insert(Diagnostic(Error, op.range, Unexpected(op.kind)));
      return;
    }
    var node := PopAllOf(operators, operands);
    r := Some(node);
  }

  /** parse_any: the items must not be empty. */
  method ParseAnyInto(tokens: seq<SingleBracket.Item>, diags: Diags) returns (aborted: bool, r: Node)
    modifies diags
    ensures Result(aborted, r, diags.items) == ParseAny(tokens, old(diags.items))
    decreases tokens, 2
  {
    aborted, r := false, Placeholder;
    if tokens == [] {
      aborted := true;
      return;
    }
    var irs;
    aborted, irs := PbnaInto(tokens, diags);
    if aborted {
      return;
    }
    var any;
    aborted, any := ParseOpsInto(irs, diags);
    if aborted {
      return;
    }
    if any.Some? {
      r := any.value;
    }
  }

  /** parse_brackets_number_assign. */
  method PbnaInto(tokens: seq<SingleBracket.Item>, diags: Diags) returns (aborted: bool, irs: seq<Ir>)
    modifies diags
    ensures Result(aborted, irs, diags.items) == Pbna([], tokens, old(diags.items))
    decreases tokens, 1
  {
    aborted, irs := false, [];
    for i := 0 to |tokens|
      invariant Pbna(irs, tokens[i..], diags.items) == Pbna([], tokens, old(diags.items))
    {
      assert tokens[i..][0] == tokens[i] && tokens[i..][1..] == tokens[i + 1..];
      if tokens[i].Assign? {
        aborted, irs := AssignInto(irs, tokens[i].range, tokens[i + 1..], diags);
        return;
      }
      aborted, irs := AbsorbInto(irs, tokens[i], diags);
      if aborted {
        return;
      }
    }
  }

  /** The visitor of parse_brackets_number_assign on one item other than ":=". */
  method AbsorbInto(irs: seq<Ir>, t: SingleBracket.Item, diags: Diags) returns (aborted: bool, r: seq<Ir>)
    requires !t.Assign?
    modifies diags
    ensures Result(aborted, r, diags.items) == Absorb(irs, t, old(diags.items))
    decreases t, 0
  {
    aborted, r := false, irs;
    match t {
      case Double(range, elements) =>
        var nodes;
        aborted, nodes := ParseDoubleInto(elements, diags);
        r := irs + [Operand(Node(range, Array(nodes)))];
      case Single(_, children) =>
        var expr;
        aborted, expr := ParseAnyInto(children, diags);
        var last: Option<Node> := None;
        if irs != [] && irs[|irs| - 1].Operand? && Indexable(irs[|irs| - 1].node) {
          last := Some(irs[|irs| - 1].node);
        }
        var range := expr.range;
        if last.Some? {
          r := irs[..|irs| - 1];
          range := Range(last.value.range.start, range.end);
        }
        r := r + [Operand(Node(range, Index(last, expr)))];
      case Literal(range, value) =>
        r := irs + [Operand(Node(range, Number(value)))];
      case Binary(range, b) =>
        r := irs + [Operator(range, b)];
      case Unary(range, u) =>
        r := irs + [UnaryOp(range, u)];
    }
  }

  /** ":=" at range, followed by rest. */
  method AssignInto(irs: seq<Ir>, range: Range, rest: seq<SingleBracket.Item>, diags: Diags) returns (aborted: bool, r: seq<Ir>)
    modifies diags
    ensures Result(aborted, r, diags.items) == AssignTo(irs, range, rest, old(diags.items))
    decreases rest, 3
  {
    aborted, r := false, irs;
    if irs != [] && irs[|irs| - 1].Operand? && irs[|irs| - 1].node.any.Index? {
      var lhs := irs[|irs| - 1].node;
      r := irs[..|irs| - 1];
      if rest != [] {
        var rhs;
        aborted, rhs := ParseAnyInto(rest, diags);
        r := r + [Operand(Node(Range(lhs.range.start, rhs.range.end), Assign(lhs, rhs)))];
      } else {
        diags.Insert(Diagnostic(Error, range, ExpectedExpression));
      }
    } else {
      diags.Insert(Diagnostic(Error, range, UnexpectedAssign));
    }
  }

  /** Put the nodes already built in front of the outcome for the remaining elements. */
  function Prepend(nodes: seq<Node>, rest: Outcome<seq<Node>>): Outcome<seq<Node>> {
    if rest.Aborted? then Aborted else Done(nodes + rest.value, rest.diags)
  }

  /** parse_double. */
  method ParseDoubleInto(elements: seq<SingleBracket.Element>, diags: Diags) returns (aborted: bool, r: seq<Node>)
    modifies diags
    ensures Result(aborted, r, diags.items) == ParseDouble(elements, old(diags.items))
    decreases elements, 3
  {
    aborted, r := false, [];
    assert elements[0..] == elements;
    ghost var whole := ParseDouble(elements, diags.items);
    assert whole.Done? ==> [] + whole.value == whole.value;
    for i := 0 to |elements|
      invariant ParseDouble(elements, old(diags.items)) == Prepend(r, ParseDouble(elements[i..], diags.items))
    {
      assert elements[i..][0] == elements[i] && elements[i..][1..] == elements[i + 1..];
      ghost var before := diags.items;
      var node;
      aborted, node := ParseAnyInto(elements[i].items, diags);
      if aborted {
        return;
      }
      ghost var rest := ParseDouble(elements[i + 1..], diags.items);
      assert ParseDouble(elements[i..], before) == Prepend([node], rest);
      assert rest.Done? ==> r + ([node] + rest.value) == (r + [node]) + rest.value;
      r := r + [node];
    }
    assert r + [] == r;
  }

  /** parse: the whole pipeline, inserting every diagnostic into diags. */
  method ParseProgram(src: string, diags: Diags) returns (aborted: bool, r: Option<seq<Node>>)
    modifies diags
    ensures Result(aborted, r, diags.items) == Parse(src, old(diags.items))
  {
    aborted, r := false, None;
    var lexed := Lexer.Lex(src);
    diags.InsertAll(lexed.diags);
    if lexed.tokens.None? {
      return;
    }
    var elements := DoubleBracket.Parse(lexed.tokens.value, diags);
    if elements.None? {
      return;
    }
    var debracketed := SingleBracket.NodeInto(elements.value, diags);
    var nodes;
    aborted, nodes := ParseDoubleInto(debracketed, diags);
    r := Some(nodes);
  }
}
