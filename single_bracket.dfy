/** The second parsing stage (de_bracket in lib/parser.cpp): inside every element, match "(" with
    ")" using a stack, and run the same stage on the elements of every "(( ... ))" node. */
module SingleBracket {
  import opened Wrappers
  import opened Diagnostics
  import opened Number
  import Ops
  import DoubleBracket

  /** A token that survives this stage, a "( ... )" group or a "(( ... ))" node. */
  datatype Item =
    | Literal(range: Range, value: Value)
    | Assign(range: Range)
    | Binary(range: Range, binary: Ops.Binary)
    | Unary(range: Range, unary: Ops.Unary)
    | Single(range: Range, children: seq<Item>)
    | Double(range: Range, elements: seq<Element>)

  /** The items of one element of a "(( ... ))" node. */
  datatype Element = Element(items: seq<Item>)

  const UnmatchedClose := "Can not find matching '('"
  const UnmatchedOpen := "Can not find matching ')'"

  /** A result together with the diagnostics inserted so far. */
  datatype Parsed<T> = Parsed(value: T, diags: seq<Diagnostic>)

  /** The loop's variables: one list per open "(" plus the outermost, and the open ranges. */
  datatype Frames = Frames(stack: seq<seq<Item>>, open: seq<Range>)

  predicate Valid(st: Frames) {
    |st.stack| == |st.open| + 1
  }

  const Initial := Frames([[]], [])

  /** Append an item to the innermost list. */
  function Push(st: Frames, item: Item): (r: Frames)
    requires Valid(st)
    ensures Valid(r) && r.open == st.open
    ensures |r.stack| == |st.stack| && r.stack[..|r.stack| - 1] == st.stack[..|st.stack| - 1]
    ensures r.stack[|r.stack| - 1] == st.stack[|st.stack| - 1] + [item]
  {
    var n := |st.stack| - 1;
    Frames(st.stack[..n] + [st.stack[n] + [item]], st.open)
  }

  /** "(": a new innermost list. */
  function OpenGroup(st: Frames, range: Range): (r: Frames)
    requires Valid(st)
    ensures Valid(r)
  {
    Frames(st.stack + [[]], st.open + [range])
  }

  /** ")": the innermost list becomes a group in the list below, spanning from the "(" to the
      ")"; without an open "(" it reports and is skipped. */
  function CloseGroup(st: Frames, acc: seq<Diagnostic>, range: Range): (r: Parsed<Frames>)
    requires Valid(st)
    ensures Valid(r.value)
  {
    if st.open != [] then
      var n := |st.open|;
      var group := Single(Range(st.open[n - 1].start, range.end), st.stack[n]);
      Parsed(Push(Frames(st.stack[..n], st.open[..n - 1]), group), acc)
    else
      Parsed(st, acc + [Diagnostic(Error, range, UnmatchedClose)])
  }

  /** A token carried through unchanged. */
  function Leaf(token: DoubleBracket.Item): Option<Item> {
    match token
    case Literal(range, value) => Some(Literal(range, value))
    case Assign(range) => Some(Assign(range))
    case Binary(range, binary) => Some(Binary(range, binary))
    case Unary(range, unary) => Some(Unary(range, unary))
    case _ => None
  }

  /** The loop of parse_element over the remaining tokens, with the diagnostics so far. */
  function Items(st: Frames, acc: seq<Diagnostic>, tokens: seq<DoubleBracket.Item>): (r: Parsed<Frames>)
    requires Valid(st)
    ensures Valid(r.value)
    decreases tokens, 1
  {
    if tokens == [] then Parsed(st, acc)
    else
      match tokens[0]
      case Open(range) => Items(OpenGroup(st, range), acc, tokens[1..])
      case Close(range) =>
        var next := CloseGroup(st, acc, range);
        Items(next.value, next.diags, tokens[1..])
      case Node(range, elements) =>
        var node := Node(elements, acc);
        Items(Push(st, Double(range, node.value)), node.diags, tokens[1..])
      case _ => Items(Push(st, Leaf(tokens[0]).value), acc, tokens[1..])
  }

  /** All lists of the stack, outermost first, joined. */
  function Flatten(stack: seq<seq<Item>>): seq<Item> {
    if stack == [] then [] else Flatten(stack[..|stack| - 1]) + stack[|stack| - 1]
  }

  /** After the loop: each "(" left open is reported and the lists are joined; otherwise the
      outermost list. */
  function Finish(st: Frames, acc: seq<Diagnostic>): Parsed<seq<Item>>
    requires Valid(st)
  {
    if st.open != [] then Parsed(Flatten(st.stack), acc + ErrorsAt(st.open, UnmatchedOpen))
    else Parsed(st.stack[0], acc)
  }

  /** de_bracket::parse_element. */
  function ParseElement(tokens: seq<DoubleBracket.Item>, acc: seq<Diagnostic>): Parsed<seq<Item>>
    decreases tokens, 2
  {
    var r := Items(Initial, acc, tokens);
    Finish(r.value, r.diags)
  }

  /** de_bracket::parse: every element of a node, in order. */
  function Node(elements: seq<DoubleBracket.Element>, acc: seq<Diagnostic>): (r: Parsed<seq<Element>>)
    ensures |r.value| == |elements|
    decreases elements, 3
  {
    if elements == [] then Parsed([], acc)
    else
      var first := ParseElement(elements[0].items, acc);
      var rest := Node(elements[1..], first.diags);
      Parsed([Element(first.value)] + rest.value, rest.diags)
  }

  // ---- The imperative stage ----

  /** The visitor for a ")" token, on the loop's own stacks. */
  method CloseInto(stack: seq<seq<Item>>, open: seq<Range>, range: Range, diags: Diags)
    returns (stack': seq<seq<Item>>, open': seq<Range>)
    requires Valid(Frames(stack, open))
    modifies diags
    ensures Parsed(Frames(stack', open'), diags.items) == CloseGroup(Frames(stack, open), old(diags.items), range)
  {
    stack', open' := stack, open;
    if open != [] {
      var children := stack[|stack| - 1];
      stack' := stack[..|stack| - 1];
      var start := open[|open| - 1];
      open' := open[..|open| - 1];
      stack' := stack'[..|stack'| - 1] + [stack'[|stack'| - 1] + [Single(Range(start.start, range.end), children)]];
    } else {
      diags.Insert(Diagnostic(Error, range, UnmatchedClose));
    }
  }

  /** de_bracket::parse_element; diagnostics go to the sink. */
  method ParseElementInto(tokens: seq<DoubleBracket.Item>, diags: Diags) returns (r: seq<Item>)
    modifies diags
    ensures Parsed(r, diags.items) == ParseElement(tokens, old(diags.items))
    decreases tokens, 2
  {
    var stack: seq<seq<Item>> := [[]];
    var open: seq<Range> := [];
    for i := 0 to |tokens|
      invariant Valid(Frames(stack, open))
      invariant Items(Frames(stack, open), diags.items, tokens[i..]) == Items(Initial, old(diags.items), tokens)
    {
      assert tokens[i..][1..] == tokens[i + 1..];
      match tokens[i] {
        case Open(range) =>
          open := open + [range];
          stack := stack + [[]];
        case Close(range) =>
          stack, open := CloseInto(stack, open, range, diags);
        case Node(range, elements) =>
          var node := NodeInto(elements, diags);
          stack := Push(Frames(stack, open), Double(range, node)).stack;
        case _ =>
          stack := Push(Frames(stack, open), Leaf(tokens[i]).value).stack;
      }
    }
    assert tokens[|tokens|..] == [];
    if open != [] {
      diags.InsertErrors(open, UnmatchedOpen);
      r := [];
      for k := 0 to |stack|
        invariant r == Flatten(stack[..k])
      {
        assert stack[..k + 1][..k] == stack[..k];
        r := r + stack[k];
      }
      assert stack[..|stack|] == stack;
    } else {
      r := stack[0];
    }
  }

  /** de_bracket::parse; diagnostics go to the sink. */
  method NodeInto(elements: seq<DoubleBracket.Element>, diags: Diags) returns (r: seq<Element>)
    modifies diags
    ensures Parsed(r, diags.items) == Node(elements, old(diags.items))
    decreases elements, 3
  {
    r := [];
    var i := 0;
    assert elements[0..] == elements;
    assert [] + Node(elements, diags.items).value == Node(elements, diags.items).value;
    while i < |elements|
      invariant 0 <= i <= |elements|
      invariant Node(elements, old(diags.items)) == Parsed(r + Node(elements[i..], diags.items).value, Node(elements[i..], diags.items).diags)
    {
      assert elements[i..][1..] == elements[i + 1..];
      var items := ParseElementInto(elements[i].items, diags);
      assert r + [Element(items)] + Node(elements[i + 1..], diags.items).value
          == r + ([Element(items)] + Node(elements[i + 1..], diags.items).value);
      r := r + [Element(items)];
      i := i + 1;
    }
    assert r + [] == r;
  }

  // ---- Nothing but the brackets is lost ----

  /** The tokens other than brackets, in order, at any depth, before this stage. */
  function TokenAtoms(tokens: seq<DoubleBracket.Item>): seq<Item>
    decreases tokens, 1
  {
    if tokens == [] then [] else TokenAtom(tokens[0]) + TokenAtoms(tokens[1..])
  }

  function TokenAtom(token: DoubleBracket.Item): seq<Item>
    decreases token, 0
  {
    match token
    case Open(_) => []
    case Close(_) => []
    case Node(_, elements) => ElementAtoms(elements)
    case _ => [Leaf(token).value]
  }

  function ElementAtoms(elements: seq<DoubleBracket.Element>): seq<Item>
    decreases elements, 2
  {
    if elements == [] then [] else TokenAtoms(elements[0].items) + ElementAtoms(elements[1..])
  }

  /** The tokens other than brackets, in order, at any depth, after this stage. */
  function Atoms(items: seq<Item>): seq<Item>
    decreases items, 1
  {
    if items == [] then [] else ItemAtoms(items[0]) + Atoms(items[1..])
  }

  function ItemAtoms(item: Item): seq<Item>
    decreases item, 0
  {
    match item
    case Single(_, children) => Atoms(children)
    case Double(_, elements) => GroupAtoms(elements)
    case _ => [item]
  }

  function GroupAtoms(elements: seq<Element>): seq<Item>
    decreases elements, 2
  {
    if elements == [] then [] else Atoms(elements[0].items) + GroupAtoms(elements[1..])
  }

  lemma {:induction false} AtomsAppend(a: seq<Item>, b: seq<Item>)
    ensures Atoms(a + b) == Atoms(a) + Atoms(b)
    decreases |a|
  {
    if a == [] {
      assert a + b == b;
    } else {
      assert (a + b)[0] == a[0] && (a + b)[1..] == a[1..] + b;
      AtomsAppend(a[1..], b);
    }
  }

  lemma AtomsOne(item: Item)
    ensures Atoms([item]) == ItemAtoms(item)
  {
    assert [item][1..] == [];
  }

  /** The atoms of the whole stack, outermost list first. */
  function StackAtoms(st: Frames): seq<Item> {
    Atoms(Flatten(st.stack))
  }

  lemma PushAtoms(st: Frames, item: Item)
    requires Valid(st)
    ensures StackAtoms(Push(st, item)) == StackAtoms(st) + Atoms([item])
  {
    var n := |st.stack| - 1;
    var r := Push(st, item);
    assert r.stack[..n] == st.stack[..n];
    assert Flatten(r.stack) == Flatten(st.stack[..n]) + (st.stack[n] + [item]);
    assert Flatten(st.stack) == Flatten(st.stack[..n]) + st.stack[n];
    AtomsAppend(Flatten(st.stack[..n]), st.stack[n] + [item]);
    AtomsAppend(st.stack[n], [item]);
    AtomsAppend(Flatten(st.stack[..n]), st.stack[n]);
  }

  lemma OpenAtoms(st: Frames, range: Range)
    requires Valid(st)
    ensures StackAtoms(OpenGroup(st, range)) == StackAtoms(st)
  {
    var r := OpenGroup(st, range);
    assert r.stack[..|r.stack| - 1] == st.stack;
    assert Flatten(r.stack) == Flatten(st.stack) + [];
    assert Flatten(st.stack) + [] == Flatten(st.stack);
  }

  lemma CloseAtoms(st: Frames, acc: seq<Diagnostic>, range: Range)
    requires Valid(st)
    ensures StackAtoms(CloseGroup(st, acc, range).value) == StackAtoms(st)
  {
    if st.open != [] {
      var n := |st.open|;
      var below := Frames(st.stack[..n], st.open[..n - 1]);
      var group := Single(Range(st.open[n - 1].start, range.end), st.stack[n]);
      PushAtoms(below, group);
      AtomsOne(group);
      assert st.stack[..n + 1] == st.stack;
      assert Flatten(st.stack) == Flatten(st.stack[..n]) + st.stack[n];
      AtomsAppend(Flatten(st.stack[..n]), st.stack[n]);
    }
  }

  lemma {:induction false} ItemsAtoms(st: Frames, acc: seq<Diagnostic>, tokens: seq<DoubleBracket.Item>)
    requires Valid(st)
    ensures StackAtoms(Items(st, acc, tokens).value) == StackAtoms(st) + TokenAtoms(tokens)
    decreases tokens, 1
  {
    if tokens == [] {
      assert StackAtoms(st) + [] == StackAtoms(st);
    } else if tokens[0].Open? || tokens[0].Close? {
      BracketAtoms(st, acc, tokens);
    } else if tokens[0].Node? {
      GroupTokenAtoms(st, acc, tokens);
    } else {
      LeafTokenAtoms(st, acc, tokens);
    }
  }

  lemma {:induction false} BracketAtoms(st: Frames, acc: seq<Diagnostic>, tokens: seq<DoubleBracket.Item>)
    requires Valid(st) && tokens != [] && (tokens[0].Open? || tokens[0].Close?)
    ensures StackAtoms(Items(st, acc, tokens).value) == StackAtoms(st) + TokenAtoms(tokens)
    decreases tokens, 0
  {
    var range := tokens[0].range;
    var next := if tokens[0].Open? then Parsed(OpenGroup(st, range), acc) else CloseGroup(st, acc, range);
    assert Items(st, acc, tokens) == Items(next.value, next.diags, tokens[1..]);
    assert TokenAtoms(tokens) == TokenAtoms(tokens[1..]);
    assert StackAtoms(next.value) == StackAtoms(st) by {
      if tokens[0].Open? {
        OpenAtoms(st, range);
      } else {
        CloseAtoms(st, acc, range);
      }
    }
    ItemsAtoms(next.value, next.diags, tokens[1..]);
  }

  lemma PushGroupAtoms(st: Frames, range: Range, elements: seq<DoubleBracket.Element>, acc: seq<Diagnostic>)
    requires Valid(st)
    ensures StackAtoms(Push(st, Double(range, Node(elements, acc).value))) == StackAtoms(st) + ElementAtoms(elements)
    decreases elements, 4
  {
    var item := Double(range, Node(elements, acc).value);
    NodeAtoms(elements, acc);
    PushAtoms(st, item);
    AtomsOne(item);
  }

  lemma {:induction false} GroupTokenAtoms(st: Frames, acc: seq<Diagnostic>, tokens: seq<DoubleBracket.Item>)
    requires Valid(st) && tokens != [] && tokens[0].Node?
    ensures StackAtoms(Items(st, acc, tokens).value) == StackAtoms(st) + TokenAtoms(tokens)
    decreases tokens, 0
  {
    var elements := tokens[0].elements;
    var node := Node(elements, acc);
    var item := Double(tokens[0].range, node.value);
    assert Items(st, acc, tokens) == Items(Push(st, item), node.diags, tokens[1..]);
    assert TokenAtoms(tokens) == ElementAtoms(elements) + TokenAtoms(tokens[1..]);
    PushGroupAtoms(st, tokens[0].range, elements, acc);
    ItemsAtoms(Push(st, item), node.diags, tokens[1..]);
  }

  lemma {:induction false} LeafTokenAtoms(st: Frames, acc: seq<Diagnostic>, tokens: seq<DoubleBracket.Item>)
    requires Valid(st) && tokens != [] && Leaf(tokens[0]).Some?
    ensures StackAtoms(Items(st, acc, tokens).value) == StackAtoms(st) + TokenAtoms(tokens)
    decreases tokens, 0
  {
    var item := Leaf(tokens[0]).value;
    assert Items(st, acc, tokens) == Items(Push(st, item), acc, tokens[1..]);
    assert TokenAtoms(tokens) == [item] + TokenAtoms(tokens[1..]);
    assert StackAtoms(Push(st, item)) == StackAtoms(st) + [item] by {
      PushAtoms(st, item);
      AtomsOne(item);
    }
    ItemsAtoms(Push(st, item), acc, tokens[1..]);
  }

  lemma FinishAtoms(st: Frames, acc: seq<Diagnostic>)
    requires Valid(st)
    ensures Atoms(Finish(st, acc).value) == StackAtoms(st)
  {
    if st.open == [] {
      assert |st.stack| == 1;
      assert st.stack[..0] == [];
      assert Flatten(st.stack[..0]) == [];
      assert Flatten(st.stack) == [] + st.stack[0];
      assert [] + st.stack[0] == st.stack[0];
    }
  }

  /** parse_element keeps every token other than a bracket, in order, at any depth, also when
      brackets are unmatched. */
  lemma {:induction false} ElementAtomsKept(tokens: seq<DoubleBracket.Item>, acc: seq<Diagnostic>)
    ensures Atoms(ParseElement(tokens, acc).value) == TokenAtoms(tokens)
    decreases tokens, 2
  {
    var r := Items(Initial, acc, tokens);
    ItemsAtoms(Initial, acc, tokens);
    FinishAtoms(r.value, r.diags);
    assert Flatten(Initial.stack) == [] + [];
    assert StackAtoms(Initial) == [];
    assert [] + TokenAtoms(tokens) == TokenAtoms(tokens);
  }

  /** The same for parse on the elements of a node. */
  lemma {:induction false} NodeAtoms(elements: seq<DoubleBracket.Element>, acc: seq<Diagnostic>)
    ensures GroupAtoms(Node(elements, acc).value) == ElementAtoms(elements)
    decreases elements, 3
  {
    if elements != [] {
      var first := ParseElement(elements[0].items, acc);
      var rest := Node(elements[1..], first.diags);
      ElementAtomsKept(elements[0].items, acc);
      NodeAtoms(elements[1..], first.diags);
      var r := Node(elements, acc).value;
      assert r[0] == Element(first.value) && r[1..] == rest.value;
    }
  }

  // ---- Diagnostics exactly for unmatched brackets ----

  /** Every ")" closes an earlier "(" of the same list, none is left open (with depth
      "(" already open), and the same holds inside every "(( ... ))" node. */
  predicate BalancedFrom(depth: nat, tokens: seq<DoubleBracket.Item>)
    decreases tokens, 1
  {
    if tokens == [] then depth == 0
    else
      match tokens[0]
      case Open(_) => BalancedFrom(depth + 1, tokens[1..])
      case Close(_) => depth > 0 && BalancedFrom(depth - 1, tokens[1..])
      case Node(_, elements) => BalancedElements(elements) && BalancedFrom(depth, tokens[1..])
      case _ => BalancedFrom(depth, tokens[1..])
  }

  predicate BalancedElements(elements: seq<DoubleBracket.Element>)
    decreases elements, 2
  {
    elements == [] || (BalancedFrom(0, elements[0].items) && BalancedElements(elements[1..]))
  }

  lemma PrefixChain(a: seq<Diagnostic>, b: seq<Diagnostic>, c: seq<Diagnostic>)
    requires a <= b && b <= c
    ensures a <= c
    ensures c == a <==> b == a && c == b
  {
    assert |a| <= |b| <= |c|;
    if c == a {
      assert b == c[..|b|];
    }
  }

  /** The diagnostics only grow, and the loop adds none and leaves no "(" open exactly when the
      remaining tokens are balanced from the current depth. */
  lemma {:induction false} ItemsDiagnostics(st: Frames, acc: seq<Diagnostic>, tokens: seq<DoubleBracket.Item>)
    requires Valid(st)
    ensures acc <= Items(st, acc, tokens).diags
    ensures Items(st, acc, tokens).diags == acc && Items(st, acc, tokens).value.open == []
      <==> BalancedFrom(|st.open|, tokens)
    decreases tokens, 1
  {
    if tokens == [] {
    } else if tokens[0].Open? || tokens[0].Close? {
      BracketDiagnostics(st, acc, tokens);
    } else if tokens[0].Node? {
      GroupDiagnostics(st, acc, tokens);
    } else {
      LeafDiagnostics(st, acc, tokens);
    }
  }

  lemma {:induction false} BracketDiagnostics(st: Frames, acc: seq<Diagnostic>, tokens: seq<DoubleBracket.Item>)
    requires Valid(st) && tokens != [] && (tokens[0].Open? || tokens[0].Close?)
    ensures acc <= Items(st, acc, tokens).diags
    ensures Items(st, acc, tokens).diags == acc && Items(st, acc, tokens).value.open == []
      <==> BalancedFrom(|st.open|, tokens)
    decreases tokens, 0
  {
    var range := tokens[0].range;
    var next := if tokens[0].Open? then Parsed(OpenGroup(st, range), acc) else CloseGroup(st, acc, range);
    assert Items(st, acc, tokens) == Items(next.value, next.diags, tokens[1..]);
    ItemsDiagnostics(next.value, next.diags, tokens[1..]);
    var r := Items(next.value, next.diags, tokens[1..]);
    if tokens[0].Open? {
      assert BalancedFrom(|st.open|, tokens) == BalancedFrom(|st.open| + 1, tokens[1..]);
    } else if st.open != [] {
      assert BalancedFrom(|st.open|, tokens) == BalancedFrom(|st.open| - 1, tokens[1..]);
    } else {
      assert !BalancedFrom(|st.open|, tokens);
      assert acc <= next.diags && next.diags != acc;
      PrefixChain(acc, next.diags, r.diags);
    }
  }

  lemma {:induction false} GroupDiagnostics(st: Frames, acc: seq<Diagnostic>, tokens: seq<DoubleBracket.Item>)
    requires Valid(st) && tokens != [] && tokens[0].Node?
    ensures acc <= Items(st, acc, tokens).diags
    ensures Items(st, acc, tokens).diags == acc && Items(st, acc, tokens).value.open == []
      <==> BalancedFrom(|st.open|, tokens)
    decreases tokens, 0
  {
    var elements := tokens[0].elements;
    var node := Node(elements, acc);
    var next := Push(st, Double(tokens[0].range, node.value));
    assert Items(st, acc, tokens) == Items(next, node.diags, tokens[1..]);
    assert BalancedFrom(|st.open|, tokens) == (BalancedElements(elements) && BalancedFrom(|st.open|, tokens[1..]));
    NodeDiagnostics(elements, acc);
    ItemsDiagnostics(next, node.diags, tokens[1..]);
    PrefixChain(acc, node.diags, Items(next, node.diags, tokens[1..]).diags);
  }

  lemma {:induction false} LeafDiagnostics(st: Frames, acc: seq<Diagnostic>, tokens: seq<DoubleBracket.Item>)
    requires Valid(st) && tokens != [] && Leaf(tokens[0]).Some?
    ensures acc <= Items(st, acc, tokens).diags
    ensures Items(st, acc, tokens).diags == acc && Items(st, acc, tokens).value.open == []
      <==> BalancedFrom(|st.open|, tokens)
    decreases tokens, 0
  {
    var next := Push(st, Leaf(tokens[0]).value);
    assert Items(st, acc, tokens) == Items(next, acc, tokens[1..]);
    assert BalancedFrom(|st.open|, tokens) == BalancedFrom(|st.open|, tokens[1..]);
    ItemsDiagnostics(next, acc, tokens[1..]);
  }

  /** parse_element inserts a diagnostic exactly when a ")" has no "(" or a "(" no ")", in
      this list or inside a node, and never removes one. */
  lemma {:induction false} ElementDiagnostics(tokens: seq<DoubleBracket.Item>, acc: seq<Diagnostic>)
    ensures acc <= ParseElement(tokens, acc).diags
    ensures ParseElement(tokens, acc).diags == acc <==> BalancedFrom(0, tokens)
    decreases tokens, 2
  {
    var r := Items(Initial, acc, tokens);
    ItemsDiagnostics(Initial, acc, tokens);
    if r.value.open != [] {
      var errors := ErrorsAt(r.value.open, UnmatchedOpen);
      assert |errors| > 0;
      assert r.diags <= r.diags + errors;
      PrefixChain(acc, r.diags, r.diags + errors);
    }
  }

  /** The same for parse over the elements of a node. */
  lemma {:induction false} NodeDiagnostics(elements: seq<DoubleBracket.Element>, acc: seq<Diagnostic>)
    ensures acc <= Node(elements, acc).diags
    ensures Node(elements, acc).diags == acc <==> BalancedElements(elements)
    decreases elements, 3
  {
    if elements != [] {
      var first := ParseElement(elements[0].items, acc);
      ElementDiagnostics(elements[0].items, acc);
      NodeDiagnostics(elements[1..], first.diags);
      PrefixChain(acc, first.diags, Node(elements[1..], first.diags).diags);
    }
  }
}
