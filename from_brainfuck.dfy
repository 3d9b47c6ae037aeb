/** The Brainfuck to circle-lang transpiler (lib/from_brainfuck.cpp): a fixed prologue, one
    fixed snippet per Brainfuck command in input order, and a fixed epilogue. */
module FromBrainfuck {

  const Prologue: string := "(S);\n"
  const Epilogue: string := "(S) := 0;\n"

  /** The eight Brainfuck commands; every other character is a comment. */
  predicate IsCommand(c: char) {
    c in "><+-.,[]"
  }

  /** The text emitted for one input character. */
  function Snippet(c: char): (s: string)
    ensures s == "" <==> !IsCommand(c)
  {
    match c
    case '>' => "(P) := (P) + 1*1;\n"
    case '<' => "(P) := (P) - 1*1;\n"
    case '+' => "( (P) ) := ( (P) ) + 1;\n"
    case '-' => "( (P) ) := ( (P) ) - 1;\n"
    case '.' => "(std_output_char) := ( (P) ) - 1;\n(std_output);\n"
    case ',' => "(std_input);\n( (P) ) := (std_input_char) + 1;\n"
    case '[' => "((\n( (P) ) - 1;\n"
    case ']' => "));\n"
    case _ => ""
  }

  /** The texts of f applied to each character, one after the other. */
  function ConcatMap(f: char -> string, src: string): string {
    if src == [] then "" else ConcatMap(f, src[..|src| - 1]) + f(src[|src| - 1])
  }

  /** The snippets of a whole program, in input order. */
  function Body(src: string): string {
    ConcatMap(Snippet, src)
  }

  /** The complete translation. */
  function Translation(src: string): string {
    Prologue + Body(src) + Epilogue
  }

  /** from_brainfuck: appends the prologue, each character's snippet, then the epilogue. */
  method Transpile(src: string) returns (out: string)
    ensures out == Translation(src)
    ensures |out| >= |Prologue| + |Epilogue|
    ensures out[..|Prologue|] == Prologue && out[|out| - |Epilogue|..] == Epilogue
  {
    out := Prologue;
    for i := 0 to |src|
      invariant out == Prologue + ConcatMap(Snippet, src[..i])
    {
      assert src[..i + 1] == src[..i] + [src[i]];
      ConcatMapSnoc(Snippet, src[..i], src[i]);
      Associate(Prologue, ConcatMap(Snippet, src[..i]), Snippet(src[i]));
      out := out + Snippet(src[i]);
    }
    assert src[..|src|] == src;
    out := out + Epilogue;
    Framed(Prologue, Body(src), Epilogue);
  }

  lemma Framed(p: string, b: string, e: string)
    ensures var s := p + b + e; s[..|p|] == p && s[|s| - |e|..] == e
  {
  }

  lemma Associate(a: string, b: string, c: string)
    ensures a + b + c == a + (b + c)
  {
  }

  /** Mapping a sequence extended by one character. */
  lemma ConcatMapSnoc(f: char -> string, s: string, c: char)
    ensures ConcatMap(f, s + [c]) == ConcatMap(f, s) + f(c)
  {
    assert (s + [c])[..|s|] == s;
  }

  /** Mapping a concatenation maps the parts one after the other. */
  lemma {:induction false} ConcatMapAppend(f: char -> string, a: string, b: string)
    ensures ConcatMap(f, a + b) == ConcatMap(f, a) + ConcatMap(f, b)
    decreases |b|
  {
    if b == [] {
      assert a + b == a;
    } else {
      var c := a + b;
      assert c[..|c| - 1] == a + b[..|b| - 1] && c[|c| - 1] == b[|b| - 1];
      ConcatMapAppend(f, a, b[..|b| - 1]);
    }
  }

  /** The body is a homomorphism: translating a concatenation concatenates the bodies. */
  lemma BodyAppend(a: string, b: string)
    ensures Body(a + b) == Body(a) + Body(b)
  {
    ConcatMapAppend(Snippet, a, b);
  }

  /** The commands of a program, comments removed. */
  function Commands(src: string): (r: string)
    ensures forall i :: 0 <= i < |r| ==> IsCommand(r[i])
  {
    if src == [] then ""
    else Commands(src[..|src| - 1]) + (if IsCommand(src[|src| - 1]) then [src[|src| - 1]] else [])
  }

  /** Removing every non-command character does not change the translation. */
  lemma {:induction false} CommentsIgnored(src: string)
    ensures Translation(Commands(src)) == Translation(src)
    ensures Body(Commands(src)) == Body(src)
    decreases |src|
  {
    if src != [] {
      var init, c := src[..|src| - 1], src[|src| - 1];
      CommentsIgnored(init);
      var tail: string := if IsCommand(c) then [c] else [];
      BodyAppend(Commands(init), tail);
      if IsCommand(c) {
        assert Body([c]) == Body([c][..0]) + Snippet(c);
      } else {
        assert Body(tail) == "";
      }
    }
  }

  /** A single character translates to its snippet. */
  lemma BodySingle(c: char)
    ensures Body([c]) == Snippet(c)
  {
    ConcatMapSnoc(Snippet, [], c);
    assert [] + [c] == [c];
  }

  /** Loops are not checked for balance: a closing bracket before an opening one still
      translates, to a "))" line followed by a "((" block. */
  lemma UnbalancedLoops()
    ensures Body("][") == "));\n" + "((\n( (P) ) - 1;\n"
  {
    BodyAppend("]", "[");
    assert "]" + "[" == "][";
    BodySingle(']');
    BodySingle('[');
  }
}
