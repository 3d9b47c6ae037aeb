/** Source positions, ranges and diagnostics (lib/diagnostic.hpp), their ordering and their
    textual form (lib/diagnostic.cpp). */
module Diagnostics {
  import opened Decimal
  import opened Text

  /** A zero-based line and column. */
  datatype Position = Position(line: int, column: int)

  /** A span of source text; the end column is exclusive. */
  datatype Range = Range(start: Position, end: Position)

  datatype Level = Error | Warning

  datatype Diagnostic = Diagnostic(level: Level, range: Range, message: string)

  // ---------------------------------------------------------------------------
  // Position::operator<=>

  /** Three-way comparison: the line difference when the lines differ, otherwise the column
      difference. Its sign orders positions lexicographically by (line, column). */
  function Compare(p: Position, q: Position): (r: int)
    ensures r == 0 <==> p == q
    ensures r < 0 <==> p.line < q.line || (p.line == q.line && p.column < q.column)
    ensures r > 0 <==> q.line < p.line || (q.line == p.line && q.column < p.column)
  {
    if p.line != q.line then p.line - q.line else p.column - q.column
  }

  /** Swapping the arguments negates the comparison. */
  lemma CompareSwap(p: Position, q: Position)
    ensures Compare(q, p) == -Compare(p, q)
  {
  }

  /** `a < b` on positions, as the sort comparator uses it. */
  predicate Before(p: Position, q: Position) {
    Compare(p, q) < 0
  }

  /** Before is a strict total order. */
  lemma BeforeOrder(p: Position, q: Position, r: Position)
    ensures !Before(p, p)
    ensures Before(p, q) ==> !Before(q, p)
    ensures Before(p, q) && Before(q, r) ==> Before(p, r)
    ensures p == q || Before(p, q) || Before(q, p)
  {
  }

  // ---------------------------------------------------------------------------
  // Range::to_string and Diagnostic::to_string

  /** "L:C-L:C": start line and column and end line shifted to one-based, the exclusive end
      column printed unshifted. */
  function RangeString(r: Range): string {
    IntToString(r.start.line + 1) + ":" + IntToString(r.start.column + 1) + "-"
    + IntToString(r.end.line + 1) + ":" + IntToString(r.end.column)
  }

  /** "<range>: <message>"; the level is not printed. */
  function DiagnosticString(d: Diagnostic): string {
    RangeString(d.range) + ": " + d.message
  }

  /** Ranges as the scanner produces them: no component is negative. */
  predicate Proper(r: Range) {
    r.start.line >= 0 && r.start.column >= 0 && r.end.line >= 0 && r.end.column >= 0
  }

  /** Example: lines 46..53 (zero-based), start column 1, end column 3. */
  lemma RangeStringExample()
    ensures RangeString(Range(Position(46, 1), Position(53, 3))) == "47:2-54:3"
  {
    assert NatToString(47) == "47" && NatToString(2) == "2";
    assert NatToString(54) == "54" && NatToString(3) == "3";
  }

  /** Decimal numerals hold neither ':' nor '-'. */
  lemma NumeralPlain(n: nat)
    ensures ':' !in NatToString(n) && '-' !in NatToString(n)
  {
    var s := NatToString(n);
    assert forall i :: 0 <= i < |s| ==> s[i] != ':' && s[i] != '-';
  }

  /** The three leading fields of a range text are recovered from it. */
  lemma Fields(x: string, y: string, z: string, t: string,
               x': string, y': string, z': string, t': string)
    requires ':' !in x && ':' !in x' && '-' !in y && '-' !in y' && ':' !in z && ':' !in z'
    requires x + ":" + y + "-" + z + ":" + t == x' + ":" + y' + "-" + z' + ":" + t'
    ensures x == x' && y == y' && z == z' && t == t'
  {
    var u, u' := z + [':'] + t, z' + [':'] + t';
    var w, w' := y + ['-'] + u, y' + ['-'] + u';
    assert x + ":" + y + "-" + z + ":" + t == x + [':'] + w;
    assert x' + ":" + y' + "-" + z' + ":" + t' == x' + [':'] + w';
    SplitAt(x, w, x', w', ':');
    SplitAt(y, u, y', u', '-');
    SplitAt(z, t, z', t', ':');
  }

  /** The four numerals of a scanner range. */
  lemma RangeShape(r: Range)
    requires Proper(r)
    ensures RangeString(r) == NatToString(r.start.line + 1) + ":" + NatToString(r.start.column + 1)
      + "-" + NatToString(r.end.line + 1) + ":" + NatToString(r.end.column)
    ensures ':' !in NatToString(r.start.line + 1) && '-' !in NatToString(r.start.column + 1)
    ensures ':' !in NatToString(r.end.line + 1) && ':' !in NatToString(r.end.column)
  {
    NumeralPlain(r.start.line + 1);
    NumeralPlain(r.start.column + 1);
    NumeralPlain(r.end.line + 1);
    NumeralPlain(r.end.column);
  }

  /** Equal numerals come from equal ranges. */
  lemma SameNumerals(r: Range, s: Range)
    requires Proper(r) && Proper(s)
    requires NatToString(r.start.line + 1) == NatToString(s.start.line + 1)
    requires NatToString(r.start.column + 1) == NatToString(s.start.column + 1)
    requires NatToString(r.end.line + 1) == NatToString(s.end.line + 1)
    requires NatToString(r.end.column) == NatToString(s.end.column)
    ensures r == s
  {
    IntToStringInjective(r.start.line + 1, s.start.line + 1);
    IntToStringInjective(r.start.column + 1, s.start.column + 1);
    IntToStringInjective(r.end.line + 1, s.end.line + 1);
    IntToStringInjective(r.end.column, s.end.column);
  }

  /** Distinct scanner ranges print differently. */
  lemma RangeStringInjective(r: Range, s: Range)
    requires Proper(r) && Proper(s) && RangeString(r) == RangeString(s)
    ensures r == s
  {
    RangeShape(r);
    RangeShape(s);
    Fields(NatToString(r.start.line + 1), NatToString(r.start.column + 1),
           NatToString(r.end.line + 1), NatToString(r.end.column),
           NatToString(s.start.line + 1), NatToString(s.start.column + 1),
           NatToString(s.end.line + 1), NatToString(s.end.column));
    SameNumerals(r, s);
  }

  lemma Regroup(x: string, y: string, z: string, u: string, m: string)
    ensures x + ":" + y + "-" + z + ":" + u + ": " + m == x + ":" + y + "-" + z + ":" + (u + [':'] + ([' '] + m))
  {
  }

  /** The printed diagnostic determines its range and message (but not its level). */
  lemma DiagnosticStringInjective(d: Diagnostic, e: Diagnostic)
    requires Proper(d.range) && Proper(e.range) && DiagnosticString(d) == DiagnosticString(e)
    ensures d.range == e.range && d.message == e.message
  {
    var r, s := d.range, e.range;
    var x, y, z, u := NatToString(r.start.line + 1), NatToString(r.start.column + 1),
                      NatToString(r.end.line + 1), NatToString(r.end.column);
    var x', y', z', v := NatToString(s.start.line + 1), NatToString(s.start.column + 1),
                         NatToString(s.end.line + 1), NatToString(s.end.column);
    RangeShape(r);
    RangeShape(s);
    Regroup(x, y, z, u, d.message);
    Regroup(x', y', z', v, e.message);
    var m, m' := [' '] + d.message, [' '] + e.message;
    Fields(x, y, z, u + [':'] + m, x', y', z', v + [':'] + m');
    SplitAt(u, m, v, m', ':');
    SameNumerals(r, s);
    assert d.message == m[1..] && e.message == m'[1..];
  }

  /** Diagnostics differing only in level print identically. */
  lemma LevelNotPrinted(d: Diagnostic, level: Level)
    ensures DiagnosticString(d.(level := level)) == DiagnosticString(d)
  {
  }

  // ---------------------------------------------------------------------------
  // to_string(std::vector<Diagnostic>): sort a copy by start position, then print each line.

  predicate SortedByStart(ds: seq<Diagnostic>) {
    forall i, j :: 0 <= i < j < |ds| ==> !Before(ds[j].range.start, ds[i].range.start)
  }

  /** Inserts d before the first diagnostic that does not start before it. */
  function InsertByStart(d: Diagnostic, ds: seq<Diagnostic>): (r: seq<Diagnostic>)
    ensures multiset(r) == multiset(ds) + multiset{d}
  {
    if ds == [] || !Before(ds[0].range.start, d.range.start) then
      [d] + ds
    else
      assert ds == [ds[0]] + ds[1..];
      [ds[0]] + InsertByStart(d, ds[1..])
  }

  /** No diagnostic of ds starts before p. */
  predicate NoneBefore(p: Position, ds: seq<Diagnostic>) {
    forall k :: 0 <= k < |ds| ==> !Before(ds[k].range.start, p)
  }

  lemma {:induction false} InsertNoneBefore(p: Position, d: Diagnostic, ds: seq<Diagnostic>)
    requires NoneBefore(p, ds) && !Before(d.range.start, p)
    ensures NoneBefore(p, InsertByStart(d, ds))
    decreases |ds|
  {
    if ds != [] && Before(ds[0].range.start, d.range.start) {
      InsertNoneBefore(p, d, ds[1..]);
    }
  }

  /** Insertion keeps a sorted list sorted. */
  lemma {:induction false} InsertSorted(d: Diagnostic, ds: seq<Diagnostic>)
    requires SortedByStart(ds)
    ensures SortedByStart(InsertByStart(d, ds))
    decreases |ds|
  {
    if ds == [] || !Before(ds[0].range.start, d.range.start) {
      assert NoneBefore(d.range.start, ds);
    } else {
      var rest := ds[1..];
      InsertSorted(d, rest);
      assert NoneBefore(ds[0].range.start, rest);
      InsertNoneBefore(ds[0].range.start, d, rest);
    }
  }

  /** The sorted copy; std::ranges::sort leaves the order of equal starts unspecified, and
      this one keeps them in input order. */
  function SortByStart(ds: seq<Diagnostic>): (r: seq<Diagnostic>)
    ensures multiset(r) == multiset(ds)
  {
    if ds == [] then [] else
      assert ds == [ds[0]] + ds[1..];
      InsertByStart(ds[0], SortByStart(ds[1..]))
  }

  /** The copy is sorted by start position. */
  lemma {:induction false} SortByStartSorted(ds: seq<Diagnostic>)
    ensures SortedByStart(SortByStart(ds))
    decreases |ds|
  {
    if ds != [] {
      SortByStartSorted(ds[1..]);
      InsertSorted(ds[0], SortByStart(ds[1..]));
    }
  }

  /** One diagnostic and its newline. */
  function Line(d: Diagnostic): string {
    DiagnosticString(d) + "\n"
  }

  /** The texts of f applied to each diagnostic, one after the other. */
  function ConcatMap(f: Diagnostic -> string, ds: seq<Diagnostic>): string {
    if ds == [] then "" else ConcatMap(f, ds[..|ds| - 1]) + f(ds[|ds| - 1])
  }

  /** Each diagnostic printed on its own line, in the given order. */
  function Lines(ds: seq<Diagnostic>): string {
    ConcatMap(Line, ds)
  }

  /** Mapping a concatenation maps the parts one after the other. */
  lemma {:induction false} ConcatMapAppend(f: Diagnostic -> string, a: seq<Diagnostic>, b: seq<Diagnostic>)
    ensures ConcatMap(f, a + b) == ConcatMap(f, a) + ConcatMap(f, b)
    decreases |b|
  {
    if b == [] {
      assert a + b == a;
    } else {
      var b0, c := b[..|b| - 1], a + b;
      assert c[..|c| - 1] == a + b0 && c[|c| - 1] == b[|b| - 1];
      ConcatMapAppend(f, a, b0);
    }
  }

  /** Printing a concatenation prints the parts one after the other. */
  lemma LinesAppend(a: seq<Diagnostic>, b: seq<Diagnostic>)
    ensures Lines(a + b) == Lines(a) + Lines(b)
  {
    ConcatMapAppend(Line, a, b);
  }

  /** Every printed line ends with a newline: one line per diagnostic. */
  lemma {:induction false} LinesCount(ds: seq<Diagnostic>)
    ensures |Lines(ds)| >= |ds|
    ensures ds != [] ==> Lines(ds)[|Lines(ds)| - 1] == '\n'
    decreases |ds|
  {
    if ds != [] {
      LinesCount(ds[..|ds| - 1]);
    }
  }

  /** to_string(vector): the diagnostics sorted by start position, one per line. */
  method ReportString(ds: seq<Diagnostic>) returns (s: string)
    ensures s == Lines(SortByStart(ds))
    ensures ds == [] ==> s == ""
  {
    var sorted := SortByStart(ds);
    s := PrintLines(sorted);
  }

  /** The printing loop over the sorted copy. */
  method PrintLines(ds: seq<Diagnostic>) returns (s: string)
    ensures s == Lines(ds)
  {
    s := "";
    for i := 0 to |ds|
      invariant s == ConcatMap(Line, ds[..i])
    {
      assert ds[..i + 1][..i] == ds[..i] && ds[..i + 1][i] == ds[i];
      s := s + Line(ds[i]);
    }
    assert ds[..|ds|] == ds;
  }

  // ---------------------------------------------------------------------------
  // Diags: the diagnostics sink every stage inserts into

  /** One error with the given message at each range, in order. */
  function ErrorsAt(ranges: seq<Range>, message: string): (ds: seq<Diagnostic>)
    ensures |ds| == |ranges|
    ensures forall i :: 0 <= i < |ranges| ==> ds[i] == Diagnostic(Error, ranges[i], message)
  {
    if ranges == [] then [] else ErrorsAt(ranges[..|ranges| - 1], message) + [Diagnostic(Error, ranges[|ranges| - 1], message)]
  }

  /** The collected diagnostics, in insertion order. */
  class Diags {
    var items: seq<Diagnostic>

    constructor()
      ensures items == []
    {
      items := [];
    }

    /** insert: append one diagnostic. */
    method Insert(d: Diagnostic)
      modifies this
      ensures items == old(items) + [d]
    {
      items := items + [d];
    }

    /** The parser's loop over the ranges of unmatched brackets: one error each, in order. */
    method InsertErrors(ranges: seq<Range>, message: string)
      modifies this
      ensures items == old(items) + ErrorsAt(ranges, message)
    {
      for k := 0 to |ranges|
        invariant items == old(items) + ErrorsAt(ranges[..k], message)
      {
        assert ranges[..k + 1][..k] == ranges[..k];
        Insert(Diagnostic(Error, ranges[k], message));
      }
      assert ranges[..|ranges|] == ranges;
    }

    /** Insert each of ds, in order. */
    method InsertAll(ds: seq<Diagnostic>)
      modifies this
      ensures items == old(items) + ds
    {
      for k := 0 to |ds|
        invariant items == old(items) + ds[..k]
      {
        assert ds[..k + 1] == ds[..k] + [ds[k]];
        Insert(ds[k]);
      }
      assert ds[..|ds|] == ds;
    }

    /** has_fatal: some inserted diagnostic is an error. */
    predicate HasFatal()
      reads this
    {
      exists i :: 0 <= i < |items| && items[i].level == Error
    }
  }

}
