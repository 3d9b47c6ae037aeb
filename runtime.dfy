/** The interpreter (lib/runtime.hpp): runtime objects built from the syntax tree, the global
    circular array (gca) they read and write, evaluation of expressions and execution of
    arrays, assignments and the three standard functions.

    Objects are values here: the source owns every object through a unique_ptr and hands
    out clones, so no object is ever shared and a copy is as good as the original. An array's
    elements are an association list searched with Index::operator== (the equality the
    source's hash map uses); the list order is the order of insertion. */
module Runtime {
  import opened Wrappers
  import opened Diagnostics
  import Num = Number
  import Ops
  import Ast
  import Coefficients

  // ---------------------------------------------------------------------------
  // split

  /** d occurs in s at position j. */
  predicate OccursAt(s: string, d: string, j: int) {
    0 <= j && j + |d| <= |s| && s[j..j + |d|] == d
  }

  /** std::string::find from position j on: the first occurrence of d at or after j. */
  function FindFrom(s: string, d: string, j: nat): (r: Option<nat>)
    ensures r.Some? ==> j <= r.value && OccursAt(s, d, r.value)
    ensures r.Some? ==> forall k :: j <= k < r.value ==> !OccursAt(s, d, k)
    ensures r.None? ==> forall k :: j <= k ==> !OccursAt(s, d, k)
    decreases |s| - j
  {
    if j + |d| > |s| then None
    else if s[j..j + |d|] == d then Some(j)
    else FindFrom(s, d, j + 1)
  }

  /** The pieces of s between the occurrences of a non-empty delimiter, found left to right. */
  function Split(s: string, d: string): (pieces: seq<string>)
    requires |d| > 0
    ensures |pieces| >= 1
    decreases |s|
  {
    match FindFrom(s, d, 0)
    case None => [s]
    case Some(p) => [s[..p]] + Split(s[p + |d|..], d)
  }

  /** The pieces glued back together with the delimiter between them. */
  function Join(pieces: seq<string>, d: string): string
    requires |pieces| >= 1
  {
    if |pieces| == 1 then pieces[0] else pieces[0] + d + Join(pieces[1..], d)
  }

  /** split: cut off the text before the first delimiter and erase it together with the
      delimiter, while a delimiter remains; what is left is the last piece. The source loops
      for ever on an empty delimiter (find of "" always succeeds at 0 and erase removes
      nothing), so the delimiter must be non-empty. */
  method SplitText(text: string, delimiter: string) returns (tokens: seq<string>)
    requires |delimiter| > 0
    ensures tokens == Split(text, delimiter)
  {
    tokens := [];
    var s := text;
    var pos := FindFrom(s, delimiter, 0);
    while pos.Some?
      invariant pos == FindFrom(s, delimiter, 0)
      invariant tokens + Split(s, delimiter) == Split(text, delimiter)
      decreases |s|
    {
      assert Split(s, delimiter) == [s[..pos.value]] + Split(s[pos.value + |delimiter|..], delimiter);
      tokens := tokens + [s[..pos.value]];
      s := s[pos.value + |delimiter|..];
      pos := FindFrom(s, delimiter, 0);
    }
    tokens := tokens + [s];
  }

  /** Joining the pieces with the delimiter gives the text back. */
  lemma {:induction false} SplitJoin(s: string, d: string)
    requires |d| > 0
    ensures Join(Split(s, d), d) == s
    decreases |s|
  {
    match FindFrom(s, d, 0)
    case None =>
    case Some(p) =>
      var rest := s[p + |d|..];
      SplitJoin(rest, d);
      JoinCons(s[..p], Split(rest, d), d);
      Glue(s, d, p);
  }

  lemma JoinCons(first: string, rest: seq<string>, d: string)
    requires |rest| >= 1
    ensures Join([first] + rest, d) == first + d + Join(rest, d)
  {
    assert ([first] + rest)[1..] == rest;
  }

  lemma Glue(s: string, d: string, p: int)
    requires OccursAt(s, d, p)
    ensures s == s[..p] + d + s[p + |d|..]
  {
    assert s == s[..p] + s[p..p + |d|] + s[p + |d|..];
  }

  /** No piece contains the delimiter. */
  lemma {:induction false} SplitPieces(s: string, d: string)
    requires |d| > 0
    ensures forall i, k :: 0 <= i < |Split(s, d)| ==> !OccursAt(Split(s, d)[i], d, k)
    decreases |s|
  {
    match FindFrom(s, d, 0)
    case None =>
    case Some(p) =>
      var rest := s[p + |d|..];
      SplitPieces(rest, d);
      var pieces := Split(s, d);
      assert pieces == [s[..p]] + Split(rest, d);
      forall i, k | 0 <= i < |pieces|
        ensures !OccursAt(pieces[i], d, k)
      {
        if i == 0 && OccursAt(s[..p], d, k) {
          assert s[..p][k..k + |d|] == s[k..k + |d|];
          assert OccursAt(s, d, k);
        } else if i > 0 {
          assert pieces[i] == Split(rest, d)[i - 1];
        }
      }
  }

  // ---------------------------------------------------------------------------
  // Objects and arrays

  /** A runtime object (Obj and its subclasses). Ranges are optional: objects built by
      evaluation carry none. */
  datatype Obj =
    | Array(table: Table, range: Option<Range>)
    | Index(subject: Option<Obj>, index: Obj, range: Option<Range>)
    | Assign(target: Target, rhs: Obj, range: Option<Range>)
    | Binary(kind: Ops.Binary, lhs: Obj, rhs: Obj, range: Option<Range>)
    | Unary(op: Ops.Unary, operand: Obj, range: Option<Range>)
    | Number(value: Num.Value, range: Option<Range>)
    | StdInput
    | StdOutput
    | StdDecompose

  /** The left-hand side of an assignment, which the source types as an Index. */
  datatype Target = Target(subject: Option<Obj>, index: Obj, range: Option<Range>)

  /** A circular array: its length and its elements in insertion order. */
  datatype Table = Table(length: int, elements: seq<Entry>)

  datatype Entry = Entry(key: Num.Index, obj: Obj)

  /** One step of a path into the gca (diag::WithInfo<number::Value>): the index and the
      range an error about it reports. */
  datatype Step = Step(range: Option<Range>, value: Num.Value)

  /** A diag::RuntimeError: the range its message starts with, when there is one, and the
      text after it. */
  datatype Failure = Failure(range: Option<Range>, text: string)

  /** How evaluation and execution end: with a value, with a runtime error, in behaviour the
      source leaves undefined, or out of fuel (the source's loops and recursion need not
      end; the fuel bounds the model's). */
  datatype Outcome<T> = Done(value: T) | Thrown(failure: Failure) | Undefined | OutOfFuel

  /** A failed outcome passed on unchanged. */
  function Lift<T, U>(o: Outcome<T>): Outcome<U>
    requires !o.Done?
  {
    if o.Thrown? then Thrown(o.failure) else if o.Undefined? then Undefined else OutOfFuel
  }

  const NonArray := "Attempting to index non array object."
  const NonNumber := "Attempting to index an array with a non number."
  const NotNumber := "Can not operate on non number"
  const OutputNotNumber := "(std_output_char) isn't a number."
  const OutputNotPi := "(std_output_char) isn't a multiple of pi."
  const OutputNotAscii := "(std_output_char) isn't within the range of ascii value."

  /** The texts evaluation can fail with, and those execution can fail with. */
  const EvalMessages := {NonArray, NonNumber, NotNumber}
  const Messages := EvalMessages + {OutputNotNumber, OutputNotPi, OutputNotAscii}

  /** The message a runtime error prints: the range, a space, then the text. */
  function Message(f: Failure): string {
    if f.range.Some? then RangeString(f.range.value) + " " + f.text else f.text
  }

  /** diag::Range{}: all zero. */
  const NoRange := Range(Position(0, 0), Position(0, 0))

  // ---------------------------------------------------------------------------
  // Lookup and insert_or_assign

  /** The entry holds the key: Index::operator== says they name the same slot. */
  predicate Holds(e: Entry, key: Num.Index) {
    Num.SameSlot(e.key, key)
  }

  /** unordered_map::find, from entry j on: the first entry that holds the key. */
  function FindEntryFrom(elements: seq<Entry>, key: Num.Index, j: nat): (r: Option<nat>)
    ensures r.Some? ==> j <= r.value < |elements| && Holds(elements[r.value], key)
    ensures r.Some? ==> forall i :: j <= i < r.value ==> !Holds(elements[i], key)
    ensures r.None? ==> forall i :: j <= i < |elements| ==> !Holds(elements[i], key)
    decreases |elements| - j
  {
    hide Num.SameSlot;
    if j >= |elements| then None
    else if Holds(elements[j], key) then Some(j)
    else FindEntryFrom(elements, key, j + 1)
  }

  function FindKey(elements: seq<Entry>, key: Num.Index): (r: Option<nat>)
    ensures r.Some? ==> r.value < |elements| && Holds(elements[r.value], key)
    ensures r.Some? ==> forall i :: 0 <= i < r.value ==> !Holds(elements[i], key)
    ensures r.None? ==> forall i :: 0 <= i < |elements| ==> !Holds(elements[i], key)
  {
    FindEntryFrom(elements, key, 0)
  }

  /** The object stored under key, if any. */
  function Lookup(elements: seq<Entry>, key: Num.Index): Option<Obj> {
    match FindKey(elements, key)
    case None => None
    case Some(p) => Some(elements[p].obj)
  }

  /** Array::index: the element at index i, or the number 1 where nothing is stored. */
  function At(t: Table, i: Num.Value): Obj {
    match Lookup(t.elements, Num.Index(i, t.length))
    case None => Number(Num.FromInt(1), None)
    case Some(o) => o
  }

  /** insert_or_assign: replace the object of the entry that holds the key, keeping its
      key, or append a new entry. */
  function Put(elements: seq<Entry>, key: Num.Index, v: Obj): seq<Entry> {
    match FindKey(elements, key)
    case None => elements + [Entry(key, v)]
    case Some(p) => elements[p := Entry(elements[p].key, v)]
  }

  /** After insert_or_assign, the key finds the new object. */
  lemma PutFinds(elements: seq<Entry>, key: Num.Index, v: Obj)
    ensures Lookup(Put(elements, key, v), key) == Some(v)
  {
    var r := Put(elements, key, v);
    var q := FindKey(r, key);
    match FindKey(elements, key)
    case None =>
      assert r == elements + [Entry(key, v)];
      Num.SameSlotReflexive(key);
      assert Holds(r[|elements|], key);
      assert forall j :: 0 <= j < |elements| ==> r[j] == elements[j];
      assert q == Some(|elements|);
    case Some(p) =>
      assert r == elements[p := Entry(elements[p].key, v)];
      assert forall j :: 0 <= j < |elements| ==> r[j].key == elements[j].key;
      assert Holds(r[p], key);
      assert q == Some(p);
  }

  /** insert_or_assign touches one entry: every key keeps its place, and every key already
      stored in another entry finds what it found before. */
  lemma PutKeeps(elements: seq<Entry>, key: Num.Index, other: Num.Index, v: Obj)
    requires FindKey(elements, other).Some? && FindKey(elements, other) != FindKey(elements, key)
    ensures Lookup(Put(elements, key, v), other) == Lookup(elements, other)
    ensures |elements| <= |Put(elements, key, v)| <= |elements| + 1
    ensures forall j :: 0 <= j < |elements| ==> Put(elements, key, v)[j].key == elements[j].key
  {
    var r := Put(elements, key, v);
    var q := FindKey(elements, other).value;
    match FindKey(elements, key) {
      case None =>
        assert r == elements + [Entry(key, v)];
      case Some(p) =>
        assert r == elements[p := Entry(elements[p].key, v)];
    }
    FoundByKeys(elements, r, other);
  }

  /** find looks at keys only: a list with the same keys in front finds what the shorter
      one finds. */
  lemma FoundByKeys(a: seq<Entry>, b: seq<Entry>, key: Num.Index)
    requires |a| <= |b| && forall j :: 0 <= j < |a| ==> b[j].key == a[j].key
    requires FindKey(a, key).Some?
    ensures FindKey(b, key) == FindKey(a, key)
  {
    hide Num.SameSlot;
    var q := FindKey(a, key).value;
    assert Holds(b[q], key) by {
      assert b[q].key == a[q].key;
    }
    forall j | 0 <= j < q
      ensures !Holds(b[j], key)
    {
      assert b[j].key == a[j].key;
    }
  }

  // ---------------------------------------------------------------------------
  // Array::insert: walk a path of indices, then insert_or_assign at the end.

  /** positions lead from t through nested arrays: each is an entry of the array reached so
      far, and holds an array. */
  predicate Follows(t: Table, positions: seq<nat>)
    decreases |positions|
  {
    positions == []
    || (positions[0] < |t.elements| && t.elements[positions[0]].obj.Array?
        && Follows(t.elements[positions[0]].obj.table, positions[1..]))
  }

  /** The array at the end of the walk. */
  function Reached(t: Table, positions: seq<nat>): Table
    requires Follows(t, positions)
    decreases |positions|
  {
    if positions == [] then t else Reached(t.elements[positions[0]].obj.table, positions[1..])
  }

  /** t with the array at the end of the walk given new elements, and every array on the
      way updated to hold the new one. */
  function Rebuild(t: Table, positions: seq<nat>, inner: seq<Entry>): Table
    requires Follows(t, positions)
    decreases |positions|
  {
    if positions == [] then t.(elements := inner)
    else
      var e := t.elements[positions[0]];
      t.(elements := t.elements[positions[0] := Entry(e.key, e.obj.(table := Rebuild(e.obj.table, positions[1..], inner)))])
  }

  /** The walk of Array::insert over steps: at each step the entry that holds the step's
      index in the current array, which must be an array; else the error names the step. */
  function Descend(t: Table, steps: seq<Step>): (r: Result<seq<nat>, Failure>)
    ensures r.Ok? ==> |r.value| == |steps| && Follows(t, r.value)
    ensures r.Err? ==> r.error.text == NonArray && exists i :: 0 <= i < |steps| && r.error.range == steps[i].range
    decreases |steps|
  {
    if steps == [] then Ok([])
    else match FindKey(t.elements, Num.Index(steps[0].value, t.length))
      case None => Err(Failure(steps[0].range, NonArray))
      case Some(p) =>
        var o := t.elements[p].obj;
        if !o.Array? then Err(Failure(steps[0].range, NonArray))
        else match Descend(o.table, steps[1..])
          case Err(f) => Err(f)
          case Ok(ps) => Ok([p] + ps)
  }

  /** Array::insert: walk all but the last step, then insert_or_assign the last index in
      the array reached. */
  function Inserted(t: Table, path: seq<Step>, v: Obj): (r: Result<Table, Failure>)
    requires path != []
    ensures r.Err? ==> r.error.text == NonArray
  {
    match Descend(t, path[..|path| - 1])
    case Err(f) => Err(f)
    case Ok(ps) =>
      var target := Reached(t, ps);
      Ok(Rebuild(t, ps, Put(target.elements, Num.Index(path[|path| - 1].value, target.length), v)))
  }

  /** A rebuild keeps the shape of every array on the walk: the same length, the same keys
      in the same places, an array where there was one; off the walk nothing changes, and
      at its end sit the new elements. */
  lemma {:induction false} RebuildShape(t: Table, ps: seq<nat>, inner: seq<Entry>)
    requires Follows(t, ps)
    ensures Follows(Rebuild(t, ps, inner), ps)
    ensures Reached(Rebuild(t, ps, inner), ps) == Reached(t, ps).(elements := inner)
    ensures Rebuild(t, ps, inner).length == t.length
    ensures ps != [] ==> |Rebuild(t, ps, inner).elements| == |t.elements|
    ensures ps != [] ==> forall j :: 0 <= j < |t.elements| ==>
      Rebuild(t, ps, inner).elements[j].key == t.elements[j].key
      && (j != ps[0] ==> Rebuild(t, ps, inner).elements[j] == t.elements[j])
    decreases |ps|
  {
    if ps != [] {
      var e := t.elements[ps[0]];
      RebuildShape(e.obj.table, ps[1..], inner);
    }
  }

  /** A rebuild does not disturb the walk that led to it. */
  lemma {:induction false} DescendRebuild(t: Table, steps: seq<Step>, inner: seq<Entry>)
    requires Descend(t, steps).Ok?
    ensures var ps := Descend(t, steps).value;
      Descend(Rebuild(t, ps, inner), steps) == Descend(t, steps)
    decreases |steps|
  {
    if steps != [] {
      var ps := Descend(t, steps).value;
      var t' := Rebuild(t, ps, inner);
      var key := Num.Index(steps[0].value, t.length);
      var p := FindKey(t.elements, key).value;
      assert p == ps[0];
      var inside := t.elements[p].obj.table;
      assert Descend(inside, steps[1..]) == Ok(ps[1..]);
      RebuildShape(t, ps, inner);
      FoundByKeys(t.elements, t'.elements, key);
      assert t'.elements[p].obj.table == Rebuild(inside, ps[1..], inner);
      DescendRebuild(inside, steps[1..], inner);
    }
  }

  /** After Array::insert, the same walk leads to the array that received the value, and
      there the last index finds it. */
  lemma InsertedFinds(t: Table, path: seq<Step>, v: Obj)
    requires path != [] && Inserted(t, path, v).Ok?
    ensures var t', walk := Inserted(t, path, v).value, path[..|path| - 1];
      Descend(t', walk) == Descend(t, walk)
      && var target := Reached(t', Descend(t, walk).value);
      Lookup(target.elements, Num.Index(path[|path| - 1].value, target.length)) == Some(v)
  {
    var walk := path[..|path| - 1];
    var ps := Descend(t, walk).value;
    var target := Reached(t, ps);
    var key := Num.Index(path[|path| - 1].value, target.length);
    var inner := Put(target.elements, key, v);
    RebuildShape(t, ps, inner);
    DescendRebuild(t, walk, inner);
    PutFinds(target.elements, key, v);
  }

  /** A path of one index never fails: it is insert_or_assign on the array itself. */
  lemma InsertTop(t: Table, s: Step, v: Obj)
    ensures Inserted(t, [s], v) == Ok(t.(elements := Put(t.elements, Num.Index(s.value, t.length), v)))
  {
    assert [s][..0] == [];
  }

  /** The positions of a walk that went well, followed by those of a further walk. */
  function Extend(ps: seq<nat>, r: Result<seq<nat>, Failure>): Result<seq<nat>, Failure> {
    if r.Ok? then Ok(ps + r.value) else r
  }

  lemma ExtendCons(p: nat, rest: seq<nat>, r: Result<seq<nat>, Failure>)
    ensures Extend([p], Extend(rest, r)) == Extend([p] + rest, r)
  {
    if r.Ok? {
      assert [p] + (rest + r.value) == ([p] + rest) + r.value;
    }
  }

  /** One step of a walk that finds an array. */
  lemma DescendHead(t: Table, steps: seq<Step>, p: nat)
    requires steps != [] && FindKey(t.elements, Num.Index(steps[0].value, t.length)) == Some(p)
    requires t.elements[p].obj.Array?
    ensures Descend(t, steps) == Extend([p], Descend(t.elements[p].obj.table, steps[1..]))
  {
  }

  /** A walk along a + b whose first part a goes well is the walk along a, then along b
      from the array where it ended. */
  lemma {:induction false} DescendConcat(t: Table, a: seq<Step>, b: seq<Step>, ps: seq<nat>)
    requires Descend(t, a) == Ok(ps)
    ensures Follows(t, ps)
    ensures Descend(t, a + b) == Extend(ps, Descend(Reached(t, ps), b))
    decreases |a|
  {
    if a == [] {
      assert a + b == b;
      assert ps == [] && Reached(t, ps) == t;
      var r := Descend(t, b);
      if r.Ok? {
        assert ps + r.value == r.value;
      }
    } else {
      var ab := a + b;
      assert ab[0] == a[0] && ab[1..] == a[1..] + b;
      var p := FindKey(t.elements, Num.Index(a[0].value, t.length)).value;
      var o := t.elements[p].obj;
      DescendHead(t, a, p);
      DescendHead(t, ab, p);
      var rest := ps[1..];
      assert Descend(o.table, a[1..]) == Ok(rest) && ps == [p] + rest;
      DescendConcat(o.table, a[1..], b, rest);
      assert Reached(t, ps) == Reached(o.table, rest);
      var r := Descend(Reached(o.table, rest), b);
      assert Descend(o.table, ab[1..]) == Extend(rest, r);
      assert Descend(t, ab) == Extend([p], Extend(rest, r));
      ExtendCons(p, rest, r);
    }
  }

  /** A walk of one step that finds an array. */
  lemma DescendOne(w: Table, s: Step, p: nat)
    requires FindKey(w.elements, Num.Index(s.value, w.length)) == Some(p)
    requires w.elements[p].obj.Array?
    ensures Descend(w, [s]) == Ok([p])
  {
    DescendHead(w, [s], p);
    assert [s][1..] == [];
    assert Descend(w.elements[p].obj.table, []) == Ok([]);
    assert [p] + [] == [p];
  }

  /** A walk over the first k steps of a path that finds an array at step k goes on
      through it. */
  lemma DescendMore(t: Table, path: seq<Step>, k: nat, ps: seq<nat>, w: Table, p: nat)
    requires k < |path| && Descend(t, path[..k]) == Ok(ps)
    requires Follows(t, ps) && w == Reached(t, ps)
    requires FindKey(w.elements, Num.Index(path[k].value, w.length)) == Some(p)
    requires w.elements[p].obj.Array?
    ensures Descend(t, path[..k + 1]) == Ok(ps + [p])
    ensures Follows(t, ps + [p]) && Reached(t, ps + [p]) == w.elements[p].obj.table
  {
    hide Holds;
    DescendConcat(t, path[..k], [path[k]], ps);
    assert path[..k] + [path[k]] == path[..k + 1];
    DescendOne(w, path[k], p);
    ReachedConcat(t, ps, [p]);
  }

  /** A walk that misses an array at step k fails there, whatever follows. */
  lemma DescendStops(t: Table, path: seq<Step>, k: nat, n: nat, ps: seq<nat>, w: Table, e: Option<nat>)
    requires k < n <= |path| && Descend(t, path[..k]) == Ok(ps)
    requires Follows(t, ps) && w == Reached(t, ps)
    requires e == FindKey(w.elements, Num.Index(path[k].value, w.length))
    requires e.None? || !w.elements[e.value].obj.Array?
    ensures Descend(t, path[..n]) == Err(Failure(path[k].range, NonArray))
  {
    hide Holds, Descend;
    var rest := path[k..n];
    assert Descend(w, rest) == Err(Failure(path[k].range, NonArray)) by {
      assert rest[0] == path[k];
      DescendMiss(w, rest, e);
    }
    assert Descend(t, path[..n]) == Extend(ps, Descend(w, rest)) by {
      DescendConcat(t, path[..k], rest, ps);
      assert path[..k] + rest == path[..n];
    }
  }

  /** A walk whose first step finds no array fails at that step. */
  lemma DescendMiss(w: Table, steps: seq<Step>, e: Option<nat>)
    requires steps != [] && e == FindKey(w.elements, Num.Index(steps[0].value, w.length))
    requires e.None? || !w.elements[e.value].obj.Array?
    ensures Descend(w, steps) == Err(Failure(steps[0].range, NonArray))
  {
  }

  lemma InsertedFails(t: Table, path: seq<Step>, v: Obj, f: Failure)
    requires path != [] && Descend(t, path[..|path| - 1]) == Err(f)
    ensures Inserted(t, path, v) == Err(f)
  {
  }

  lemma InsertedWalks(t: Table, path: seq<Step>, v: Obj, ps: seq<nat>)
    requires path != [] && Descend(t, path[..|path| - 1]) == Ok(ps)
    ensures Follows(t, ps)
    ensures Inserted(t, path, v)
      == Ok(Rebuild(t, ps, Put(Reached(t, ps).elements, Num.Index(path[|path| - 1].value, Reached(t, ps).length), v)))
  {
  }

  /** A walk extended by one step reaches the array found by that step. */
  lemma {:induction false} ReachedConcat(t: Table, ps: seq<nat>, qs: seq<nat>)
    requires Follows(t, ps) && Follows(Reached(t, ps), qs)
    ensures Follows(t, ps + qs) && Reached(t, ps + qs) == Reached(Reached(t, ps), qs)
    decreases |ps|
  {
    if ps == [] {
      assert ps + qs == qs;
    } else {
      assert (ps + qs)[0] == ps[0] && (ps + qs)[1..] == ps[1..] + qs;
      ReachedConcat(t.elements[ps[0]].obj.table, ps[1..], qs);
    }
  }

  // ---------------------------------------------------------------------------
  // Arrays filled index by index

  /** The entries of an array whose i-th object sits at index i (Array's constructor from
      an array literal, std_decompose's coefficient arrays). */
  function Slots(objs: seq<Obj>, n: int): (es: seq<Entry>)
    ensures |es| == |objs|
  {
    seq(|objs|, i requires 0 <= i < |objs| => Entry(Num.Index(Num.FromInt(i), n), objs[i]))
  }

  /** Distinct indices below the length name distinct slots: i·π and j·π differ by less
      than one turn of n·π. */
  lemma SlotsDistinct(i: int, j: int, n: int)
    requires 0 <= i < j < n
    ensures !Num.SameSlot(Num.Index(Num.FromInt(i), n), Num.Index(Num.FromInt(j), n))
  {
    var a, b := Num.Index(Num.FromInt(i), n), Num.Index(Num.FromInt(j), n);
    if Num.SameSlot(a, b) {
      var k := Num.SlotShift(a, b).value;
      Num.SlotShiftMeaning(a, b, k, 1);
      Num.IndexDifferenceEval(a, b, 1);
      Num.FromIntMeaning(i, 1);
      Num.FromIntMeaning(j, 1);
    }
  }

  /** Index i of a filled array finds the i-th object. */
  lemma SlotsFind(objs: seq<Obj>, n: int, i: int)
    requires |objs| <= n && 0 <= i < |objs|
    ensures Lookup(Slots(objs, n), Num.Index(Num.FromInt(i), n)) == Some(objs[i])
  {
    var es, key := Slots(objs, n), Num.Index(Num.FromInt(i), n);
    Num.SameSlotReflexive(key);
    assert Holds(es[i], key);
    forall j | 0 <= j < i
      ensures !Holds(es[j], key)
    {
      SlotsDistinct(j, i, n);
    }
    assert FindKey(es, key) == Some(i);
  }

  /** Filling index i after indices 0 .. i - 1 appends a new entry: no earlier index
      names the same slot. */
  lemma SlotsExtend(objs: seq<Obj>, n: int, i: int)
    requires |objs| <= n && 0 <= i < |objs|
    ensures Put(Slots(objs[..i], n), Num.Index(Num.FromInt(i), n), objs[i]) == Slots(objs[..i + 1], n)
  {
    var es, key := Slots(objs[..i], n), Num.Index(Num.FromInt(i), n);
    forall j | 0 <= j < i
      ensures !Holds(es[j], key)
    {
      SlotsDistinct(j, i, n);
    }
    hide Holds;
    assert FindKey(es, key).None?;
    assert Put(es, key, objs[i]) == es + [Entry(key, objs[i])];
    assert es + [Entry(key, objs[i])] == Slots(objs[..i + 1], n);
  }

  // ---------------------------------------------------------------------------
  // from_ast

  /** The tree the parser hands over: the left-hand side of every assignment is an index
      (the source's type says so; the tree model does not). */
  predicate Typed(node: Ast.Node)
    decreases node
  {
    match node.any
    case Array(elements) => forall k :: 0 <= k < |elements| ==> Typed(elements[k])
    case Assign(lhs, rhs) =>
      lhs.any.Index? && (lhs.any.subject.Some? ==> Typed(lhs.any.subject.value))
      && Typed(lhs.any.index) && Typed(rhs)
    case Index(subject, index) => (subject.Some? ==> Typed(subject.value)) && Typed(index)
    case Binary(_, lhs, rhs) => Typed(lhs) && Typed(rhs)
    case Unary(_, rhs) => Typed(rhs)
    case Number(_) => true
  }

  /** from_ast: every node becomes the object of the same kind, with the node's range; an
      array literal of n elements has length n and its i-th element at index i. */
  function FromAst(node: Ast.Node): (o: Obj)
    requires Typed(node)
    decreases node
  {
    match node.any
    case Array(elements) =>
      var objs := seq(|elements|, k requires 0 <= k < |elements| => FromAst(elements[k]));
      Array(Table(|elements|, Slots(objs, |elements|)), Some(node.range))
    case Assign(lhs, rhs) =>
      var subject := if lhs.any.subject.Some? then Some(FromAst(lhs.any.subject.value)) else None;
      Assign(Target(subject, FromAst(lhs.any.index), Some(lhs.range)), FromAst(rhs), Some(node.range))
    case Index(subject, index) =>
      Index(if subject.Some? then Some(FromAst(subject.value)) else None, FromAst(index), Some(node.range))
    case Binary(kind, lhs, rhs) => Binary(kind, FromAst(lhs), FromAst(rhs), Some(node.range))
    case Unary(op, rhs) => Unary(op, FromAst(rhs), Some(node.range))
    case Number(value) => Number(value, Some(node.range))
  }

  /** The i-th element of an array literal is stored at index i of the array built from it. */
  lemma ArrayLiteralAt(node: Ast.Node, i: int)
    requires Typed(node) && node.any.Array? && 0 <= i < |node.any.elements|
    ensures FromAst(node).Array? && FromAst(node).table.length == |node.any.elements|
    ensures At(FromAst(node).table, Num.FromInt(i)) == FromAst(node.any.elements[i])
  {
    var elements := node.any.elements;
    var objs := seq(|elements|, k requires 0 <= k < |elements| => FromAst(elements[k]));
    assert FromAst(node).table == Table(|elements|, Slots(objs, |elements|));
    SlotsFind(objs, |elements|, i);
  }

  // ---------------------------------------------------------------------------
  // Evaluation

  /** less_than, which compares two values numerically by the digits of π in floating
      point, is a parameter of the model. */
  type Less = (Num.Value, Num.Value) -> bool

  /** The comparison operators of lib/number.cpp before from_bool: equal, or less_than with
      the operands in the order each operator gives them. */
  predicate Verdict(kind: Ops.Binary, l: Num.Value, r: Num.Value, less: Less) {
    match kind
    case Equal => Num.Equivalent(l, r)
    case NotEqual => !Num.Equivalent(l, r)
    case Smaller => less(l, r)
    case SmallerOrEqual => !less(r, l)
    case Greater => less(r, l)
    case GreaterOrEqual => !less(l, r)
    case _ => false
  }

  /** The operators of lib/number.cpp; a comparison is from_bool of its verdict. */
  function Apply(kind: Ops.Binary, l: Num.Value, r: Num.Value, less: Less): Num.Value {
    match kind
    case Plus => Num.Add(l, r)
    case Minus => Num.Sub(l, r)
    case Multiply => Num.Mul(l, r)
    case Divide => Num.Div(l, r)
    case BoolAnd => Num.And(l, r)
    case BoolOr => Num.Or(l, r)
    case _ => Num.FromBool(Verdict(kind, l, r, less))
  }

  /** An object that evaluates to itself (evaluate is clone). */
  predicate Evaluated(o: Obj) {
    !o.Index? && !o.Binary? && !o.Unary?
  }

  /** Obj::evaluate against the gca. An index evaluates its subject (the gca when it has
      none), which must be an array, then its index, which must be a number, then the
      element found there; an operator evaluates its right operand before its left one;
      everything else is its own value. The fuel bounds the chain of stored indices
      followed. */
  function Eval(o: Obj, gca: Table, fuel: nat, less: Less): (r: Outcome<Obj>)
    ensures r.Done? ==> Evaluated(r.value)
    ensures Evaluated(o) ==> r == Done(o)
    ensures r.Thrown? ==> r.failure.text in EvalMessages
    decreases fuel, o
  {
    match o
    case Index(subject, index, range) =>
      var arr := if subject.Some? then Eval(subject.value, gca, fuel, less) else Done(Array(gca, None));
      if !arr.Done? then arr
      else if !arr.value.Array? then Thrown(Failure(range, NonArray))
      else
        var i := Eval(index, gca, fuel, less);
        if !i.Done? then i
        else if !i.value.Number? then Thrown(Failure(range, NonNumber))
        else if fuel == 0 then OutOfFuel
        else Eval(At(arr.value.table, i.value.value), gca, fuel - 1, less)
    case Binary(kind, lhs, rhs, range) =>
      var r := Eval(rhs, gca, fuel, less);
      if !r.Done? then r
      else
        var l := Eval(lhs, gca, fuel, less);
        if !l.Done? then l
        else if !l.value.Number? || !r.value.Number? then Thrown(Failure(range, NotNumber))
        else Done(Number(Apply(kind, l.value.value, r.value.value, less), None))
    case Unary(op, operand, range) =>
      var r := Eval(operand, gca, fuel, less);
      if !r.Done? then r
      else if !r.value.Number? then Thrown(Failure(range, NotNumber))
      else Done(Number(Num.Not(r.value.value), None))
    case _ => Done(o)
  }

  /** Index::get_gca_location: the path of an assignment's target from the gca. The index
      is evaluated first and must be a number; a subject that is an index contributes its
      own path, an array literal as subject makes the assignment go nowhere (none), and any
      other subject is an error. Each step records the index number's range, which the
      source dereferences: a number without one (a computed index) is undefined there. */
  function Location(subject: Option<Obj>, index: Obj, range: Option<Range>, gca: Table, fuel: nat, less: Less)
    : (r: Outcome<Option<seq<Step>>>)
    ensures r.Done? && r.value.Some? ==>
      var path := r.value.value;
      path != [] && Eval(index, gca, fuel, less) == Done(Number(path[|path| - 1].value, path[|path| - 1].range))
    ensures r.Done? && r.value.Some? ==> forall k | 0 <= k < |r.value.value| :: r.value.value[k].range.Some?
    ensures r.Thrown? ==> r.failure.text in EvalMessages
    decreases subject
  {
    var i := Eval(index, gca, fuel, less);
    if !i.Done? then Lift(i)
    else if !i.value.Number? then Thrown(Failure(range, NonNumber))
    else
      var step := Step(i.value.range, i.value.value);
      match subject
      case None => if i.value.range.None? then Undefined else Done(Some([step]))
      case Some(Index(s, si, sr)) =>
        var loc := Location(s, si, sr, gca, fuel, less);
        if !loc.Done? then loc
        else if loc.value.None? then Done(None)
        else if i.value.range.None? then Undefined
        else Done(Some(loc.value.value + [step]))
      case Some(Array(_, _)) => Done(None)
      case Some(_) => Thrown(Failure(range, NonArray))
  }

  // ---------------------------------------------------------------------------
  // Execution

  /** What execution reads and changes: the gca, the input not read yet (bytes) and the
      output written so far. */
  datatype State = State(gca: Table, input: seq<bv8>, output: seq<char>)

  const InputChar := Num.NameValue("std_input_char")
  const OutputChar := Num.NameValue("std_output_char")
  const DecomposeNumber := Num.NameValue("std_decompose_number")
  const DecomposeNumerator := Num.NameValue("std_decompose_numerator")
  const DecomposeDenominator := Num.NameValue("std_decompose_denominator")
  const Zero := Num.FromInt(0)

  /** insert with a one-index path into the gca: insert_or_assign at that name. */
  function SetGlobal(gca: Table, name: Num.Value, v: Obj): Table {
    gca.(elements := Put(gca.elements, Num.Index(name, gca.length), v))
  }

  /** std_input: read one byte (-1 at the end of the input) and store it as a number
      under std_input_char. */
  function ReadInput(st: State): State {
    var chr := if st.input == [] then -1 else st.input[0] as int;
    var rest := if st.input == [] then [] else st.input[1..];
    State(SetGlobal(st.gca, InputChar, Number(Num.FromInt(chr), None)), rest, st.output)
  }

  /** std_output: std_output_char must hold a number that is a whole multiple c of π with
      0 <= c <= CHAR_MAX; character c is written. */
  function WriteOutput(st: State): Outcome<State> {
    var o := At(st.gca, OutputChar);
    if !o.Number? then Thrown(Failure(None, OutputNotNumber))
    else if !Num.PiRatioDefined(o.value.num, o.value.den) then Undefined
    else match Num.DivPiOf(o.value)
      case None => Thrown(Failure(None, OutputNotPi))
      case Some(c) =>
        if c < 0 || c > Num.CharMax then Thrown(Failure(None, OutputNotAscii))
        else Done(st.(output := st.output + [c as char]))
  }

  /** The array std_decompose makes of a coefficient list: coefficient i as a number at
      index i, length the list's length; an empty list gives the one-element array [0]. */
  function Decomposition(coefficients: seq<int>): (t: Table)
    ensures t.length >= 1 && |t.elements| == t.length
  {
    var objs := if coefficients == [] then [Number(Zero, None)]
      else seq(|coefficients|, i requires 0 <= i < |coefficients| => Number(Num.FromInt(coefficients[i]), None));
    Table(|objs|, Slots(objs, |objs|))
  }

  /** std_decompose: the numerator and the denominator of std_decompose_number as arrays
      under std_decompose_numerator and std_decompose_denominator. When that element is not a
      number the source dereferences a null pointer. */
  function DecomposeValue(st: State): Outcome<State> {
    var o := At(st.gca, DecomposeNumber);
    if !o.Number? then Undefined
    else
      var withNumerator := SetGlobal(st.gca, DecomposeNumerator, Array(Decomposition(o.value.num), None));
      Done(st.(gca := SetGlobal(withNumerator, DecomposeDenominator, Array(Decomposition(o.value.den), None))))
  }

  /** Obj::execute. An array runs its loop; an assignment evaluates its right-hand side,
      then the target's path, and inserts the value there; a number does nothing; an index
      or an operator is evaluated and the value is executed. */
  function Exec(o: Obj, st: State, fuel: nat, less: Less): (r: Outcome<State>)
    ensures r.Thrown? ==> r.failure.text in Messages
    decreases fuel, 2
  {
    match o
    case Array(code, _) => Loop(code, st, fuel, less)
    case Assign(target, rhs, _) => AssignValue(target, rhs, st, fuel, less)
    case Number(_, _) => Done(st)
    case StdInput => Done(ReadInput(st))
    case StdOutput => WriteOutput(st)
    case StdDecompose => DecomposeValue(st)
    case _ => ExecValue(o, st, fuel, less)
  }

  /** Assign::execute: evaluate the right-hand side, then find the target's path; insert
      the value there when there is one. */
  function AssignValue(target: Target, rhs: Obj, st: State, fuel: nat, less: Less): (r: Outcome<State>)
    ensures r.Thrown? ==> r.failure.text in Messages
  {
    var v := Eval(rhs, st.gca, fuel, less);
    if !v.Done? then Lift(v)
    else
      var loc := Location(target.subject, target.index, target.range, st.gca, fuel, less);
      if !loc.Done? then Lift(loc)
      else if loc.value.None? then Done(st)
      else match Inserted(st.gca, loc.value.value, v.value)
        case Err(f) => Thrown(f)
        case Ok(gca) => Done(st.(gca := gca))
  }

  /** The execute of an index or an operator: evaluate, then execute the value. */
  function ExecValue(o: Obj, st: State, fuel: nat, less: Less): (r: Outcome<State>)
    ensures r.Thrown? ==> r.failure.text in Messages
    decreases fuel, 1
  {
    var v := Eval(o, st.gca, fuel, less);
    if !v.Done? then Lift(v)
    else if fuel == 0 then OutOfFuel
    else Exec(v.value, st, fuel - 1, less)
  }

  /** Array::execute: evaluate element 0; while it is not a number equal to zero, execute
      elements 1 .. length - 1 in order and evaluate element 0 again. Every round costs one
      unit of fuel. */
  function Loop(code: Table, st: State, fuel: nat, less: Less): (r: Outcome<State>)
    ensures r.Thrown? ==> r.failure.text in Messages
    decreases fuel, 1
  {
    var first := Eval(At(code, Zero), st.gca, fuel, less);
    if !first.Done? then Lift(first)
    else if first.value.Number? && Num.Equivalent(first.value.value, Zero) then Done(st)
    else if fuel == 0 then OutOfFuel
    else match Elements(code, 1, st, fuel - 1, less)
      case Done(next) => Loop(code, next, fuel - 1, less)
      case failed => failed
  }

  /** One round of the loop from element i on. */
  function Elements(code: Table, i: int, st: State, fuel: nat, less: Less): (r: Outcome<State>)
    ensures r.Thrown? ==> r.failure.text in Messages
    decreases fuel, 3, code.length - i
  {
    if i >= code.length then Done(st)
    else match Exec(At(code, Num.FromInt(i)), st, fuel, less)
      case Done(next) => Elements(code, i + 1, next, fuel, less)
      case failed => failed
  }

  // ---------------------------------------------------------------------------
  // Properties of evaluation and execution

  /** More fuel does not change an evaluation that did not run out. */
  lemma {:induction false} EvalFuel(o: Obj, gca: Table, fuel: nat, less: Less)
    requires Eval(o, gca, fuel, less) != OutOfFuel
    ensures Eval(o, gca, fuel + 1, less) == Eval(o, gca, fuel, less)
    decreases fuel, o, 1
  {
    hide Apply, At, Holds, Num.Not;
    match o
    case Index(subject, index, range) =>
      IndexFuel(subject, index, range, gca, fuel, less);
    case Binary(kind, lhs, rhs, range) =>
      EvalFuel(rhs, gca, fuel, less);
      if Eval(rhs, gca, fuel, less).Done? {
        EvalFuel(lhs, gca, fuel, less);
      }
      BinaryFuel(kind, lhs, rhs, range, gca, fuel, less);
    case Unary(op, operand, range) =>
      EvalFuel(operand, gca, fuel, less);
    case _ =>
  }

  /** The index case of EvalFuel. */
  lemma {:induction false} IndexFuel(subject: Option<Obj>, index: Obj, range: Option<Range>, gca: Table, fuel: nat, less: Less)
    requires Eval(Index(subject, index, range), gca, fuel, less) != OutOfFuel
    ensures Eval(Index(subject, index, range), gca, fuel + 1, less) == Eval(Index(subject, index, range), gca, fuel, less)
    decreases fuel, Index(subject, index, range), 0
  {
    hide Apply, At, Holds, Num.Not;
    var arr := if subject.Some? then Eval(subject.value, gca, fuel, less) else Done(Array(gca, None));
    if subject.Some? {
      EvalFuel(subject.value, gca, fuel, less);
    }
    if arr.Done? && arr.value.Array? {
      EvalFuel(index, gca, fuel, less);
      var i := Eval(index, gca, fuel, less);
      if i.Done? && i.value.Number? {
        var element := At(arr.value.table, i.value.value);
        assert fuel > 0 && Eval(element, gca, fuel - 1, less) != OutOfFuel;
        EvalFuel(element, gca, fuel - 1, less);
        IndexFound(subject, index, range, gca, fuel, less, arr.value.table, i.value.value);
      }
    }
  }

  /** An index whose subject and index evaluate to an array and a number reads the element. */
  lemma IndexFound(subject: Option<Obj>, index: Obj, range: Option<Range>, gca: Table, fuel: nat, less: Less, t: Table, i: Num.Value)
    requires var arr := if subject.Some? then Eval(subject.value, gca, fuel, less) else Done(Array(gca, None));
      arr.Done? && arr.value.Array? && arr.value.table == t
    requires var e := Eval(index, gca, fuel, less); e.Done? && e.value.Number? && e.value.value == i
    ensures Eval(Index(subject, index, range), gca, fuel, less) == if fuel == 0 then OutOfFuel else Eval(At(t, i), gca, fuel - 1, less)
  {
    hide Apply, At, Holds, Num.Not;
  }

  /** The operator case of EvalFuel: equal operands give equal results. */
  lemma BinaryFuel(kind: Ops.Binary, lhs: Obj, rhs: Obj, range: Option<Range>, gca: Table, fuel: nat, less: Less)
    requires Eval(rhs, gca, fuel + 1, less) == Eval(rhs, gca, fuel, less)
    requires Eval(rhs, gca, fuel, less).Done? ==> Eval(lhs, gca, fuel + 1, less) == Eval(lhs, gca, fuel, less)
    ensures Eval(Binary(kind, lhs, rhs, range), gca, fuel + 1, less) == Eval(Binary(kind, lhs, rhs, range), gca, fuel, less)
  {
    hide Apply, At, Holds, Num.Not;
  }


  /** The comparisons are all read off less_than: >= is the negation of <, > is < with the
      operands swapped, <= is >= with the operands swapped; != negates ==, and every value
      equals itself (ComparisonTruth turns each verdict into the value's truth). */
  lemma Comparisons(l: Num.Value, r: Num.Value, less: Less)
    ensures Verdict(Ops.GreaterOrEqual, l, r, less) == !Verdict(Ops.Smaller, l, r, less)
    ensures Verdict(Ops.Greater, l, r, less) == Verdict(Ops.Smaller, r, l, less)
    ensures Verdict(Ops.SmallerOrEqual, l, r, less) == Verdict(Ops.GreaterOrEqual, r, l, less)
    ensures Verdict(Ops.NotEqual, l, r, less) == !Verdict(Ops.Equal, l, r, less)
    ensures Verdict(Ops.Equal, l, l, less)
  {
    Num.EqualReflexive(l);
  }

  /** A comparison yields π when its verdict holds and 0 otherwise. */
  lemma ComparisonTruth(kind: Ops.Binary, l: Num.Value, r: Num.Value, less: Less)
    requires kind !in {Ops.Plus, Ops.Minus, Ops.Multiply, Ops.Divide, Ops.BoolAnd, Ops.BoolOr}
    ensures Num.ToBool(Apply(kind, l, r, less)) == Verdict(kind, l, r, less)
  {
    Num.FromBoolValue(Verdict(kind, l, r, less));
  }

  /** An assignment to the literal (k) followed by reading (k) gives back the assigned value:
      the one-index path is an insert_or_assign into the gca, and the lookup finds it. */
  lemma AssignThenRead(k: Num.Value, rhs: Obj, st: State, fuel: nat, less: Less,
                       kr: Range, tr: Option<Range>, ar: Option<Range>, kr': Option<Range>, ir: Option<Range>)
    requires fuel > 0 && Eval(rhs, st.gca, fuel, less).Done?
    ensures var v := Eval(rhs, st.gca, fuel, less).value;
      var r := Exec(Assign(Target(None, Number(k, Some(kr)), tr), rhs, ar), st, fuel, less);
      r.Done? && Eval(Index(None, Number(k, kr'), ir), r.value.gca, fuel, less) == Done(v)
  {
    var v := Eval(rhs, st.gca, fuel, less).value;
    var step := Step(Some(kr), k);
    assert Location(None, Number(k, Some(kr)), tr, st.gca, fuel, less) == Done(Some([step]));
    InsertTop(st.gca, step, v);
    var gca := SetGlobal(st.gca, k, v);
    assert Exec(Assign(Target(None, Number(k, Some(kr)), tr), rhs, ar), st, fuel, less) == Done(st.(gca := gca));
    PutFinds(st.gca.elements, Num.Index(k, st.gca.length), v);
    assert At(gca, k) == v;
  }

  /** std_input stores the next byte, or -1 at the end of the input, under
      std_input_char, and consumes it. */
  lemma InputStored(st: State)
    ensures var r := ReadInput(st);
      r.output == st.output
      && At(r.gca, InputChar) == Number(Num.FromInt(if st.input == [] then -1 else st.input[0] as int), None)
      && r.input == (if st.input == [] then [] else st.input[1..])
  {
    var chr := if st.input == [] then -1 else st.input[0] as int;
    PutFinds(st.gca.elements, Num.Index(InputChar, st.gca.length), Number(Num.FromInt(chr), None));
  }

  /** std_output writes character c when std_output_char holds the literal c with
      0 <= c <= CHAR_MAX, and fails on any other integer. */
  lemma OutputOfInt(st: State, c: int, range: Option<Range>)
    requires At(st.gca, OutputChar) == Number(Num.FromInt(c), range)
    ensures WriteOutput(st)
      == if 0 <= c <= Num.CharMax then Done(st.(output := st.output + [c as char]))
         else Thrown(Failure(None, OutputNotAscii))
  {
    Num.DivPiOfInt(c);
  }

  /** Where nothing was stored under std_output_char, the default element, the number 1 (that
      is, π), is found there, so std_output writes character 1. */
  lemma OutputUnset(st: State)
    requires Lookup(st.gca.elements, Num.Index(OutputChar, st.gca.length)).None?
    ensures WriteOutput(st) == Done(st.(output := st.output + [1 as char]))
  {
    Num.DivPiOfInt(1);
  }

  /** Coefficient i sits at index i of the decomposition; an empty list decomposes to the
      one-element array holding 0. */
  lemma DecompositionAt(coefficients: seq<int>, i: int)
    requires 0 <= i < |coefficients|
    ensures At(Decomposition(coefficients), Num.FromInt(i)) == Number(Num.FromInt(coefficients[i]), None)
  {
    var objs := seq(|coefficients|, k requires 0 <= k < |coefficients| => Number(Num.FromInt(coefficients[k]), None));
    SlotsFind(objs, |objs|, i);
  }

  lemma DecompositionEmpty()
    ensures Decomposition([]).length == 1
    ensures At(Decomposition([]), Zero) == Number(Zero, None)
  {
    SlotsFind([Number(Zero, None)], 1, 0);
  }

  /** No entry holds both keys, so storing under one cannot overwrite the other. */
  predicate Apart(elements: seq<Entry>, a: Num.Index, b: Num.Index) {
    forall j :: 0 <= j < |elements| ==> !(Holds(elements[j], a) && Holds(elements[j], b))
  }

  /** std_decompose stores the denominator array of std_decompose_number under
      std_decompose_denominator, and the numerator array under std_decompose_numerator
      unless an entry already in the gca holds both names; it goes wrong only when that
      element is not a number. */
  lemma DecomposeStored(st: State)
    ensures var o := At(st.gca, DecomposeNumber);
      var r := DecomposeValue(st);
      (r.Done? <==> o.Number?)
      && (r.Done? ==>
            r.value.input == st.input && r.value.output == st.output
            && At(r.value.gca, DecomposeDenominator) == Array(Decomposition(o.value.den), None))
      && (r.Done? && Apart(st.gca.elements, Num.Index(DecomposeNumerator, st.gca.length), Num.Index(DecomposeDenominator, st.gca.length)) ==>
            At(r.value.gca, DecomposeNumerator) == Array(Decomposition(o.value.num), None))
  {
    var o := At(st.gca, DecomposeNumber);
    if o.Number? {
      var numKey := Num.Index(DecomposeNumerator, st.gca.length);
      var denKey := Num.Index(DecomposeDenominator, st.gca.length);
      var numerator, denominator := Array(Decomposition(o.value.num), None), Array(Decomposition(o.value.den), None);
      var withNumerator := SetGlobal(st.gca, DecomposeNumerator, numerator);
      PutFinds(withNumerator.elements, denKey, denominator);
      if Apart(st.gca.elements, numKey, denKey) {
        NumeratorSurvives(st.gca.elements, numKey, denKey, numerator, denominator);
      }
    }
  }

  /** Two stores under keys that are different slots and that no entry holds together:
      the first key still finds its object after the second store. */
  lemma NumeratorSurvives(elements: seq<Entry>, numKey: Num.Index, denKey: Num.Index, numerator: Obj, denominator: Obj)
    requires numKey == Num.Index(DecomposeNumerator, numKey.length)
    requires denKey == Num.Index(DecomposeDenominator, numKey.length)
    requires Apart(elements, numKey, denKey)
    ensures Lookup(Put(Put(elements, numKey, numerator), denKey, denominator), numKey) == Some(numerator)
  {
    hide Num.SameSlot;
    var first := Put(elements, numKey, numerator);
    PutFinds(elements, numKey, numerator);
    var p := FindKey(first, numKey).value;
    if FindKey(first, denKey) == Some(p) {
      match FindKey(elements, numKey)
      case None =>
        assert first == elements + [Entry(numKey, numerator)];
        if p == |elements| {
          NamesApart(numKey.length);
        }
      case Some(_) =>
    }
    PutKeeps(first, denKey, numKey, denominator);
  }

  /** std_decompose_numerator and std_decompose_denominator are different slots of the gca. */
  lemma NamesApart(n: int)
    ensures !Num.SameSlot(Num.Index(DecomposeNumerator, n), Num.Index(DecomposeDenominator, n))
  {
    var a, b := "std_decompose_numerator", "std_decompose_denominator";
    assert |a| == 23 && |b| == 25;
    assert forall i :: 0 <= i < |a| ==> a[i] as int != 0;
    assert forall i :: 0 <= i < |b| ==> b[i] as int != 0;
    Num.NameSlotsDistinct(a, b, n);
  }

  /** An array literal whose element 0 is the literal 0 runs no round at all. */
  lemma ZeroLoopSkips(node: Ast.Node, zr: Range, st: State, fuel: nat, less: Less)
    requires Typed(node) && node.any.Array? && |node.any.elements| > 0
    requires node.any.elements[0] == Ast.Node(zr, Ast.Number(Zero))
    ensures FromAst(node).Array? && Loop(FromAst(node).table, st, fuel, less) == Done(st)
  {
    ArrayLiteralAt(node, 0);
    var first := At(FromAst(node).table, Zero);
    assert first == Number(Zero, Some(zr));
    assert Eval(first, st.gca, fuel, less) == Done(first);
    Num.EqualReflexive(Zero);
  }

  // ---------------------------------------------------------------------------
  // The runtime

  /** The gca Runtime's constructor starts from: as many slots as the program has
      elements, with std_input, std_output and std_decompose inserted by name. */
  function Builtins(n: int): Table {
    var t0 := Table(n, []);
    var t1 := SetGlobal(t0, Num.NameValue("std_input"), StdInput);
    var t2 := SetGlobal(t1, Num.NameValue("std_output"), StdOutput);
    SetGlobal(t2, Num.NameValue("std_decompose"), StdDecompose)
  }

  /** The range of the program array: from the start of its first element to the end of
      its last, or all zero when it has none. */
  function CodeRange(elements: seq<Ast.Node>): Range {
    if elements == [] then NoRange else Range(elements[0].range.start, elements[|elements| - 1].range.end)
  }

  /** The program array built from the parsed elements. */
  function Code(elements: seq<Ast.Node>): Table
    requires forall k :: 0 <= k < |elements| ==> Typed(elements[k])
  {
    var node := Ast.Node(CodeRange(elements), Ast.Array(elements));
    assert Typed(node);
    FromAst(node).table
  }

  /** A whole run: the program array's loop, on the initial gca, with the given input. */
  function RunProgram(elements: seq<Ast.Node>, input: seq<bv8>, fuel: nat, less: Less): Outcome<State>
    requires forall k :: 0 <= k < |elements| ==> Typed(elements[k])
  {
    Loop(Code(elements), State(Builtins(|elements|), input, []), fuel, less)
  }

  /** The gca starts with the length of the program and holds std_decompose by name. */
  lemma BuiltinsHold(n: int)
    ensures Builtins(n).length == n
    ensures At(Builtins(n), Num.NameValue("std_input")) == StdInput
    ensures At(Builtins(n), Num.NameValue("std_output")) == StdOutput
    ensures At(Builtins(n), Num.NameValue("std_decompose")) == StdDecompose
  {
    var kIn := Num.Index(Num.NameValue("std_input"), n);
    var kOut := Num.Index(Num.NameValue("std_output"), n);
    var kDec := Num.Index(Num.NameValue("std_decompose"), n);
    hide Num.SameSlot, Num.NameValue;
    BuiltinNamesApart(n);
    var t1 := Put([], kIn, StdInput);
    assert t1 == [Entry(kIn, StdInput)];
    var t2 := Put(t1, kOut, StdOutput);
    assert FindKey(t1, kOut).None?;
    assert t2 == [Entry(kIn, StdInput), Entry(kOut, StdOutput)];
    Num.SameSlotReflexive(kIn);
    Num.SameSlotReflexive(kOut);
    assert FindKey(t2, kIn) == Some(0);
    assert FindEntryFrom(t2, kOut, 1) == Some(1);
    assert FindKey(t2, kOut) == Some(1);
    assert FindKey(t2, kDec).None?;
    PutKeeps(t2, kDec, kIn, StdDecompose);
    PutKeeps(t2, kDec, kOut, StdDecompose);
    PutFinds(t2, kDec, StdDecompose);
  }

  /** std_input, std_output and std_decompose are three different slots of the gca. */
  lemma BuiltinNamesApart(n: int)
    ensures var kIn, kOut, kDec := Num.Index(Num.NameValue("std_input"), n),
      Num.Index(Num.NameValue("std_output"), n), Num.Index(Num.NameValue("std_decompose"), n);
      !Num.SameSlot(kIn, kOut) && !Num.SameSlot(kIn, kDec) && !Num.SameSlot(kOut, kDec)
      && !Num.SameSlot(kDec, kIn) && !Num.SameSlot(kDec, kOut)
  {
    var a, b, c := "std_input", "std_output", "std_decompose";
    assert |a| == 9 && |b| == 10 && |c| == 13;
    assert forall i :: 0 <= i < |a| ==> a[i] as int != 0;
    assert forall i :: 0 <= i < |b| ==> b[i] as int != 0;
    assert forall i :: 0 <= i < |c| ==> c[i] as int != 0;
    Num.NameSlotsDistinct(a, b, n);
    Num.NameSlotsDistinct(a, c, n);
    Num.NameSlotsDistinct(b, c, n);
    Num.NameSlotsDistinct(c, a, n);
    Num.NameSlotsDistinct(c, b, n);
  }

  /** std_decompose's insert lambda: a fresh array of max(size, 1) slots, filled index by
      index (with a single 0 for an empty list). */
  method FillArray(coefficients: seq<int>) returns (t: Table)
    ensures t == Decomposition(coefficients)
  {
    var n := if |coefficients| > 1 then |coefficients| else 1;
    t := Table(n, []);
    ghost var objs := if coefficients == [] then [Number(Zero, None)]
      else seq(|coefficients|, i requires 0 <= i < |coefficients| => Number(Num.FromInt(coefficients[i]), None));
    if coefficients == [] {
      SlotsExtend(objs, n, 0);
      assert objs[..0] == [] && objs[..1] == objs;
      t := t.(elements := Put(t.elements, Num.Index(Num.FromInt(0), n), Number(Num.FromInt(0), None)));
    } else {
      for i := 0 to |coefficients|
        invariant t == Table(n, Slots(objs[..i], n))
      {
        SlotsExtend(objs, n, i);
        t := t.(elements := Put(t.elements, Num.Index(Num.FromInt(i), n), Number(Num.FromInt(coefficients[i]), None)));
      }
      assert objs[..|coefficients|] == objs;
    }
  }

  /** Runtime: the gca and the streams it executes against, and the program array. */
  class Machine {
    var gca: Table
    var input: seq<bv8>
    var output: seq<char>
    const code: Table
    const less: Less

    function Snapshot(): State
      reads this
    {
      State(gca, input, output)
    }

    /** Runtime's constructor: the program array from the parsed elements, a gca of as many
        slots, and the three standard functions inserted by name. */
    constructor (elements: seq<Ast.Node>, input: seq<bv8>, less: Less)
      requires forall k :: 0 <= k < |elements| ==> Typed(elements[k])
      ensures code == Code(elements) && this.less == less
      ensures Snapshot() == State(Builtins(|elements|), input, [])
    {
      code := Code(elements);
      this.less := less;
      this.input := input;
      output := [];
      gca := Table(|elements|, []);
      new;
      var name := Num.FromName("std_input");
      InsertTop(gca, Step(Some(NoRange), name), StdInput);
      var failure := Insert([Step(Some(NoRange), name)], StdInput);
      name := Num.FromName("std_output");
      InsertTop(gca, Step(Some(NoRange), name), StdOutput);
      failure := Insert([Step(Some(NoRange), name)], StdOutput);
      name := Num.FromName("std_decompose");
      InsertTop(gca, Step(Some(NoRange), name), StdDecompose);
      failure := Insert([Step(Some(NoRange), name)], StdDecompose);
    }

    /** Array::insert on the gca: walk all but the last index through nested arrays, then
        insert_or_assign the last one. */
    method Insert(path: seq<Step>, v: Obj) returns (failure: Option<Failure>)
      requires path != []
      modifies this
      ensures failure.None? == Inserted(old(gca), path, v).Ok?
      ensures failure.None? ==> gca == Inserted(old(gca), path, v).value
      ensures failure.Some? ==> failure.value == Inserted(old(gca), path, v).error && gca == old(gca)
      ensures input == old(input) && output == old(output)
    {
      hide Holds;
      var walk := gca;
      var positions: seq<nat> := [];
      var k := 0;
      var n := |path| - 1;
      assert path[..0] == [];
      while k < n
        invariant 0 <= k <= n && unchanged(this)
        invariant Descend(gca, path[..k]) == Ok(positions)
        invariant Follows(gca, positions) && walk == Reached(gca, positions)
      {
        var e := FindKey(walk.elements, Num.Index(path[k].value, walk.length));
        if e.None? || !walk.elements[e.value].obj.Array? {
          DescendStops(gca, path, k, n, positions, walk, e);
          InsertedFails(gca, path, v, Failure(path[k].range, NonArray));
          return Some(Failure(path[k].range, NonArray));
        }
        var p := e.value;
        DescendMore(gca, path, k, positions, walk, p);
        positions := positions + [p];
        walk := walk.elements[p].obj.table;
        k := k + 1;
      }
      InsertedWalks(gca, path, v, positions);
      gca := Rebuild(gca, positions, Put(walk.elements, Num.Index(path[n].value, walk.length), v));
      failure := None;
    }

    /** Obj::execute, dispatched on the kind of object. */
    method Execute(o: Obj, fuel: nat) returns (r: Outcome<State>)
      modifies this
      ensures r == Exec(o, old(Snapshot()), fuel, less)
      ensures r.Done? ==> Snapshot() == r.value
      ensures old(output) <= output
      decreases fuel, 2
    {
      hide Eval, Loop, AssignValue, ReadInput, WriteOutput, DecomposeValue, Holds;
      match o {
        case Array(table, _) =>
          r := ExecuteArray(table, fuel);
        case Assign(target, rhs, _) =>
          r := ExecuteAssign(target, rhs, fuel);
        case Number(_, _) =>
          r := Done(Snapshot());
        case StdInput =>
          r := ExecuteInput();
        case StdOutput =>
          r := ExecuteOutput();
        case StdDecompose =>
          r := ExecuteDecompose();
        case _ =>
          var v := Eval(o, gca, fuel, less);
          if !v.Done? {
            r := Lift(v);
          } else if fuel == 0 {
            r := OutOfFuel;
          } else {
            r := Execute(v.value, fuel - 1);
          }
      }
    }

    /** Array::execute: evaluate element 0 and, while it is not zero, run a round of the
        other elements; every round costs one unit of fuel. */
    method ExecuteArray(table: Table, fuel: nat) returns (r: Outcome<State>)
      modifies this
      ensures r == Loop(table, old(Snapshot()), fuel, less)
      ensures r.Done? ==> Snapshot() == r.value
      ensures old(output) <= output
      decreases fuel, 1
    {
      hide Eval, Elements, Holds;
      var left: nat := fuel;
      while true
        invariant left <= fuel
        invariant Loop(table, old(Snapshot()), fuel, less) == Loop(table, Snapshot(), left, less)
        invariant old(output) <= output
        decreases left
      {
        var first := Eval(At(table, Zero), gca, left, less);
        if !first.Done? {
          return Lift(first);
        }
        if first.value.Number? && Num.Equivalent(first.value.value, Zero) {
          return Done(Snapshot());
        }
        if left == 0 {
          return OutOfFuel;
        }
        var round := ExecuteRound(table, left - 1);
        if !round.Done? {
          return round;
        }
        left := left - 1;
      }
    }

    /** One round of Array::execute: elements 1 .. length - 1 in order, stopping at the
        first that does not finish. */
    method ExecuteRound(table: Table, fuel: nat) returns (r: Outcome<State>)
      modifies this
      ensures r == Elements(table, 1, old(Snapshot()), fuel, less)
      ensures r.Done? ==> Snapshot() == r.value
      ensures old(output) <= output
      decreases fuel, 3
    {
      var i := 1;
      while i < table.length
        invariant Elements(table, 1, old(Snapshot()), fuel, less) == Elements(table, i, Snapshot(), fuel, less)
        invariant old(output) <= output
        decreases table.length - i
      {
        var step := Execute(At(table, Num.FromInt(i)), fuel);
        if !step.Done? {
          return step;
        }
        i := i + 1;
      }
      r := Done(Snapshot());
    }

    /** Assign::execute. */
    method ExecuteAssign(target: Target, rhs: Obj, fuel: nat) returns (r: Outcome<State>)
      modifies this
      ensures r == AssignValue(target, rhs, old(Snapshot()), fuel, less)
      ensures r.Done? ==> Snapshot() == r.value
      ensures !r.Done? ==> Snapshot() == old(Snapshot())
      ensures output == old(output)
    {
      var v := Eval(rhs, gca, fuel, less);
      if !v.Done? {
        return Lift(v);
      }
      var loc := Location(target.subject, target.index, target.range, gca, fuel, less);
      if !loc.Done? {
        return Lift(loc);
      }
      if loc.value.None? {
        return Done(Snapshot());
      }
      var failure := Insert(loc.value.value, v.value);
      if failure.Some? {
        return Thrown(failure.value);
      }
      r := Done(Snapshot());
    }

    /** StdInput::execute. */
    method ExecuteInput() returns (r: Outcome<State>)
      modifies this
      ensures r == Done(ReadInput(old(Snapshot()))) && Snapshot() == r.value
      ensures output == old(output)
    {
      var chr := -1;
      if input != [] {
        chr := input[0] as int;
        input := input[1..];
      }
      var name := Num.FromName("std_input_char");
      InsertTop(gca, Step(Some(NoRange), name), Number(Num.FromInt(chr), None));
      var failure := Insert([Step(Some(NoRange), name)], Number(Num.FromInt(chr), None));
      r := Done(Snapshot());
    }

    /** StdOutput::execute. */
    method ExecuteOutput() returns (r: Outcome<State>)
      modifies this
      ensures r == WriteOutput(old(Snapshot()))
      ensures r.Done? ==> Snapshot() == r.value
      ensures !r.Done? ==> Snapshot() == old(Snapshot())
      ensures old(output) <= output
    {
      var name := Num.FromName("std_output_char");
      var o := At(gca, name);
      if !o.Number? {
        return Thrown(Failure(None, OutputNotNumber));
      }
      if !Num.PiRatioDefined(o.value.num, o.value.den) {
        return Undefined;
      }
      var c := Num.DivPi(o.value);
      if c.None? {
        return Thrown(Failure(None, OutputNotPi));
      }
      if c.value < 0 || c.value > Num.CharMax {
        return Thrown(Failure(None, OutputNotAscii));
      }
      output := output + [c.value as char];
      r := Done(Snapshot());
    }

    /** StdDecompose::execute. */
    method ExecuteDecompose() returns (r: Outcome<State>)
      modifies this
      ensures r == DecomposeValue(old(Snapshot()))
      ensures r.Done? ==> Snapshot() == r.value
      ensures !r.Done? ==> Snapshot() == old(Snapshot())
      ensures output == old(output)
    {
      var name := Num.FromName("std_decompose_number");
      var o := At(gca, name);
      if !o.Number? {
        return Undefined;
      }
      var numerator := FillArray(o.value.num);
      name := Num.FromName("std_decompose_numerator");
      InsertTop(gca, Step(Some(NoRange), name), Array(numerator, None));
      var failure := Insert([Step(Some(NoRange), name)], Array(numerator, None));
      var denominator := FillArray(o.value.den);
      name := Num.FromName("std_decompose_denominator");
      InsertTop(gca, Step(Some(NoRange), name), Array(denominator, None));
      failure := Insert([Step(Some(NoRange), name)], Array(denominator, None));
      r := Done(Snapshot());
    }

    /** Runtime::run: execute the program array; a runtime error ends the run and its
        message and a newline go to the error stream. */
    method Run(fuel: nat) returns (r: Outcome<State>, err: string)
      modifies this
      ensures r == Loop(code, old(Snapshot()), fuel, less)
      ensures r.Done? ==> Snapshot() == r.value
      ensures old(output) <= output
      ensures err == if r.Thrown? then Message(r.failure) + "\n" else ""
    {
      r := ExecuteArray(code, fuel);
      err := if r.Thrown? then Message(r.failure) + "\n" else "";
    }
  }
}
