/** Exact numbers of circle-lang (lib/number.cpp, lib/number.hpp): a numerator and a
    denominator polynomial in π, built from integer literals and names, combined by the
    arithmetic, boolean and comparison operators, and read back as π-multiples, letters or
    text. A Value denotes the function t ↦ num(t) / den(t); statements about it are made
    by cross-multiplication at every positive point t, standing in for π. */
module Number {
  import opened Wrappers
  import opened Arith
  import opened Coefficients
  import opened Rotation
  import Decimal

  /** The weight of one letter position in a name's encoding. */
  const LetterBase: int := 256
  /** CHAR_MAX of the source's (signed) char. */
  const CharMax: int := 127

  /** Characters a name may contain: ASCII letters, digits and underscore. */
  predicate IsInCharSet(c: char) {
    ('a' <= c <= 'z') || ('A' <= c <= 'Z') || ('0' <= c <= '9') || c == '_'
  }

  datatype Value = Value(num: Coeffs, den: Coeffs)

  /** The shape every constructed value keeps (lib/number.hpp:36): neither list ends in a
      zero coefficient, and the two lists do not both start with one. */
  predicate Normal(v: Value) {
    NoTrailingZero(v.num) && NoTrailingZero(v.den)
    && (v.num == [] || v.den == [] || v.num[0] != 0 || v.den[0] != 0)
  }

  // ---------------------------------------------------------------------------
  // Constructors

  /** Value(num, den): the pair as simplify leaves it. */
  function MakeValue(num: Coeffs, den: Coeffs): Value {
    var r := Simplified(num, den);
    Value(r.0, r.1)
  }

  /** MakeValue keeps the quotient and leaves a normal value. */
  lemma MakeValueMeaning(num: Coeffs, den: Coeffs, t: int)
    ensures var v := MakeValue(num, den);
      Normal(v) && Eval(num, t) * Eval(v.den, t) == Eval(v.num, t) * Eval(den, t)
  {
    SimplifiedShape(num, den);
    SimplifiedQuotient(num, den, t);
  }

  /** Value(BigInt): the literal n denotes n·π; zero has an empty numerator. */
  function FromInt(n: int): (v: Value)
    ensures Normal(v)
  {
    Value(if n == 0 then [] else [0, n], [1])
  }

  lemma FromIntMeaning(n: int, t: int)
    ensures Eval(FromInt(n).num, t) == n * t && Eval(FromInt(n).den, t) == 1
  {
    if n != 0 {
      var p: Coeffs := [0, n];
      assert p[1..] == [n] && [n][1..] == [];
      assert Eval([n], t) == n + t * Eval([], t);
      assert Eval(p, t) == 0 + t * Eval([n], t);
    }
  }

  /** Coefficient i of a name's numerator: 256^i times the code of its i-th letter. */
  function NameNumerator(w: string): (r: Coeffs)
    ensures |r| == |w|
  {
    seq(|w|, i requires 0 <= i < |w| => Pow(LetterBase, i) * (w[i] as int))
  }

  /** Value(string_view): the numerator encodes the least rotation of the name. */
  function NameValue(letters: string): Value {
    Value(NameNumerator(LeastRotation(letters)), [1])
  }

  /** The name constructor: find the least rotation, then push 256^i times each of its
      letters. */
  method FromName(letters: string) returns (v: Value)
    ensures v == NameValue(letters)
  {
    var minLetters := LexicographicallyMinimalRotation(letters);
    ghost var least := minLetters.Contents();
    assert least == LeastRotation(letters);
    var num: Coeffs := [];
    var base := 1;
    for i := 0 to |letters|
      invariant base == Pow(LetterBase, i)
      invariant num == NameNumerator(least[..i])
    {
      num := num + [base * (minLetters.At(i) as int)];
      base := base * LetterBase;
    }
    assert least[..|letters|] == least;
    v := Value(num, [1]);
  }

  /** Names that are rotations of each other encode to the same value. */
  lemma NameRotation(letters: string, x: nat)
    ensures NameValue(Rotate(letters, x)) == NameValue(letters)
  {
    LeastRotationOfRotation(letters, x);
  }

  lemma PowPositive(t: int, k: nat)
    requires t > 0
    ensures Pow(t, k) > 0
  {
    if k > 0 {
      PowPositive(t, k - 1);
      MulAtLeast(t, Pow(t, k - 1));
    }
  }

  /** A name of non-NUL characters encodes to a normal value. */
  lemma NameNormal(letters: string)
    requires forall i :: 0 <= i < |letters| ==> letters[i] as int != 0
    ensures Normal(NameValue(letters))
  {
    var w := LeastRotation(letters);
    if |w| > 0 {
      var n := |letters|;
      var m := (|w| - 1 + BruteForceLeastRotation(letters)) % n;
      assert w[|w| - 1] == letters[m];
      PowPositive(LetterBase, |w| - 1);
      NonZeroFactors(Pow(LetterBase, |w| - 1), w[|w| - 1] as int);
    }
  }

  // ---------------------------------------------------------------------------
  // Arithmetic: cross-multiply, combine, simplify.

  function Add(lhs: Value, rhs: Value): Value {
    MakeValue(Combine(Convolution(lhs.num, rhs.den), Convolution(rhs.num, lhs.den), true),
              Convolution(rhs.den, lhs.den))
  }

  function Sub(lhs: Value, rhs: Value): Value {
    MakeValue(Combine(Convolution(lhs.num, rhs.den), Convolution(rhs.num, lhs.den), false),
              Convolution(rhs.den, lhs.den))
  }

  function Mul(lhs: Value, rhs: Value): Value {
    MakeValue(Convolution(lhs.num, rhs.num), Convolution(lhs.den, rhs.den))
  }

  function Div(lhs: Value, rhs: Value): Value {
    MakeValue(Convolution(lhs.num, rhs.den), Convolution(lhs.den, rhs.num))
  }

  /** At the point t, v is the fraction x / y, cross-multiplied: x·den(t) == num(t)·y. */
  predicate Denotes(v: Value, x: int, y: int, t: int) {
    x * Eval(v.den, t) == Eval(v.num, t) * y
  }

  /** operator+ denotes a/b + c/d: its value v satisfies v·(d·b) == (a·d + c·b) at
      every point, and it is normal. */
  lemma AddMeaning(lhs: Value, rhs: Value, t: int)
    ensures Normal(Add(lhs, rhs))
    ensures var a, b, c, d := Eval(lhs.num, t), Eval(lhs.den, t), Eval(rhs.num, t), Eval(rhs.den, t);
      Denotes(Add(lhs, rhs), a * d + c * b, d * b, t)
  {
    var num := Combine(Convolution(lhs.num, rhs.den), Convolution(rhs.num, lhs.den), true);
    var den := Convolution(rhs.den, lhs.den);
    MakeValueMeaning(num, den, t);
    CrossTerms(lhs, rhs, true, t);
    var a, b, c, d := Eval(lhs.num, t), Eval(lhs.den, t), Eval(rhs.num, t), Eval(rhs.den, t);
    DenotesEqual(MakeValue(num, den), Eval(num, t), a * d + c * b, Eval(den, t), d * b, t);
  }


  /** operator- denotes a/b - c/d. */
  lemma SubMeaning(lhs: Value, rhs: Value, t: int)
    ensures Normal(Sub(lhs, rhs))
    ensures var a, b, c, d := Eval(lhs.num, t), Eval(lhs.den, t), Eval(rhs.num, t), Eval(rhs.den, t);
      Denotes(Sub(lhs, rhs), a * d - c * b, d * b, t)
  {
    var num := Combine(Convolution(lhs.num, rhs.den), Convolution(rhs.num, lhs.den), false);
    var den := Convolution(rhs.den, lhs.den);
    MakeValueMeaning(num, den, t);
    CrossTerms(lhs, rhs, false, t);
    var a, b, c, d := Eval(lhs.num, t), Eval(lhs.den, t), Eval(rhs.num, t), Eval(rhs.den, t);
    DenotesEqual(MakeValue(num, den), Eval(num, t), a * d - c * b, Eval(den, t), d * b, t);
  }



  /** The cross-multiplied numerator and the denominator of a sum or difference, at t. */
  lemma CrossTerms(lhs: Value, rhs: Value, positive: bool, t: int)
    ensures var a, b, c, d := Eval(lhs.num, t), Eval(lhs.den, t), Eval(rhs.num, t), Eval(rhs.den, t);
      Eval(Combine(Convolution(lhs.num, rhs.den), Convolution(rhs.num, lhs.den), positive), t)
        == (if positive then a * d + c * b else a * d - c * b)
      && Eval(Convolution(rhs.den, lhs.den), t) == d * b
  {
    EvalCombine(Convolution(lhs.num, rhs.den), Convolution(rhs.num, lhs.den), positive, t);
    EvalConvolution(lhs.num, rhs.den, t);
    EvalConvolution(rhs.num, lhs.den, t);
    EvalConvolution(rhs.den, lhs.den, t);
  }

  lemma DenotesEqual(v: Value, x: int, x': int, y: int, y': int, t: int)
    requires Denotes(v, x, y, t) && x == x' && y == y'
    ensures Denotes(v, x', y', t)
  {
  }

  /** operator* denotes (a/b)·(c/d). */
  lemma MulMeaning(lhs: Value, rhs: Value, t: int)
    ensures Normal(Mul(lhs, rhs))
    ensures var a, b, c, d := Eval(lhs.num, t), Eval(lhs.den, t), Eval(rhs.num, t), Eval(rhs.den, t);
      Denotes(Mul(lhs, rhs), a * c, b * d, t)
  {
    MakeValueMeaning(Convolution(lhs.num, rhs.num), Convolution(lhs.den, rhs.den), t);
    EvalConvolution(lhs.num, rhs.num, t);
    EvalConvolution(lhs.den, rhs.den, t);
  }

  /** operator/ denotes (a/b)/(c/d). */
  lemma DivMeaning(lhs: Value, rhs: Value, t: int)
    ensures Normal(Div(lhs, rhs))
    ensures var a, b, c, d := Eval(lhs.num, t), Eval(lhs.den, t), Eval(rhs.num, t), Eval(rhs.den, t);
      Denotes(Div(lhs, rhs), a * d, b * c, t)
  {
    MakeValueMeaning(Convolution(lhs.num, rhs.den), Convolution(lhs.den, rhs.num), t);
    EvalConvolution(lhs.num, rhs.den, t);
    EvalConvolution(lhs.den, rhs.num, t);
  }

  // ---------------------------------------------------------------------------
  // Booleans: a value is true iff its numerator is non-empty.

  predicate ToBool(v: Value) {
    |v.num| > 0
  }

  function FromBool(b: bool): Value {
    MakeValue(if b then [0, 1] else [], [1])
  }

  /** from_bool gives π for true and 0 for false, and to_bool reads the flag back. */
  lemma FromBoolValue(b: bool)
    ensures FromBool(b) == if b then Value([0, 1], [1]) else Value([], [1])
    ensures ToBool(FromBool(b)) == b
  {
    var num: Coeffs := if b then [0, 1] else [];
    var den: Coeffs := [1];
    assert TrimmedLength(den) == 1;
    assert den[..1] == den;
    assert LeadingZeros(den) == 0;
    if b {
      assert TrimmedLength(num) == 2;
      assert num[..2] == num;
      assert LeadingZeros(num[1..]) == 0;
      assert SimplifyShift(num, den) == 0;
      assert num[0..2] + den[0..1] == [0, 1, 1];
      assert [0, 1, 1][..2] == [0, 1] && [0, 1][..1] == [0] && [0][..0] == [];
      assert GcdSeq([0]) == Gcd(0, 0) == 0;
      assert GcdSeq([0, 1]) == Gcd(0, 1) == 1;
      assert GcdSeq([0, 1, 1]) == Gcd(1, 1) == 1;
      assert SimplifyDivisor(num, den) == 1;
    } else {
      assert TrimmedLength(num) == 0;
    }
  }

  function And(lhs: Value, rhs: Value): (r: Value)
    ensures ToBool(r) == (ToBool(lhs) && ToBool(rhs))
  {
    FromBoolValue(ToBool(lhs) && ToBool(rhs));
    FromBool(ToBool(lhs) && ToBool(rhs))
  }

  function Or(lhs: Value, rhs: Value): (r: Value)
    ensures ToBool(r) == (ToBool(lhs) || ToBool(rhs))
  {
    FromBoolValue(ToBool(lhs) || ToBool(rhs));
    FromBool(ToBool(lhs) || ToBool(rhs))
  }

  function Not(v: Value): (r: Value)
    ensures ToBool(r) == !ToBool(v)
  {
    FromBoolValue(!ToBool(v));
    FromBool(!ToBool(v))
  }

  // ---------------------------------------------------------------------------
  // equal: the cross-multiplied numerators compared coefficient by coefficient.

  /** equal's verdict: lhs.num·rhs.den and rhs.num·lhs.den agree at every index from 1 to
      their larger length. Index 0, the constant coefficient, is not compared. */
  predicate Equivalent(lhs: Value, rhs: Value) {
    var ln, rn := Convolution(lhs.num, rhs.den), Convolution(rhs.num, lhs.den);
    forall i :: 1 <= i <= Max(|ln|, |rn|) ==> Get(ln, i) == Get(rn, i)
  }

  /** equal: cross-multiply, then walk i = 1 .. degree and stop at the first difference. */
  method Equal(lhs: Value, rhs: Value) returns (b: bool)
    ensures b == Equivalent(lhs, rhs)
  {
    var ln := Multiply(lhs.num, rhs.den);
    var rn := Multiply(rhs.num, lhs.den);
    var degree := Max(|ln|, |rn|);
    for i := 1 to degree + 1
      invariant forall j :: 1 <= j < i ==> Get(ln, j) == Get(rn, j)
    {
      var l := 0;
      if i < |ln| {
        l := ln[i];
      }
      var r := 0;
      if i < |rn| {
        r := rn[i];
      }
      if r != l {
        assert Get(ln, i) != Get(rn, i);
        return false;
      }
    }
    return true;
  }

  lemma EqualReflexive(v: Value)
    ensures Equivalent(v, v)
  {
  }

  lemma EqualSymmetric(lhs: Value, rhs: Value)
    ensures Equivalent(lhs, rhs) == Equivalent(rhs, lhs)
  {
  }

  /** When equal holds, a·d − c·b is the same at every point: the cross-multiplied
      numerators differ at most in their constant coefficient. */
  lemma EqualSound(lhs: Value, rhs: Value, t: int)
    requires Equivalent(lhs, rhs)
    ensures var ln, rn := Convolution(lhs.num, rhs.den), Convolution(rhs.num, lhs.den);
      Eval(ln, t) - Eval(rn, t) == Get(ln, 0) - Get(rn, 0)
  {
    var ln, rn := Convolution(lhs.num, rhs.den), Convolution(rhs.num, lhs.den);
    var x := Combine(ln, rn, false);
    EvalCombine(ln, rn, false, t);
    EvalHead(x, t);
    assert IsZero(Tail(x)) by {
      forall i | 0 <= i < |Tail(x)| ensures Tail(x)[i] == 0 {
        assert Tail(x)[i] == x[i + 1];
      }
    }
    EvalIsZero(Tail(x), t);
  }

  /** Values whose cross-multiplied numerators are the same polynomial are equal. */
  lemma EqualComplete(lhs: Value, rhs: Value)
    requires SamePoly(Convolution(lhs.num, rhs.den), Convolution(rhs.num, lhs.den))
    ensures Equivalent(lhs, rhs)
  {
    SamePolyCoefficients(Convolution(lhs.num, rhs.den), Convolution(rhs.num, lhs.den));
  }

  lemma GcdOne(x: int)
    ensures Gcd(x, 1) == 1
  {
    GcdDivides(x, 1);
  }

  /** An integer literal divided by π: n/π is the constant list [n] over [1]. */
  lemma DivByPi(n: int)
    requires n != 0
    ensures Div(FromInt(n), FromInt(1)) == Value([n], [1])
  {
    var num: Coeffs, den: Coeffs := [0, n], [0, 1];
    assert Rows(num, [1], 1) == [0, 0];
    assert Rows(num, [1], 2) == num;
    assert Rows([1], den, 1) == den;
    assert Convolution(num, [1]) == num && Convolution([1], den) == den;
    assert TrimmedLength(num) == 2 && TrimmedLength(den) == 2;
    assert num[..2] == num && den[..2] == den;
    assert LeadingZeros(num[1..]) == 0 && LeadingZeros(den[1..]) == 0;
    assert SimplifyShift(num, den) == 1;
    assert num[1..2] + den[1..2] == [n, 1];
    assert [n, 1][..1] == [n] && [n][..0] == [];
    assert GcdSeq([n]) == Gcd(0, n);
    GcdOne(Gcd(0, n));
    assert GcdSeq([n, 1]) == 1;
    assert SimplifyDivisor(num, den) == 1;
  }

  /** Index 0 is not compared, so 5/π == 3/π holds although the two quotients differ. */
  lemma EqualIgnoresConstantTerm()
    ensures var five, three := Div(FromInt(5), FromInt(1)), Div(FromInt(3), FromInt(1));
      Equivalent(five, three)
      && forall t :: Eval(five.num, t) * Eval(three.den, t) != Eval(three.num, t) * Eval(five.den, t)
  {
    DivByPi(5);
    DivByPi(3);
    ConstantsEquivalent(5, 3);
    ConstantEval(5);
    ConstantEval(3);
    ConstantEval(1);
  }

  /** Any two constants over [1] pass equal. */
  lemma ConstantsEquivalent(a: int, b: int)
    ensures Equivalent(Value([a], [1]), Value([b], [1]))
  {
    assert Rows([a], [1], 1) == [a] && Rows([b], [1], 1) == [b];
  }

  lemma ConstantEval(a: int)
    ensures forall t :: Eval([a], t) == a
  {
    assert [a][1..] == [];
  }

  /** A simplified denominator of a non-zero denominator is non-zero. */
  lemma SimplifiedNonZero(num: Coeffs, den: Coeffs)
    requires !IsZero(den)
    ensures !IsZero(Simplified(num, den).1)
  {
    SimplifiedFactor(num, den);
    KeptNonZero(den);
    FactorNonZero(den[..TrimmedLength(den)], SimplifyShift(num, den), SimplifyDivisor(num, den),
                  Simplified(num, den).1);
  }

  lemma KeptNonZero(p: Coeffs)
    requires !IsZero(p)
    ensures !IsZero(p[..TrimmedLength(p)])
  {
    TrimmedNonZero(p);
    assert p[..TrimmedLength(p)][TrimmedLength(p) - 1] != 0;
  }

  lemma FactorNonZero(p: Coeffs, lz: nat, g: int, q: Coeffs)
    requires p == Zeros(lz) + Scale(g, q) && !IsZero(p)
    ensures !IsZero(q)
  {
    var i :| 0 <= i < |p| && p[i] != 0;
    assert i >= lz && p[i] == g * q[i - lz];
  }

  lemma CancelChain(a: int, b: int, fn: int, fd: int, mn: int, md: int, n: int, d: int)
    requires (a * fn) * md == mn * (b * fd)
    requires (mn * fd) * d == n * (md * fn)
    ensures (a * d) * ((fn * md) * fd) == (n * b) * ((fn * md) * fd)
  {
    var l1, r1 := (a * fn) * md, mn * (b * fd);
    var l2, r2 := (mn * fd) * d, n * (md * fn);
    assert l1 * (d * fd) == r1 * (d * fd);
    assert l2 * (b * fd) == r2 * (b * fd);
    assert (a * d) * ((fn * md) * fd) == l1 * (d * fd);
    assert (n * b) * ((fn * md) * fd) == r2 * (b * fd);
    assert r1 * (d * fd) == l2 * (b * fd);
  }

  /** num == num·f/f: multiplying by a non-zero value and dividing by it again is equal
      to the original. */
  lemma MulDivCancel(n: Value, f: Value)
    requires !IsZero(n.den) && !IsZero(f.num) && !IsZero(f.den)
    ensures Equivalent(n, Div(Mul(n, f), f))
  {
    var m0 := Mul(n, f);
    var m := Div(m0, f);
    ProductNonZero(n.den, f.den);
    SimplifiedNonZero(Convolution(n.num, f.num), Convolution(n.den, f.den));
    ProductNonZero(f.num, m0.den);
    var k := Convolution(Convolution(f.num, m0.den), f.den);
    ProductNonZero(Convolution(f.num, m0.den), f.den);
    var p, q := Convolution(n.num, m.den), Convolution(m.num, n.den);
    forall t: int | t > 0
      ensures Eval(p, t) * Eval(k, t) == Eval(q, t) * Eval(k, t)
    {
      MulMeaning(n, f, t);
      DivMeaning(m0, f, t);
      EvalConvolution(n.num, m.den, t);
      EvalConvolution(m.num, n.den, t);
      EvalConvolution(f.num, m0.den, t);
      EvalConvolution(Convolution(f.num, m0.den), f.den, t);
      CancelChain(Eval(n.num, t), Eval(n.den, t), Eval(f.num, t), Eval(f.den, t),
                  Eval(m0.num, t), Eval(m0.den, t), Eval(m.num, t), Eval(m.den, t));
    }
    Cancel(p, q, k);
    EqualComplete(n, m);
  }

  // ---------------------------------------------------------------------------
  // get_ratio and div_pi

  /** get_ratio: the exact quotient x / y; none when y is zero or does not divide x. For an
      exact division the source's truncating BigInt operators agree with Dafny's. */
  function GetRatio(x: int, y: int): Option<int> {
    if y == 0 || x % y != 0 then None else Some(x / y)
  }

  /** get_ratio yields k exactly when y is non-zero and x == k·y. */
  lemma GetRatioMeaning(x: int, y: int, k: int)
    ensures GetRatio(x, y) == Some(k) <==> y != 0 && x == k * y
  {
    if y != 0 {
      if x == k * y {
        DivExactSigned(k, y);
      }
      if x % y == 0 {
        DivisibleFactor(x, y);
      }
    }
  }

  /** p is π·k·d read coefficient-wise: p = [0] ++ k·d, where get_ratio also needs every
      coefficient of d to be non-zero. */
  predicate IsPiMultiple(p: Coeffs, d: Coeffs, k: int) {
    |p| == |d| + 1 && p[0] == 0 && forall i :: 0 <= i < |d| ==> d[i] != 0 && p[i + 1] == k * d[i]
  }

  /** The one input on which the π-ratio reads the last coefficient of an empty d:
      p = [0] passes both early exits, and `den.back()` is then undefined. */
  predicate PiRatioDefined(p: Coeffs, d: Coeffs) {
    !(p == [0] && d == [])
  }

  /** The ratio div_pi and Index::operator== read off p over d: the ratio of the last
      coefficients, which every other ratio p[i + 1] / d[i] must repeat. */
  function PiRatio(p: Coeffs, d: Coeffs): Option<int>
    requires PiRatioDefined(p, d)
  {
    if |p| == 0 || p[0] != 0 || |p| != |d| + 1 then None
    else
      var ratio := GetRatio(p[|p| - 1], d[|d| - 1]);
      if ratio.Some? && forall i :: 0 <= i < |d| ==> GetRatio(p[i + 1], d[i]) == ratio then ratio
      else None
  }

  lemma PiRatioMeaning(p: Coeffs, d: Coeffs, k: int)
    requires PiRatioDefined(p, d)
    ensures PiRatio(p, d) == Some(k) <==> IsPiMultiple(p, d, k)
  {
    if |p| > 0 && p[0] == 0 && |p| == |d| + 1 {
      GetRatioMeaning(p[|p| - 1], d[|d| - 1], k);
      forall i | 0 <= i < |d| {
        GetRatioMeaning(p[i + 1], d[i], k);
      }
      if IsPiMultiple(p, d, k) {
        assert GetRatio(p[|p| - 1], d[|d| - 1]) == Some(k);
      }
    }
  }

  /** A π-multiple denotes k·t·d(t) at every point t. */
  lemma PiMultipleEval(p: Coeffs, d: Coeffs, k: int, t: int)
    requires IsPiMultiple(p, d, k)
    ensures Eval(p, t) == t * (k * Eval(d, t))
  {
    assert p[1..] == Scale(k, d);
    EvalScale(k, d, t);
  }

  /** div_pi as a function of the value: 0 for an empty numerator, else the π-ratio of
      numerator over denominator. */
  function DivPiOf(v: Value): Option<int>
    requires PiRatioDefined(v.num, v.den)
  {
    if |v.num| == 0 then Some(0) else PiRatio(v.num, v.den)
  }

  /** div_pi: the early exits of the source in order, then the walk over the denominator. */
  method DivPi(v: Value) returns (r: Option<int>)
    requires PiRatioDefined(v.num, v.den)
    ensures r == DivPiOf(v)
  {
    var num, den := v.num, v.den;
    if |num| == 0 {
      return Some(0);
    }
    if num[0] != 0 || |num| != |den| + 1 {
      return None;
    }
    var ratio := GetRatio(num[|num| - 1], den[|den| - 1]);
    if ratio.None? {
      return None;
    }
    for i := 0 to |den|
      invariant forall j :: 0 <= j < i ==> GetRatio(num[j + 1], den[j]) == ratio
    {
      if ratio != GetRatio(num[i + 1], den[i]) {
        return None;
      }
    }
    return ratio;
  }

  /** div_pi yields k exactly for the zero value (k = 0) and for π-multiples; then the
      value is k·π at every point. */
  lemma DivPiMeaning(v: Value, k: int, t: int)
    requires PiRatioDefined(v.num, v.den)
    ensures DivPiOf(v) == Some(k) <==> (|v.num| == 0 && k == 0) || (|v.num| > 0 && IsPiMultiple(v.num, v.den, k))
    ensures DivPiOf(v) == Some(k) ==> Eval(v.num, t) == t * (k * Eval(v.den, t))
  {
    if |v.num| > 0 {
      PiRatioMeaning(v.num, v.den, k);
      if IsPiMultiple(v.num, v.den, k) {
        PiMultipleEval(v.num, v.den, k, t);
      }
    }
  }

  /** div_pi undoes the integer literal: Value(n) divided by π is n. */
  lemma DivPiOfInt(n: int)
    ensures DivPiOf(FromInt(n)) == Some(n)
  {
    if n != 0 {
      PiRatioMeaning([0, n], [1], n);
    }
  }

  /** A zero coefficient in the denominator defeats div_pi: (2π + 2π³)/(1 + π²) is 2π, yet
      get_ratio(0, 0) is none. */
  lemma DivPiZeroCoefficient()
    ensures DivPiOf(Value([0, 2, 0, 2], [1, 0, 1])) == None
    ensures forall t :: Eval([0, 2, 0, 2], t) == t * (2 * Eval([1, 0, 1], t))
  {
    var p, d: Coeffs := [0, 2, 0, 2], [1, 0, 1];
    assert GetRatio(p[2], d[1]) == None;
    forall t ensures Eval(p, t) == t * (2 * Eval(d, t)) {
      assert p[1..] == Scale(2, d);
      EvalScale(2, d, t);
    }
  }

  // ---------------------------------------------------------------------------
  // to_letters: read a name back from its numerator.

  /** Coefficient i spells a letter: a multiple of 256^i whose quotient lies in
      1..CHAR_MAX. */
  predicate IsLetterCoefficient(n: int, i: nat) {
    var base := Pow(LetterBase, i);
    base != 0 && n % base == 0 && 0 < n / base <= CharMax
  }

  /** The letter coefficient i spells, NUL where it spells none. */
  function LetterAt(num: Coeffs, i: nat): char
    requires i < |num|
  {
    if IsLetterCoefficient(num[i], i) then (num[i] / Pow(LetterBase, i)) as char else '\0'
  }

  /** to_letters as a function of the numerator: none for an empty numerator or when some
      coefficient spells no letter. */
  function LettersOf(num: Coeffs): Option<string> {
    if |num| == 0 || !(forall i :: 0 <= i < |num| ==> IsLetterCoefficient(num[i], i)) then None
    else Some(Letters(num))
  }

  /** The letters every coefficient spells. */
  function Letters(num: Coeffs): (w: string)
    ensures |w| == |num| && forall i :: 0 <= i < |num| ==> w[i] == LetterAt(num, i)
  {
    seq(|num|, i requires 0 <= i < |num| => LetterAt(num, i))
  }

  /** to_letters: walk the numerator with base = 256^i and stop at the first coefficient
      that spells no letter. */
  method ToLetters(v: Value) returns (r: Option<string>)
    ensures r == LettersOf(v.num)
  {
    if |v.num| == 0 {
      return None;
    }
    var letters: string := [];
    var base := 1;
    for i := 0 to |v.num|
      invariant base == Pow(LetterBase, i)
      invariant |letters| == i
      invariant forall j :: 0 <= j < i ==> IsLetterCoefficient(v.num[j], j) && letters[j] == LetterAt(v.num, j)
    {
      PowPositive(LetterBase, i);
      var n := v.num[i];
      if n % base != 0 || n / base > CharMax || n / base <= 0 {
        return None;
      }
      letters := letters + [(n / base) as char];
      base := base * LetterBase;
    }
    assert forall i :: 0 <= i < |v.num| ==> IsLetterCoefficient(v.num[i], i);
    assert letters == Letters(v.num);
    return Some(letters);
  }

  /** The letter codes to_letters accepts. */
  predicate LetterCodes(w: string) {
    forall i :: 0 <= i < |w| ==> 0 < w[i] as int <= CharMax
  }

  /** to_letters inverts the name encoding: it yields w exactly for the numerators that
      encode a non-empty w of letter codes. */
  lemma LettersOfMeaning(num: Coeffs, w: string)
    ensures LettersOf(num) == Some(w) <==> |w| > 0 && LetterCodes(w) && num == NameNumerator(w)
  {
    if |w| > 0 && LetterCodes(w) && num == NameNumerator(w) {
      EncodedLetters(w);
    }
    if LettersOf(num) == Some(w) {
      DecodedLetters(num, w);
    }
  }

  lemma EncodedLetters(w: string)
    requires |w| > 0 && LetterCodes(w)
    ensures LettersOf(NameNumerator(w)) == Some(w)
  {
    var num := NameNumerator(w);
    forall i | 0 <= i < |num|
      ensures IsLetterCoefficient(num[i], i) && LetterAt(num, i) == w[i]
    {
      EncodedLetter(w[i], i);
    }
    assert Letters(num) == w;
  }

  lemma EncodedLetter(c: char, i: nat)
    requires 0 < c as int <= CharMax
    ensures IsLetterCoefficient(Pow(LetterBase, i) * (c as int), i)
    ensures (Pow(LetterBase, i) * (c as int)) / Pow(LetterBase, i) == c as int
  {
    PowPositive(LetterBase, i);
    DivExact(c as int, Pow(LetterBase, i));
  }

  lemma DecodedLetters(num: Coeffs, w: string)
    requires LettersOf(num) == Some(w)
    ensures |w| > 0 && LetterCodes(w) && num == NameNumerator(w)
  {
    forall i | 0 <= i < |num|
      ensures num[i] == Pow(LetterBase, i) * (w[i] as int)
    {
      assert w[i] == LetterAt(num, i);
      PowPositive(LetterBase, i);
      DivisibleFactor(num[i], Pow(LetterBase, i));
    }
  }

  /** Reading a name back gives its least rotation, for names of letter codes. */
  lemma NameLetters(letters: string)
    requires |letters| > 0 && LetterCodes(letters)
    ensures LettersOf(NameValue(letters).num) == Some(LeastRotation(letters))
  {
    var w := LeastRotation(letters);
    var m := BruteForceLeastRotation(letters);
    forall i | 0 <= i < |w| ensures 0 < w[i] as int <= CharMax {
      assert w[i] == letters[(i + m) % |letters|];
    }
    LettersOfMeaning(NameValue(letters).num, w);
  }

  // ---------------------------------------------------------------------------
  // to_string: "{" numerator "}{" denominator "}", coefficients separated by spaces.

  /** The coefficients in decimal, separated by single spaces. */
  function JoinInts(p: Coeffs): string {
    if |p| == 0 then ""
    else if |p| == 1 then Decimal.IntToString(p[0])
    else JoinInts(p[..|p| - 1]) + " " + Decimal.IntToString(p[|p| - 1])
  }

  function Show(v: Value): string {
    "{" + JoinInts(v.num) + "}{" + JoinInts(v.den) + "}"
  }

  /** to_string: the same loop twice, streaming each coefficient after a separator that is
      empty before the first one and a space after. */
  method ToString(v: Value) returns (s: string)
    ensures s == Show(v)
  {
    s := "{";
    s := AppendJoined(s, v.num);
    s := s + "}{";
    s := AppendJoined(s, v.den);
    s := s + "}";
  }

  /** One of to_string's loops: append the coefficients of p with their separators. */
  method AppendJoined(s0: string, p: Coeffs) returns (s: string)
    ensures s == s0 + JoinInts(p)
  {
    s := s0;
    var space := "";
    for i := 0 to |p|
      invariant s == s0 + JoinInts(p[..i])
      invariant space == if i == 0 then "" else " "
    {
      assert p[..i + 1][..i] == p[..i];
      s := s + space + Decimal.IntToString(p[i]);
      space := " ";
    }
    assert p[..|p|] == p;
  }

  /** π prints as "{0 1}{1}". */
  lemma ShowPi()
    ensures Show(FromInt(1)) == "{0 1}{1}"
  {
    assert Decimal.IntToString(0) == "0" && Decimal.IntToString(1) == "1";
    assert [0, 1][..1] == [0];
  }

  /** A decimal integer is a non-empty run of digits and '-'. */
  lemma IntToStringPlain(i: int)
    ensures |Decimal.IntToString(i)| > 0
    ensures forall j :: 0 <= j < |Decimal.IntToString(i)| ==>
      Decimal.IsDigit(Decimal.IntToString(i)[j]) || Decimal.IntToString(i)[j] == '-'
  {
  }

  /** Every character of a joined list is a digit, '-' or a space. */
  lemma {:induction false} JoinIntsPlain(p: Coeffs)
    ensures forall j :: 0 <= j < |JoinInts(p)| ==>
      Decimal.IsDigit(JoinInts(p)[j]) || JoinInts(p)[j] == '-' || JoinInts(p)[j] == ' '
    ensures |p| > 0 ==> |JoinInts(p)| > 0
    decreases |p|
  {
    if |p| > 0 {
      IntToStringPlain(p[|p| - 1]);
      if |p| > 1 {
        JoinIntsPlain(p[..|p| - 1]);
      }
    }
  }

  /** A joined list holds a space exactly when it has two or more coefficients. */
  lemma JoinIntsSpace(p: Coeffs)
    ensures |p| >= 2 <==> ' ' in JoinInts(p)
  {
    if |p| >= 2 {
      assert JoinInts(p)[|JoinInts(p[..|p| - 1])|] == ' ';
    } else if |p| == 1 {
      IntToStringPlain(p[0]);
    }
  }

  /** Splitting at the last space: the parts after it contain none. */
  lemma SplitLast(a: string, b: string, c: string, d: string)
    requires a + " " + b == c + " " + d
    requires forall j :: 0 <= j < |b| ==> b[j] != ' '
    requires forall j :: 0 <= j < |d| ==> d[j] != ' '
    ensures a == c && b == d
  {
    var x := a + " " + b;
    assert x[|a|] == ' ' && x[|c|] == ' ';
    assert forall j :: |c| < j < |x| ==> x[j] == d[j - |c| - 1];
    assert forall j :: |a| < j < |x| ==> x[j] == b[j - |a| - 1];
    assert |a| == |c|;
    assert a == x[..|a|] && c == x[..|c|];
    assert b == x[|a| + 1..] && d == x[|c| + 1..];
  }

  lemma {:induction false} JoinIntsInjective(p: Coeffs, q: Coeffs)
    requires JoinInts(p) == JoinInts(q)
    ensures p == q
    decreases |p|
  {
    JoinIntsPlain(p);
    JoinIntsPlain(q);
    JoinIntsSpace(p);
    JoinIntsSpace(q);
    assert (|p| == 0) == (|q| == 0) && (|p| >= 2) == (|q| >= 2);
    if |p| == 1 {
      Decimal.IntToStringInjective(p[0], q[0]);
    } else if |p| >= 2 {
      var a, b := p[|p| - 1], q[|q| - 1];
      IntToStringPlain(a);
      IntToStringPlain(b);
      SplitLast(JoinInts(p[..|p| - 1]), Decimal.IntToString(a), JoinInts(q[..|q| - 1]), Decimal.IntToString(b));
      Decimal.IntToStringInjective(a, b);
      JoinIntsInjective(p[..|p| - 1], q[..|q| - 1]);
      assert p == p[..|p| - 1] + [a] && q == q[..|q| - 1] + [b];
    }
  }

  /** Splitting at the first closing brace: the numerator text contains none. */
  lemma SplitBraces(x: string, y: string, x': string, y': string)
    requires "{" + x + "}{" + y + "}" == "{" + x' + "}{" + y' + "}"
    requires forall j :: 0 <= j < |x| ==> x[j] != '}'
    requires forall j :: 0 <= j < |x'| ==> x'[j] != '}'
    ensures x == x' && y == y'
  {
    var s := "{" + x + "}{" + y + "}";
    assert s[1 + |x|] == '}' && s[1 + |x'|] == '}';
    assert forall j :: 1 <= j < 1 + |x| ==> s[j] == x[j - 1];
    assert forall j :: 1 <= j < 1 + |x'| ==> s[j] == x'[j - 1];
    assert |x| == |x'|;
    assert x == s[1..1 + |x|] && x' == s[1..1 + |x'|];
    assert y == s[3 + |x|..|s| - 1] && y' == s[3 + |x'|..|s| - 1];
  }

  /** Distinct values print differently. */
  lemma ShowInjective(v: Value, w: Value)
    requires Show(v) == Show(w)
    ensures v == w
  {
    JoinIntsPlain(v.num);
    JoinIntsPlain(w.num);
    SplitBraces(JoinInts(v.num), JoinInts(v.den), JoinInts(w.num), JoinInts(w.den));
    JoinIntsInjective(v.num, w.num);
    JoinIntsInjective(v.den, w.den);
  }

  // ---------------------------------------------------------------------------
  // Index: a key of a circular array, compared modulo length·π.

  datatype Index = Index(value: Value, length: int)

  /** lhs.num·rhs.den − rhs.num·lhs.den: the numerator of lhs − rhs before simplify. */
  function IndexDifference(lhs: Index, rhs: Index): Coeffs {
    Combine(Convolution(lhs.value.num, rhs.value.den), Convolution(rhs.value.num, lhs.value.den), false)
  }

  /** lhs.den·rhs.den: the denominator of lhs − rhs before simplify. */
  function IndexDenominator(lhs: Index, rhs: Index): Coeffs {
    Convolution(lhs.value.den, rhs.value.den)
  }

  /** The difference with its trailing zeros popped. */
  function TrimmedDifference(lhs: Index, rhs: Index): (d: Coeffs)
    ensures NoTrailingZero(d)
  {
    var full := IndexDifference(lhs, rhs);
    full[..TrimmedLength(full)]
  }

  /** The number of whole turns, k, by which lhs − rhs is k·length·π, as
      Index::operator== reads it off: 0 for a zero difference, else the π-ratio of the
      difference over length times the denominator. */
  function SlotShift(lhs: Index, rhs: Index): Option<int> {
    var diff := TrimmedDifference(lhs, rhs);
    if |diff| == 0 then Some(0)
    else PiRatio(diff, Scale(lhs.length, IndexDenominator(lhs, rhs)))
  }

  /** Index::operator==: both keys name the same slot of the array. */
  predicate SameSlot(lhs: Index, rhs: Index) {
    SlotShift(lhs, rhs).Some?
  }

  /** Index::operator== (lengths asserted equal): cross-multiply, subtract, pop the
      trailing zeros, then compare the ratios. */
  method IndexEquals(lhs: Index, rhs: Index) returns (b: bool)
    requires lhs.length == rhs.length
    ensures b == SameSlot(lhs, rhs)
  {
    var lhsNd := Multiply(lhs.value.num, rhs.value.den);
    var rhsNd := Multiply(rhs.value.num, lhs.value.den);
    var den := Multiply(lhs.value.den, rhs.value.den);
    var diff := Minus(lhsNd, rhsNd);
    assert diff == IndexDifference(lhs, rhs);
    diff := PopTrailingZeros(diff);
    assert diff == TrimmedDifference(lhs, rhs) && den == IndexDenominator(lhs, rhs);
    if |diff| == 0 {
      return true;
    }
    b := WholeTurns(diff, den, lhs.length);
  }

  /** The pop_back loop of Index::operator==. */
  method PopTrailingZeros(p: Coeffs) returns (d: Coeffs)
    ensures d == p[..TrimmedLength(p)]
  {
    d := p;
    while |d| > 0 && d[|d| - 1] == 0
      invariant |d| <= |p| && d == p[..|d|]
      invariant TrimmedLength(d) == TrimmedLength(p)
    {
      assert d[..|d| - 1] == p[..|d| - 1];
      d := d[..|d| - 1];
    }
  }

  /** The rest of Index::operator== on a non-zero difference: the early exits of the source
      in order, then the walk over all but the last denominator coefficient, whose ratio
      was taken first. */
  method WholeTurns(diff: Coeffs, den: Coeffs, length: int) returns (b: bool)
    requires NoTrailingZero(diff) && |diff| > 0
    ensures b == PiRatio(diff, Scale(length, den)).Some?
  {
    if diff[0] != 0 {
      return false;
    }
    if |diff| != |den| + 1 {
      return false;
    }
    ghost var scaled := Scale(length, den);
    var ratio := GetRatio(diff[|diff| - 1], den[|den| - 1] * length);
    if ratio.None? {
      return false;
    }
    for i := 0 to |den| - 1
      invariant forall j :: 0 <= j < i ==> GetRatio(diff[j + 1], scaled[j]) == ratio
    {
      if ratio != GetRatio(diff[i + 1], den[i] * length) {
        assert GetRatio(diff[i + 1], scaled[i]) != ratio;
        return false;
      }
    }
    return true;
  }

  /** The same slot means lhs − rhs is a whole number of turns: for the shift k, the
      difference is k·length·π times the denominator at every point, and it is a
      π-multiple coefficient by coefficient. */
  lemma SlotShiftMeaning(lhs: Index, rhs: Index, k: int, t: int)
    ensures var diff := TrimmedDifference(lhs, rhs);
      SlotShift(lhs, rhs) == Some(k)
      <==> (|diff| == 0 && k == 0)
           || (|diff| > 0 && IsPiMultiple(diff, Scale(lhs.length, IndexDenominator(lhs, rhs)), k))
    ensures SlotShift(lhs, rhs) == Some(k) ==>
      Eval(IndexDifference(lhs, rhs), t) == t * (k * (lhs.length * Eval(IndexDenominator(lhs, rhs), t)))
  {
    var diff, den := TrimmedDifference(lhs, rhs), IndexDenominator(lhs, rhs);
    var full := IndexDifference(lhs, rhs);
    EvalTrim(full, t);
    EvalScale(lhs.length, den, t);
    if |diff| > 0 {
      PiRatioMeaning(diff, Scale(lhs.length, den), k);
      if IsPiMultiple(diff, Scale(lhs.length, den), k) {
        PiMultipleEval(diff, Scale(lhs.length, den), k, t);
      }
    } else {
      assert Eval(diff, t) == 0;
    }
  }

  /** The cross-multiplied difference denotes a·d − c·b: the slot shift compares the
      quotients lhs − rhs. */
  lemma IndexDifferenceEval(lhs: Index, rhs: Index, t: int)
    ensures Eval(IndexDifference(lhs, rhs), t)
         == Eval(lhs.value.num, t) * Eval(rhs.value.den, t) - Eval(rhs.value.num, t) * Eval(lhs.value.den, t)
    ensures Eval(IndexDenominator(lhs, rhs), t) == Eval(lhs.value.den, t) * Eval(rhs.value.den, t)
  {
    EvalCombine(Convolution(lhs.value.num, rhs.value.den), Convolution(rhs.value.num, lhs.value.den), false, t);
    EvalConvolution(lhs.value.num, rhs.value.den, t);
    EvalConvolution(rhs.value.num, lhs.value.den, t);
    EvalConvolution(lhs.value.den, rhs.value.den, t);
  }

  /** The source's assertion that the product denominator does not end in zero holds for
      normal keys. */
  lemma IndexDenominatorTop(lhs: Index, rhs: Index)
    requires Normal(lhs.value) && Normal(rhs.value)
    ensures NoTrailingZero(IndexDenominator(lhs, rhs))
  {
    var a, b := lhs.value.den, rhs.value.den;
    if |a| > 0 && |b| > 0 {
      ConvolutionTop(a, b);
      NonZeroFactors(a[|a| - 1], b[|b| - 1]);
    }
  }

  /** Names of different lengths (other than a longest length of 2, where the difference
      could still be read as a multiple of π) are different slots of any array: their
      difference is a polynomial of their full degree. */
  lemma NameSlotsDistinct(a: string, b: string, n: int)
    requires forall i :: 0 <= i < |a| ==> a[i] as int != 0
    requires forall i :: 0 <= i < |b| ==> b[i] as int != 0
    requires |a| != |b| && Max(|a|, |b|) != 2
    ensures !SameSlot(Index(NameValue(a), n), Index(NameValue(b), n))
  {
    var lhs, rhs := Index(NameValue(a), n), Index(NameValue(b), n);
    NameNormal(a);
    NameNormal(b);
    DifferentDegrees(lhs.value.num, rhs.value.num);
    assert |Scale(n, IndexDenominator(lhs, rhs))| == 1;
  }

  /** Two lists without trailing zeros and of different lengths differ in their top
      coefficient, so their difference keeps its full length. */
  lemma DifferentDegrees(x: Coeffs, y: Coeffs)
    requires NoTrailingZero(x) && NoTrailingZero(y) && |x| != |y|
    ensures TrimmedLength(Combine(Convolution(x, [1]), Convolution(y, [1]), false)) == Max(|x|, |y|)
  {
    var cx, cy := Convolution(x, [1]), Convolution(y, [1]);
    if |x| > 0 {
      ConvolutionTop(x, [1]);
    }
    if |y| > 0 {
      ConvolutionTop(y, [1]);
    }
    var m := Max(|x|, |y|);
    var full := Combine(cx, cy, false);
    assert full[m - 1] == Get(cx, m - 1) - Get(cy, m - 1);
  }

  /** A key equals itself. */
  lemma SameSlotReflexive(i: Index)
    ensures SameSlot(i, i)
  {
    var full := IndexDifference(i, i);
    assert forall j :: 0 <= j < |full| ==> full[j] == 0;
    assert TrimmedLength(full) == 0;
  }

  /** A zero coefficient in the denominator defeats the comparison: with length 256, the
      keys [1]/[0, 1] and [1, 0, 256]/[0, 1] differ by exactly one turn, yet they are not
      the same slot, because get_ratio(0, 0) is none. */
  lemma SameSlotZeroCoefficient()
    ensures var lhs, rhs := Index(Value([1], [0, 1]), 256), Index(Value([1, 0, 256], [0, 1]), 256);
      !SameSlot(lhs, rhs)
      && forall t :: Eval(IndexDifference(lhs, rhs), t) == t * (-1 * (256 * Eval(IndexDenominator(lhs, rhs), t)))
  {
    ZeroCoefficientKeys();
    ZeroCoefficientRatio();
  }

  lemma ZeroCoefficientKeys()
    ensures var lhs, rhs := Index(Value([1], [0, 1]), 256), Index(Value([1, 0, 256], [0, 1]), 256);
      IndexDifference(lhs, rhs) == [0, 0, 0, -256] && IndexDenominator(lhs, rhs) == [0, 0, 1]
  {
    assert Convolution([1], [0, 1]) == [0, 1];
    assert Rows([1, 0, 256], [0, 1], 1) == [0, 1, 0, 0];
    assert Rows([1, 0, 256], [0, 1], 2) == [0, 1, 0, 0];
    assert Convolution([1, 0, 256], [0, 1]) == [0, 1, 0, 256];
    assert Rows([0, 1], [0, 1], 1) == [0, 0, 0];
    assert Convolution([0, 1], [0, 1]) == [0, 0, 1];
  }

  lemma ZeroCoefficientRatio()
    ensures PiRatio([0, 0, 0, -256], Scale(256, [0, 0, 1])) == None
    ensures [0, 0, 0, -256][..TrimmedLength([0, 0, 0, -256])] == [0, 0, 0, -256]
    ensures forall t :: Eval([0, 0, 0, -256], t) == t * (-1 * (256 * Eval([0, 0, 1], t)))
  {
    var full: Coeffs := [0, 0, 0, -256];
    assert TrimmedLength(full) == 4 && full[..4] == full;
    var d := Scale(256, [0, 0, 1]);
    assert d == [0, 0, 256];
    assert GetRatio(full[1], d[0]) == None;
    forall t ensures Eval(full, t) == t * (-1 * (256 * Eval([0, 0, 1], t))) {
      assert full[1..] == Scale(-1, d);
      EvalScale(-1, d, t);
      EvalScale(256, [0, 0, 1], t);
    }
  }
}
