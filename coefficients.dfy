/** Coefficient lists: polynomials in π, index i holding the coefficient of π^i, with the
    list arithmetic and the normalisation of lib/number.cpp. The vendor BigInt is
    modelled by int; its gcd is taken non-negative. */
module Coefficients {
  import opened Arith

  type Coeffs = seq<int>

  /** Coefficient i, zero past the end of the list. */
  function Get(p: Coeffs, i: nat): int {
    if i < |p| then p[i] else 0
  }

  function Max(a: nat, b: nat): nat {
    if a < b then b else a
  }

  function Min(a: nat, b: nat): nat {
    if a < b then a else b
  }

  /** The polynomial's value at t (Horner's rule). */
  function Eval(p: Coeffs, t: int): int {
    if |p| == 0 then 0 else p[0] + t * Eval(p[1..], t)
  }

  function Pow(t: int, k: nat): int {
    if k == 0 then 1 else t * Pow(t, k - 1)
  }

  function Zeros(n: nat): (z: Coeffs)
    ensures |z| == n
  {
    seq(n, _ => 0)
  }

  function Scale(c: int, p: Coeffs): (r: Coeffs)
    ensures |r| == |p|
  {
    seq(|p|, j requires 0 <= j < |p| => c * p[j])
  }

  /** Every coefficient is zero: the zero polynomial, whatever the list length. */
  predicate IsZero(p: Coeffs) {
    forall i :: 0 <= i < |p| ==> p[i] == 0
  }

  // ---------------------------------------------------------------------------
  // plus and operator-

  /** Coefficient-wise sum (positive) or difference over the longer of the two lengths. */
  function Combine(x: Coeffs, y: Coeffs, positive: bool): (r: Coeffs)
    ensures |r| == Max(|x|, |y|)
  {
    seq(Max(|x|, |y|), i requires 0 <= i < Max(|x|, |y|) =>
      if positive then Get(x, i) + Get(y, i) else Get(x, i) - Get(y, i))
  }

  /** number::plus: a zero-filled result of length max(|x|, |y|), then each x[i] added and
      each y[i] added or subtracted. */
  method Plus(x: Coeffs, y: Coeffs, positive: bool) returns (r: Coeffs)
    ensures r == Combine(x, y, positive)
  {
    var size := Max(|x|, |y|);
    var result := new int[size](_ => 0);
    for i := 0 to size
      invariant forall k :: 0 <= k < i ==> result[k] == Combine(x, y, positive)[k]
      invariant forall k :: i <= k < size ==> result[k] == 0
    {
      if i < |x| {
        result[i] := result[i] + x[i];
      }
      if i < |y| {
        if positive {
          result[i] := result[i] + y[i];
        } else {
          result[i] := result[i] - y[i];
        }
      }
    }
    r := result[..];
  }

  /** The coefficient-list operator-: the same walk, always subtracting. */
  method Minus(lhs: Coeffs, rhs: Coeffs) returns (r: Coeffs)
    ensures r == Combine(lhs, rhs, false)
  {
    var result := new int[Max(|lhs|, |rhs|)](_ => 0);
    for i := 0 to result.Length
      invariant forall k :: 0 <= k < i ==> result[k] == Combine(lhs, rhs, false)[k]
      invariant forall k :: i <= k < result.Length ==> result[k] == 0
    {
      if i < |lhs| {
        result[i] := result[i] + lhs[i];
      }
      if i < |rhs| {
        result[i] := result[i] - rhs[i];
      }
    }
    r := result[..];
  }

  // ---------------------------------------------------------------------------
  // operator*: the schoolbook convolution

  /** Rows 0..m-1 of the schoolbook product: row i adds a[i] * b shifted by i. */
  function Rows(a: Coeffs, b: Coeffs, m: nat): (r: Coeffs)
    requires 0 < |a| && 0 < |b| && m <= |a|
    ensures |r| == |a| + |b| - 1
  {
    if m == 0 then Zeros(|a| + |b| - 1)
    else Combine(Rows(a, b, m - 1), Zeros(m - 1) + Scale(a[m - 1], b), true)
  }

  /** The product of two coefficient lists; empty when either factor is. */
  function Convolution(a: Coeffs, b: Coeffs): (r: Coeffs)
    ensures |r| == if |a| == 0 || |b| == 0 then 0 else |a| + |b| - 1
  {
    if |a| == 0 || |b| == 0 then [] else Rows(a, b, |a|)
  }

  /** Adding row m changes coefficient k by a[m] * b[k - m] where that row reaches k. */
  lemma RowsStep(a: Coeffs, b: Coeffs, m: nat, k: nat)
    requires 0 < |a| && 0 < |b| && m < |a| && k < |a| + |b| - 1
    ensures Rows(a, b, m + 1)[k] == Rows(a, b, m)[k] + (if m <= k < m + |b| then a[m] * b[k - m] else 0)
  {
    var row := Zeros(m) + Scale(a[m], b);
    assert Get(row, k) == (if m <= k < m + |b| then a[m] * b[k - m] else 0);
  }

  /** The coefficient-list operator*: result[i + j] += lhs[i] * rhs[j] over all pairs. */
  method Multiply(lhs: Coeffs, rhs: Coeffs) returns (r: Coeffs)
    ensures r == Convolution(lhs, rhs)
  {
    if |lhs| == 0 || |rhs| == 0 {
      return [];
    }
    var result := new int[|lhs| + |rhs| - 1](_ => 0);
    assert result[..] == Rows(lhs, rhs, 0);
    for i := 0 to |lhs|
      invariant result[..] == Rows(lhs, rhs, i)
    {
      for j := 0 to |rhs|
        invariant forall k :: 0 <= k < result.Length ==>
          result[k] == Rows(lhs, rhs, i)[k] + (if i <= k < i + j then lhs[i] * rhs[k - i] else 0)
      {
        result[i + j] := result[i + j] + lhs[i] * rhs[j];
      }
      forall k | 0 <= k < result.Length
        ensures result[k] == Rows(lhs, rhs, i + 1)[k]
      {
        RowsStep(lhs, rhs, i, k);
      }
    }
    r := result[..];
  }

  // ---------------------------------------------------------------------------
  // Evaluation: the lists denote polynomials and the operations are the ring operations.

  lemma {:induction false} EvalAppend(p: Coeffs, q: Coeffs, t: int)
    ensures Eval(p + q, t) == Eval(p, t) + Pow(t, |p|) * Eval(q, t)
    decreases |p|
  {
    if |p| > 0 {
      assert (p + q)[1..] == p[1..] + q;
      EvalAppend(p[1..], q, t);
      var e1, eq, pw := Eval(p[1..], t), Eval(q, t), Pow(t, |p| - 1);
      assert Eval(p + q, t) == p[0] + t * (e1 + pw * eq);
      HornerStep(p[0], t, e1, pw, eq);
      assert Eval(p, t) == p[0] + t * e1 && Pow(t, |p|) == t * pw;
    } else {
      assert p + q == q;
    }
  }

  lemma HornerStep(c: int, t: int, e: int, pw: int, eq: int)
    ensures c + t * (e + pw * eq) == (c + t * e) + (t * pw) * eq
  {
  }

  lemma {:induction false} EvalZeros(n: nat, t: int)
    ensures Eval(Zeros(n), t) == 0
    decreases n
  {
    if n > 0 {
      assert Zeros(n)[1..] == Zeros(n - 1);
      EvalZeros(n - 1, t);
    }
  }

  /** A list whose coefficients are all zero denotes zero. */
  lemma {:induction false} EvalIsZero(p: Coeffs, t: int)
    requires IsZero(p)
    ensures Eval(p, t) == 0
    decreases |p|
  {
    if |p| > 0 {
      EvalIsZero(p[1..], t);
    }
  }

  lemma {:induction false} EvalScale(c: int, p: Coeffs, t: int)
    ensures Eval(Scale(c, p), t) == c * Eval(p, t)
    decreases |p|
  {
    if |p| > 0 {
      assert Scale(c, p)[1..] == Scale(c, p[1..]);
      EvalScale(c, p[1..], t);
      var e := Eval(p[1..], t);
      assert Eval(Scale(c, p), t) == c * p[0] + t * (c * e);
      ScaleStep(c, p[0], t, e);
    }
  }

  lemma ScaleStep(c: int, h: int, t: int, e: int)
    ensures c * h + t * (c * e) == c * (h + t * e)
  {
  }

  /** Shifting by m places multiplies by t^m. */
  lemma EvalShift(m: nat, p: Coeffs, t: int)
    ensures Eval(Zeros(m) + p, t) == Pow(t, m) * Eval(p, t)
  {
    EvalAppend(Zeros(m), p, t);
    EvalZeros(m, t);
  }

  function Tail(p: Coeffs): Coeffs {
    if |p| == 0 then [] else p[1..]
  }

  lemma EvalHead(p: Coeffs, t: int)
    ensures Eval(p, t) == Get(p, 0) + t * Eval(Tail(p), t)
  {
  }

  /** plus and operator- denote the sum and the difference of the polynomials. */
  lemma {:induction false} EvalCombine(x: Coeffs, y: Coeffs, positive: bool, t: int)
    ensures Eval(Combine(x, y, positive), t)
         == if positive then Eval(x, t) + Eval(y, t) else Eval(x, t) - Eval(y, t)
    decreases |x| + |y|
  {
    var r := Combine(x, y, positive);
    if |r| > 0 {
      CombineTail(x, y, positive);
      EvalCombine(Tail(x), Tail(y), positive, t);
      EvalHead(x, t);
      EvalHead(y, t);
      EvalHead(r, t);
      assert Tail(r) == Combine(Tail(x), Tail(y), positive);
      LinearStep(Get(x, 0), Get(y, 0), Eval(Tail(x), t), Eval(Tail(y), t), t, positive);
    }
  }

  lemma LinearStep(a: int, b: int, ex: int, ey: int, t: int, positive: bool)
    ensures positive ==> a + b + t * (ex + ey) == (a + t * ex) + (b + t * ey)
    ensures !positive ==> a - b + t * (ex - ey) == (a + t * ex) - (b + t * ey)
  {
  }

  lemma CombineTail(x: Coeffs, y: Coeffs, positive: bool)
    requires Max(|x|, |y|) > 0
    ensures Combine(x, y, positive)[1..] == Combine(Tail(x), Tail(y), positive)
  {
    var r, r' := Combine(x, y, positive), Combine(Tail(x), Tail(y), positive);
    assert |r'| == |r| - 1;
    forall i | 0 <= i < |r'| ensures r[1..][i] == r'[i] {
      assert Get(x, i + 1) == Get(Tail(x), i);
      assert Get(y, i + 1) == Get(Tail(y), i);
    }
  }

  lemma {:induction false} EvalRows(a: Coeffs, b: Coeffs, m: nat, t: int)
    requires 0 < |a| && 0 < |b| && m <= |a|
    ensures Eval(Rows(a, b, m), t) == Eval(a[..m], t) * Eval(b, t)
    decreases m
  {
    if m == 0 {
      EvalZeros(|a| + |b| - 1, t);
    } else {
      var row := Zeros(m - 1) + Scale(a[m - 1], b);
      var p, c, e := Pow(t, m - 1), a[m - 1], Eval(b, t);
      var before := Eval(a[..m - 1], t);
      EvalRows(a, b, m - 1, t);
      EvalCombine(Rows(a, b, m - 1), row, true, t);
      EvalRow(m - 1, c, b, t);
      EvalSnoc(a[..m - 1], c, t);
      assert a[..m] == a[..m - 1] + [c];
      assert Eval(Rows(a, b, m), t) == before * e + p * c * e;
      RowSum(before, p * c, e);
    }
  }

  lemma RowSum(before: int, pc: int, e: int)
    ensures before * e + pc * e == (before + pc) * e
  {
  }

  lemma EvalRow(m: nat, c: int, b: Coeffs, t: int)
    ensures Eval(Zeros(m) + Scale(c, b), t) == Pow(t, m) * c * Eval(b, t)
  {
    EvalShift(m, Scale(c, b), t);
    EvalScale(c, b, t);
    MulAssoc(Pow(t, m), c, Eval(b, t));
  }

  lemma MulAssoc(a: int, b: int, c: int)
    ensures a * (b * c) == a * b * c
  {
  }

  /** A positive factor of zero leaves the other factor zero. */
  lemma ProductZero(t: int, e: int)
    requires t > 0 && t * e == 0
    ensures e == 0
  {
    if e > 0 {
      MulAtLeast(e, t);
    } else if e < 0 {
      MulAtLeast(-e, t);
    }
  }

  lemma EvalSnoc(p: Coeffs, c: int, t: int)
    ensures Eval(p + [c], t) == Eval(p, t) + Pow(t, |p|) * c
  {
    EvalAppend(p, [c], t);
    assert Eval([c], t) == c + t * Eval([], t);
  }

  /** operator* denotes the product of the polynomials. */
  lemma EvalConvolution(a: Coeffs, b: Coeffs, t: int)
    ensures Eval(Convolution(a, b), t) == Eval(a, t) * Eval(b, t)
  {
    if |a| > 0 && |b| > 0 {
      EvalRows(a, b, |a|, t);
      assert a[..|a|] == a;
    }
  }

  /** A polynomial that vanishes at every positive integer has only zero coefficients. */
  lemma {:induction false} VanishingIsZero(p: Coeffs)
    requires forall t: int :: t > 0 ==> Eval(p, t) == 0
    ensures IsZero(p)
    decreases |p|
  {
    if |p| > 0 {
      var b := if p[0] < 0 then 1 - p[0] else 1 + p[0];
      var e := Eval(p[1..], b);
      assert Eval(p, b) == 0;
      assert p[0] + b * e == 0;
      if e > 0 {
        MulAtLeast(e, b);
      } else if e < 0 {
        MulAtLeast(-e, b);
      }
      assert p[0] == 0;
      forall t: int | t > 0
        ensures Eval(p[1..], t) == 0
      {
        assert Eval(p, t) == 0;
        ProductZero(t, Eval(p[1..], t));
      }
      VanishingIsZero(p[1..]);
      forall i | 0 <= i < |p| ensures p[i] == 0 {
        if i > 0 {
          assert p[1..][i - 1] == p[i];
        }
      }
    }
  }

  // ---------------------------------------------------------------------------
  // gcd

  function Abs(x: int): nat {
    if x < 0 then -x else x
  }

  /** Euclid's algorithm by repeated subtraction. */
  function NatGcd(a: nat, b: nat): nat
    decreases a + b
  {
    if a == 0 then b
    else if b == 0 then a
    else if a >= b then NatGcd(a - b, b)
    else NatGcd(a, b - a)
  }

  /** gcd of the big-integer library, taken non-negative. */
  function Gcd(a: int, b: int): nat {
    NatGcd(Abs(a), Abs(b))
  }

  /** g divides x; only 0 is a multiple of 0. */
  predicate Divides(g: nat, x: int) {
    if g == 0 then x == 0 else x % g == 0
  }

  lemma DividesMultiple(g: nat, k: int)
    ensures Divides(g, k * g)
  {
    if g > 0 {
      DivExact(k, g);
    }
  }

  lemma DividesQuotient(g: nat, x: int)
    requires g > 0 && Divides(g, x)
    ensures x == (x / g) * g
  {
  }

  lemma DividesCombination(g: nat, q: int, b: int, r: int)
    requires Divides(g, b) && Divides(g, r)
    ensures Divides(g, q * b + r)
  {
    if g > 0 {
      var kb, kr := b / g, r / g;
      DividesQuotient(g, b);
      DividesQuotient(g, r);
      assert q * b + r == (q * kb + kr) * g;
      DividesMultiple(g, q * kb + kr);
    }
  }

  lemma DividesTransitive(d: nat, g: nat, x: int)
    requires Divides(d, g) && Divides(g, x)
    ensures Divides(d, x)
  {
    if g > 0 {
      DividesQuotient(g, x);
      DividesCombination(d, x / g, g, 0);
    }
  }

  lemma DividesAbs(g: nat, x: int)
    requires Divides(g, Abs(x))
    ensures Divides(g, x)
  {
    if x < 0 {
      DividesCombination(g, -1, Abs(x), 0);
    }
  }

  lemma {:induction false} NatGcdDivides(a: nat, b: nat)
    ensures Divides(NatGcd(a, b), a) && Divides(NatGcd(a, b), b)
    decreases a + b
  {
    var g := NatGcd(a, b);
    if a == 0 {
      DividesMultiple(b, 1);
      DividesMultiple(b, 0);
    } else if b == 0 {
      DividesMultiple(a, 1);
      DividesMultiple(a, 0);
    } else if a >= b {
      NatGcdDivides(a - b, b);
      DividesCombination(g, 1, b, a - b);
    } else {
      NatGcdDivides(a, b - a);
      DividesCombination(g, 1, a, b - a);
    }
  }

  /** The gcd divides both arguments (so it is 0 only when both are). */
  lemma GcdDivides(a: int, b: int)
    ensures Divides(Gcd(a, b), a) && Divides(Gcd(a, b), b)
  {
    NatGcdDivides(Abs(a), Abs(b));
    DividesAbs(Gcd(a, b), a);
    DividesAbs(Gcd(a, b), b);
  }

  /** The running gcd of the simplify loop: g := gcd(g, x) from g = 0 over s in order. */
  function GcdSeq(s: Coeffs): nat {
    if |s| == 0 then 0 else Gcd(GcdSeq(s[..|s| - 1]), s[|s| - 1])
  }

  lemma GcdSeqSnoc(s: Coeffs, x: int)
    ensures GcdSeq(s + [x]) == Gcd(GcdSeq(s), x)
  {
    assert (s + [x])[..|s|] == s;
  }

  lemma {:induction false} GcdSeqDivides(s: Coeffs)
    ensures forall i :: 0 <= i < |s| ==> Divides(GcdSeq(s), s[i])
    decreases |s|
  {
    if |s| > 0 {
      var init := s[..|s| - 1];
      var g := GcdSeq(s);
      GcdSeqDivides(init);
      GcdDivides(GcdSeq(init), s[|s| - 1]);
      forall i | 0 <= i < |s| - 1 ensures Divides(g, s[i]) {
        assert s[i] == init[i];
        DividesTransitive(g, GcdSeq(init), s[i]);
      }
    }
  }

  /** The running gcd is positive once some coefficient is non-zero. */
  lemma GcdSeqNonZero(s: Coeffs, k: nat)
    requires k < |s| && s[k] != 0
    ensures GcdSeq(s) > 0
  {
    GcdSeqDivides(s);
    assert Divides(GcdSeq(s), s[k]);
  }

  // ---------------------------------------------------------------------------
  // simplify

  /** The list length without its trailing zeros. */
  function TrimmedLength(p: Coeffs): (n: nat)
    ensures n <= |p| && (n == 0 || p[n - 1] != 0)
    ensures forall i :: n <= i < |p| ==> p[i] == 0
  {
    if |p| == 0 || p[|p| - 1] != 0 then |p| else TrimmedLength(p[..|p| - 1])
  }

  /** The number of zeros the list starts with. */
  function LeadingZeros(p: Coeffs): (n: nat)
    ensures n <= |p| && (n == |p| || p[n] != 0)
    ensures forall i :: 0 <= i < n ==> p[i] == 0
  {
    if |p| == 0 || p[0] != 0 then 0 else 1 + LeadingZeros(p[1..])
  }

  /** Neither list ends in a zero coefficient. */
  predicate NoTrailingZero(p: Coeffs) {
    |p| == 0 || p[|p| - 1] != 0
  }

  /** The common count of leading zeros simplify removes from both lists. */
  function SimplifyShift(num: Coeffs, den: Coeffs): nat {
    Min(LeadingZeros(num[..TrimmedLength(num)]), LeadingZeros(den[..TrimmedLength(den)]))
  }

  /** The divisor simplify uses: the gcd of every remaining coefficient when both lists keep
      some, else 1. */
  function SimplifyDivisor(num: Coeffs, den: Coeffs): (g: nat)
    ensures g > 0
  {
    var ns, ds, lz := TrimmedLength(num), TrimmedLength(den), SimplifyShift(num, den);
    if ns > lz && ds > lz then
      var s := num[lz..ns] + den[lz..ds];
      GcdSeqNonZero(s, ns - 1 - lz);
      GcdSeq(s)
    else 1
  }

  function DivideAll(p: Coeffs, g: nat): (r: Coeffs)
    requires g > 0
    ensures |r| == |p|
  {
    seq(|p|, i requires 0 <= i < |p| => p[i] / g)
  }

  lemma DivideAllSnoc(p: Coeffs, x: int, g: nat)
    requires g > 0
    ensures DivideAll(p + [x], g) == DivideAll(p, g) + [x / g]
  {
  }

  /** simplify: trailing zeros stripped, the common leading zeros removed, and every
      coefficient divided by the gcd. */
  function Simplified(num: Coeffs, den: Coeffs): (Coeffs, Coeffs) {
    var lz, g := SimplifyShift(num, den), SimplifyDivisor(num, den);
    (DivideAll(num[lz..TrimmedLength(num)], g), DivideAll(den[lz..TrimmedLength(den)], g))
  }

  lemma LeadingZerosUnique(p: Coeffs, k: nat)
    requires k <= |p| && (k == |p| || p[k] != 0) && forall i :: 0 <= i < k ==> p[i] == 0
    ensures LeadingZeros(p) == k
  {
  }

  /** The gcd phase of simplify: 1 unless both lists keep coefficients past the common
      leading zeros, else the running gcd over the numerator's and then the denominator's
      remaining coefficients. */
  method CommonDivisor(num: Coeffs, den: Coeffs, numSize: nat, denSize: nat, leadingZero: nat)
    returns (g: nat)
    requires numSize == TrimmedLength(num) && denSize == TrimmedLength(den)
    requires leadingZero == SimplifyShift(num, den)
    ensures g == SimplifyDivisor(num, den)
  {
    g := 1;
    if numSize > leadingZero && denSize > leadingZero {
      var numPart, denPart := num[leadingZero..numSize], den[leadingZero..denSize];
      g := GcdFold(0, [], numPart);
      assert [] + numPart == numPart;
      g := GcdFold(g, numPart, denPart);
      SimplifyDivisorGcd(num, den);
    }
  }

  /** One of simplify's two gcd loops: fold `s` into the running gcd `g0` of `prefix`. */
  method GcdFold(g0: nat, prefix: seq<int>, s: seq<int>) returns (g: nat)
    requires g0 == GcdSeq(prefix)
    ensures g == GcdSeq(prefix + s)
  {
    g := g0;
    assert prefix + s[..0] == prefix;
    for i := 0 to |s|
      invariant g == GcdSeq(prefix + s[..i])
    {
      GcdSeqSnoc(prefix + s[..i], s[i]);
      assert prefix + s[..i + 1] == prefix + s[..i] + [s[i]];
      g := Gcd(g, s[i]);
    }
    assert s[..|s|] == s;
  }

  lemma SimplifyDivisorGcd(num: Coeffs, den: Coeffs)
    requires TrimmedLength(num) > SimplifyShift(num, den) && TrimmedLength(den) > SimplifyShift(num, den)
    ensures var lz := SimplifyShift(num, den);
      SimplifyDivisor(num, den) == GcdSeq(num[lz..TrimmedLength(num)] + den[lz..TrimmedLength(den)])
  {
  }

  /** The "remove trailing zero" loop of simplify: shrink the size while the last kept
      coefficient is zero. */
  method TrimmedSize(p: Coeffs) returns (size: nat)
    ensures size == TrimmedLength(p)
  {
    size := |p|;
    while size > 0 && p[size - 1] == 0
      invariant size <= |p| && TrimmedLength(p[..size]) == TrimmedLength(p)
    {
      assert p[..size][..size - 1] == p[..size - 1];
      size := size - 1;
    }
  }

  /** The "factor out leading zero" loop of simplify: count the zeros before the first
      non-zero coefficient of the kept part. */
  method LeadingZeroCount(p: Coeffs, size: nat) returns (n: nat)
    requires size <= |p|
    ensures n == LeadingZeros(p[..size])
  {
    n := 0;
    while n < size && p[n] == 0
      invariant n <= size && forall i :: 0 <= i < n ==> p[i] == 0
    {
      n := n + 1;
    }
    LeadingZerosUnique(p[..size], n);
  }

  /** The pushing loop of simplify: p[from..to] with every coefficient divided by g. */
  method DividedRange(p: Coeffs, from: nat, to: nat, g: nat) returns (r: Coeffs)
    requires from <= to <= |p| && g > 0
    ensures r == DivideAll(p[from..to], g)
  {
    r := [];
    for i := 0 to to - from
      invariant r == DivideAll(p[from..from + i], g)
    {
      DivideAllSnoc(p[from..from + i], p[i + from], g);
      assert p[from..from + i + 1] == p[from..from + i] + [p[i + from]];
      r := r + [p[i + from] / g];
    }
  }

  /** simplify as the source writes it: the trailing-zero, leading-zero and gcd phases, then
      the divided coefficients pushed into fresh lists. */
  method Simplify(num: Coeffs, den: Coeffs) returns (newNum: Coeffs, newDen: Coeffs)
    ensures (newNum, newDen) == Simplified(num, den)
  {
    var numSize := TrimmedSize(num);
    var denSize := TrimmedSize(den);
    var leadingZeroNum := LeadingZeroCount(num, numSize);
    var leadingZeroDen := LeadingZeroCount(den, denSize);
    var leadingZero := Min(leadingZeroNum, leadingZeroDen);
    var g := CommonDivisor(num, den, numSize, denSize, leadingZero);
    newNum := DividedRange(num, leadingZero, numSize, g);
    newDen := DividedRange(den, leadingZero, denSize, g);
  }

  /** The trimmed list is the common shift followed by the divisor times the result. */
  lemma SimplifiedFactor(num: Coeffs, den: Coeffs)
    ensures var r, lz, g := Simplified(num, den), SimplifyShift(num, den), SimplifyDivisor(num, den);
      num[..TrimmedLength(num)] == Zeros(lz) + Scale(g, r.0)
      && den[..TrimmedLength(den)] == Zeros(lz) + Scale(g, r.1)
  {
    var lz, g := SimplifyShift(num, den), SimplifyDivisor(num, den);
    var ns, ds := TrimmedLength(num), TrimmedLength(den);
    DivisorDividesKept(num, den);
    KeptFactor(num[..ns], lz, g);
    KeptFactor(den[..ds], lz, g);
    assert num[..ns][lz..] == num[lz..ns];
    assert den[..ds][lz..] == den[lz..ds];
  }

  /** The divisor divides every coefficient simplify keeps. */
  lemma DivisorDividesKept(num: Coeffs, den: Coeffs)
    ensures var lz, g := SimplifyShift(num, den), SimplifyDivisor(num, den);
      (forall i :: lz <= i < TrimmedLength(num) ==> Divides(g, num[i]))
      && (forall i :: lz <= i < TrimmedLength(den) ==> Divides(g, den[i]))
  {
    var lz, g := SimplifyShift(num, den), SimplifyDivisor(num, den);
    var ns, ds := TrimmedLength(num), TrimmedLength(den);
    if ns > lz && ds > lz {
      var s := num[lz..ns] + den[lz..ds];
      SimplifyDivisorGcd(num, den);
      GcdSeqDivides(s);
      forall i | lz <= i < ns ensures Divides(g, num[i]) {
        assert s[i - lz] == num[i];
      }
      forall i | lz <= i < ds ensures Divides(g, den[i]) {
        assert s[ns - lz + (i - lz)] == den[i];
      }
    } else {
      forall x: int ensures Divides(1, x) {
        DividesMultiple(1, x);
        assert x * 1 == x;
      }
    }
  }

  /** A list that is zero before lz and divisible by g from lz on factors as the shift by
      lz of g times its divided tail. */
  lemma KeptFactor(p: Coeffs, lz: nat, g: nat)
    requires g > 0 && lz <= |p|
    requires forall i :: 0 <= i < lz ==> p[i] == 0
    requires forall i :: lz <= i < |p| ==> Divides(g, p[i])
    ensures p == Zeros(lz) + Scale(g, DivideAll(p[lz..], g))
  {
    var q := DivideAll(p[lz..], g);
    forall i | lz <= i < |p| ensures p[i] == g * q[i - lz] {
      DividesQuotient(g, p[i]);
    }
    FactorShape(p, lz, g, q);
  }

  lemma FactorShape(p: Coeffs, lz: nat, g: int, q: Coeffs)
    requires lz + |q| == |p|
    requires forall i :: 0 <= i < lz ==> p[i] == 0
    requires forall i :: lz <= i < |p| ==> p[i] == g * q[i - lz]
    ensures p == Zeros(lz) + Scale(g, q)
  {
  }

  /** Trailing zeros do not change the polynomial. */
  lemma EvalTrim(p: Coeffs, t: int)
    ensures Eval(p, t) == Eval(p[..TrimmedLength(p)], t)
  {
    var n := TrimmedLength(p);
    assert p == p[..n] + p[n..];
    EvalAppend(p[..n], p[n..], t);
    EvalIsZero(p[n..], t);
  }

  /** simplify's result is in normal form: neither list ends in zero, and the two do not
      both start with zero. */
  lemma SimplifiedShape(num: Coeffs, den: Coeffs)
    ensures var r := Simplified(num, den);
      NoTrailingZero(r.0) && NoTrailingZero(r.1)
      && (r.0 == [] || r.1 == [] || r.0[0] != 0 || r.1[0] != 0)
  {
    var r, lz, g := Simplified(num, den), SimplifyShift(num, den), SimplifyDivisor(num, den);
    var kn, kd := num[..TrimmedLength(num)], den[..TrimmedLength(den)];
    SimplifiedFactor(num, den);
    KeptShape(num, den);
    FactoredShape(kn, kd, lz, g, r.0, r.1);
  }

  /** What simplify keeps ends in a non-zero coefficient, and the shift is the leading-zero
      count of one of the two lists. */
  lemma KeptShape(num: Coeffs, den: Coeffs)
    ensures var kn, kd := num[..TrimmedLength(num)], den[..TrimmedLength(den)];
      NoTrailingZero(kn) && NoTrailingZero(kd)
      && (SimplifyShift(num, den) == LeadingZeros(kn) || SimplifyShift(num, den) == LeadingZeros(kd))
  {
  }

  lemma FactoredShape(kn: Coeffs, kd: Coeffs, lz: nat, g: nat, q0: Coeffs, q1: Coeffs)
    requires NoTrailingZero(kn) && NoTrailingZero(kd)
    requires kn == Zeros(lz) + Scale(g, q0) && kd == Zeros(lz) + Scale(g, q1)
    requires lz == LeadingZeros(kn) || lz == LeadingZeros(kd)
    ensures NoTrailingZero(q0) && NoTrailingZero(q1)
    ensures q0 == [] || q1 == [] || q0[0] != 0 || q1[0] != 0
  {
    PartShape(kn, lz, g, q0);
    PartShape(kd, lz, g, q1);
  }

  /** The shape of one simplified list, read off its factorisation. */
  lemma PartShape(p: Coeffs, lz: nat, g: nat, q: Coeffs)
    requires NoTrailingZero(p) && p == Zeros(lz) + Scale(g, q)
    ensures NoTrailingZero(q)
    ensures |q| > 0 && lz == LeadingZeros(p) ==> q[0] != 0
  {
    if |q| > 0 {
      assert p[|p| - 1] == g * q[|q| - 1];
      assert p[lz] == g * q[0];
    }
  }

  /** The value of a list read off its factorisation. */
  lemma EvalFactored(p: Coeffs, lz: nat, g: nat, q: Coeffs, t: int)
    requires p[..TrimmedLength(p)] == Zeros(lz) + Scale(g, q)
    ensures Eval(p, t) == Pow(t, lz) * g * Eval(q, t)
  {
    EvalTrim(p, t);
    EvalRow(lz, g, q, t);
  }

  /** simplify keeps the quotient: cross-multiplying input and output agree at every
      point. */
  lemma SimplifiedQuotient(num: Coeffs, den: Coeffs, t: int)
    ensures var r := Simplified(num, den);
      Eval(num, t) * Eval(r.1, t) == Eval(r.0, t) * Eval(den, t)
  {
    var r, lz, g := Simplified(num, den), SimplifyShift(num, den), SimplifyDivisor(num, den);
    SimplifiedFactor(num, den);
    EvalFactored(num, lz, g, r.0, t);
    EvalFactored(den, lz, g, r.1, t);
    CrossCancel(Pow(t, lz) * g, Eval(r.0, t), Eval(r.1, t));
  }

  lemma CrossCancel(k: int, a: int, b: int)
    ensures (k * a) * b == a * (k * b)
  {
  }

  // ---------------------------------------------------------------------------
  // Cancellation: a product of non-zero polynomials is non-zero.

  lemma {:induction false} RowsTop(a: Coeffs, b: Coeffs, m: nat)
    requires 0 < |a| && 0 < |b| && m < |a|
    ensures Rows(a, b, m)[|a| + |b| - 2] == 0
    decreases m
  {
    if m > 0 {
      RowsTop(a, b, m - 1);
      RowsStep(a, b, m - 1, |a| + |b| - 2);
    }
  }

  /** The top coefficient of a product is the product of the top coefficients. */
  lemma ConvolutionTop(a: Coeffs, b: Coeffs)
    requires 0 < |a| && 0 < |b|
    ensures Convolution(a, b)[|a| + |b| - 2] == a[|a| - 1] * b[|b| - 1]
  {
    RowsTop(a, b, |a| - 1);
    RowsStep(a, b, |a| - 1, |a| + |b| - 2);
  }

  lemma NonZeroFactors(x: int, y: int)
    requires x != 0 && y != 0
    ensures x * y != 0
  {
    if x > 0 && y > 0 {
      MulAtLeast(x, y);
    } else if x > 0 {
      MulAtLeast(x, -y);
    } else if y > 0 {
      MulAtLeast(-x, y);
    } else {
      MulAtLeast(-x, -y);
    }
  }

  /** A list with some non-zero coefficient keeps one after trimming, at its end. */
  lemma TrimmedNonZero(p: Coeffs)
    requires !IsZero(p)
    ensures TrimmedLength(p) > 0 && p[TrimmedLength(p) - 1] != 0
  {
  }

  /** The product of two non-zero polynomials is non-zero. */
  lemma ProductNonZero(a: Coeffs, b: Coeffs)
    requires !IsZero(a) && !IsZero(b)
    ensures !IsZero(Convolution(a, b))
  {
    var a', b' := a[..TrimmedLength(a)], b[..TrimmedLength(b)];
    TrimmedNonZero(a);
    TrimmedNonZero(b);
    ConvolutionTop(a', b');
    NonZeroFactors(a'[|a'| - 1], b'[|b'| - 1]);
    var c, c' := Convolution(a, b), Convolution(a', b');
    if IsZero(c) {
      forall t: int | t > 0
        ensures Eval(c', t) == 0
      {
        EvalConvolution(a, b, t);
        EvalConvolution(a', b', t);
        EvalTrim(a, t);
        EvalTrim(b, t);
        EvalIsZero(c, t);
      }
      VanishingIsZero(c');
    }
  }

  /** Two lists denote the same polynomial: they agree at every positive point. */
  ghost predicate SamePoly(p: Coeffs, q: Coeffs) {
    forall t: int :: t > 0 ==> Eval(p, t) == Eval(q, t)
  }

  lemma DifferenceFactor(x: int, y: int, z: int)
    ensures (x - y) * z == x * z - y * z
  {
  }

  /** A non-zero polynomial factor cancels. */
  lemma Cancel(p: Coeffs, r: Coeffs, q: Coeffs)
    requires !IsZero(q)
    requires forall t: int :: t > 0 ==> Eval(p, t) * Eval(q, t) == Eval(r, t) * Eval(q, t)
    ensures SamePoly(p, r)
  {
    var x := Combine(p, r, false);
    forall t: int | t > 0
      ensures Eval(Convolution(x, q), t) == 0
    {
      EvalConvolution(x, q, t);
      EvalCombine(p, r, false, t);
      DifferenceFactor(Eval(p, t), Eval(r, t), Eval(q, t));
    }
    VanishingIsZero(Convolution(x, q));
    if !IsZero(x) {
      ProductNonZero(x, q);
    }
    forall t: int | t > 0
      ensures Eval(p, t) == Eval(r, t)
    {
      EvalIsZero(x, t);
      EvalCombine(p, r, false, t);
    }
  }

  /** Lists denoting the same polynomial agree coefficient by coefficient. */
  lemma SamePolyCoefficients(p: Coeffs, q: Coeffs)
    requires SamePoly(p, q)
    ensures forall i: nat :: Get(p, i) == Get(q, i)
  {
    var x := Combine(p, q, false);
    forall t: int | t > 0
      ensures Eval(x, t) == 0
    {
      EvalCombine(p, q, false, t);
    }
    VanishingIsZero(x);
    forall i: nat
      ensures Get(p, i) == Get(q, i)
    {
      if i < |x| {
        assert x[i] == Get(p, i) - Get(q, i);
      }
    }
  }
}
