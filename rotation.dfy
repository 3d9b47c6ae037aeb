/** Rotations of a name and the lexicographically least one, found with a KMP failure
    function over the doubled text (lib/number.cpp, RotateableIndex and
    lexicographically_minimal_rotation). Characters are ordered by code point. */
module Rotation {
  import opened Arith

  /** s rotated left by x: character j is s[(j + x) mod |s|]. */
  function Rotate(s: string, x: nat): (r: string)
    ensures |r| == |s|
  {
    seq(|s|, j requires 0 <= j < |s| => s[(j + x) % |s|])
  }

  /** Strict lexicographic order: a is below b at their first difference. */
  predicate LexLess(a: string, b: string) {
    0 < |a| && 0 < |b| && (a[0] < b[0] || (a[0] == b[0] && LexLess(a[1..], b[1..])))
  }

  /** All rotations of s, indexed by offset. */
  function Rotations(s: string): (rs: seq<string>)
    ensures |rs| == |s|
  {
    seq(|s|, x requires 0 <= x < |s| => Rotate(s, x))
  }

  /** Index m holds a string lexicographically at most every string of rs, and no
      smaller index holds the same string. */
  predicate IsFirstLeast(rs: seq<string>, m: nat) {
    m < |rs|
    && (forall y :: 0 <= y < |rs| ==> !LexLess(rs[y], rs[m]))
    && (forall y :: 0 <= y < m ==> rs[y] != rs[m])
  }

  /** Offset m selects a rotation that is lexicographically at most every rotation. */
  predicate IsLeastRotation(s: string, m: nat) {
    m < |s| && forall x :: 0 <= x < |s| ==> !LexLess(Rotate(s, x), Rotate(s, m))
  }

  /** ... and no smaller offset selects the same text. */
  predicate IsFirstLeastRotation(s: string, m: nat) {
    IsLeastRotation(s, m) && forall x :: 0 <= x < m ==> Rotate(s, x) != Rotate(s, m)
  }

  /** Offset x is beaten by some rotation. */
  predicate NotLeast(s: string, x: nat) {
    exists y :: 0 <= y < |s| && LexLess(Rotate(s, y), Rotate(s, x))
  }

  /** The brute-force oracle of the test suite: scan the candidates in order and keep the
      first one that is strictly smaller than the best so far. */
  function ScanLeast(rs: seq<string>, x: nat, best: nat): nat
    requires x <= |rs| && best < |rs|
    decreases |rs| - x
  {
    if x == |rs| then best
    else ScanLeast(rs, x + 1, if LexLess(rs[x], rs[best]) then x else best)
  }

  function BruteForceLeastRotation(s: string): nat {
    if |s| == 0 then 0 else ScanLeast(Rotations(s), 0, 0)
  }

  /** A view of a text through a rotation offset: index i reads the text at
      (i + offset) mod |text|, and rotating adds to the offset. */
  datatype RotatableIndex = RotatableIndex(text: string, offset: nat) {
    function At(i: nat): char
      requires |text| > 0
    {
      text[(i + offset) % |text|]
    }

    function Rotated(n: nat): (r: RotatableIndex)
      ensures r.text == text
    {
      RotatableIndex(text, offset + n)
    }

    /** The characters an iteration from begin() to end() visits. */
    function Contents(): (c: string)
      ensures c == Rotate(text, offset)
      ensures |text| > 0 ==> c == text[offset % |text|..] + text[..offset % |text|]
    {
      var c := seq(|text|, j requires 0 <= j < |text| => At(j));
      if |text| > 0 then RotateSplice(text, offset); c else c
    }
  }

  /** Rotating left by x moves the first x mod |s| characters to the end. */
  lemma RotateSplice(s: string, x: nat)
    requires |s| > 0
    ensures Rotate(s, x) == s[x % |s|..] + s[..x % |s|]
  {
    var n, o := |s|, x % |s|;
    forall j | 0 <= j < n ensures Rotate(s, x)[j] == (s[o..] + s[..o])[j] {
      ModAdd(j, x, n);
      if j + o < n {
        DivModUnique(j + o, n, 0, j + o);
      } else {
        ModSub(j + o, n);
      }
    }
  }

  lemma ModAdd(a: nat, b: nat, n: nat)
    requires n > 0
    ensures (a + b) % n == (a + b % n) % n
  {
    var q := b / n;
    assert b == q * n + b % n;
    ModMultiple(a + b % n, q, n);
  }

  lemma {:induction false} ModMultiple(a: nat, q: nat, n: nat)
    requires n > 0
    ensures (a + q * n) % n == a % n
    decreases q
  {
    if q > 0 {
      ModMultiple(a, q - 1, n);
      ModPlusPeriod(a + (q - 1) * n, n);
    }
  }

  lemma ModPlusPeriod(a: nat, n: nat)
    requires n > 0
    ensures (a + n) % n == a % n
  {
    var q := a / n;
    assert a == q * n + a % n;
    assert a + n == (q + 1) * n + a % n;
    DivModUnique(a + n, n, q + 1, a % n);
  }

  lemma ModSub(a: nat, n: nat)
    requires n <= a < 2 * n
    ensures a % n == a - n
  {
    DivModUnique(a, n, 1, a - n);
  }

  lemma Periodic(r: RotatableIndex, i: nat)
    requires |r.text| > 0
    ensures r.At(i + |r.text|) == r.At(i)
  {
    ModMultiple(i + r.offset, 1, |r.text|);
  }

  // ---------------------------------------------------------------------------
  // Properties of the order.

  /** A common prefix of length k followed by a smaller character orders two strings... */
  lemma {:induction false} LexLessAt(a: string, b: string, k: nat)
    requires k < |a| && k < |b| && a[..k] == b[..k] && a[k] < b[k]
    ensures LexLess(a, b)
    decreases k
  {
    if k > 0 {
      assert a[0] == a[..k][0] == b[..k][0] == b[0];
      assert a[1..][..k - 1] == a[1..k] == a[..k][1..];
      assert b[1..][..k - 1] == b[1..k] == b[..k][1..];
      LexLessAt(a[1..], b[1..], k - 1);
    }
  }

  /** ... and every ordered pair has such a position. */
  lemma {:induction false} LexLessWitness(a: string, b: string) returns (k: nat)
    requires LexLess(a, b)
    ensures k < |a| && k < |b| && a[..k] == b[..k] && a[k] < b[k]
    decreases |a|
  {
    if a[0] < b[0] {
      k := 0;
    } else {
      var k' := LexLessWitness(a[1..], b[1..]);
      k := k' + 1;
      assert a[..k] == [a[0]] + a[1..][..k'];
      assert b[..k] == [b[0]] + b[1..][..k'];
    }
  }

  lemma {:induction false} LexLessAsym(a: string, b: string)
    requires LexLess(a, b)
    ensures !LexLess(b, a) && a != b
    decreases |a|
  {
    if a[0] == b[0] {
      LexLessAsym(a[1..], b[1..]);
    }
  }

  lemma {:induction false} LexLessTrans(a: string, b: string, c: string)
    requires LexLess(a, b) && LexLess(b, c)
    ensures LexLess(a, c)
    decreases |a|
  {
    if a[0] == b[0] == c[0] {
      LexLessTrans(a[1..], b[1..], c[1..]);
    }
  }

  /** Equal-length strings are equal or ordered one way. */
  lemma {:induction false} LexTotal(a: string, b: string)
    requires |a| == |b|
    ensures a == b || LexLess(a, b) || LexLess(b, a)
    decreases |a|
  {
    if |a| > 0 && a[0] == b[0] {
      LexTotal(a[1..], b[1..]);
      if a[1..] == b[1..] {
        assert a == [a[0]] + a[1..] && b == [b[0]] + b[1..];
      }
    }
  }

  // ---------------------------------------------------------------------------
  // The brute-force oracle finds the first least rotation.

  lemma {:induction false} ScanLeastCorrect(rs: seq<string>, x: nat, best: nat)
    requires forall y :: 0 <= y < |rs| ==> |rs[y]| == |rs[0]|
    requires x <= |rs| && best < |rs|
    requires best < x || best == x == 0
    requires forall y :: 0 <= y < x ==> !LexLess(rs[y], rs[best])
    requires forall y :: 0 <= y < best ==> LexLess(rs[best], rs[y])
    ensures IsFirstLeast(rs, ScanLeast(rs, x, best))
    decreases |rs| - x
  {
    if x == |rs| {
      forall y | 0 <= y < best
        ensures rs[y] != rs[best]
      {
        LexLessAsym(rs[best], rs[y]);
      }
    } else if LexLess(rs[x], rs[best]) {
      forall y | 0 <= y < x + 1
        ensures !LexLess(rs[y], rs[x])
      {
        LexLessIrreflexive(rs[x]);
        if LexLess(rs[y], rs[x]) {
          LexLessTrans(rs[y], rs[x], rs[best]);
        }
      }
      forall y | 0 <= y < x
        ensures LexLess(rs[x], rs[y])
      {
        assert |rs[best]| == |rs[0]| == |rs[y]|;
        LexTotal(rs[best], rs[y]);
        if LexLess(rs[best], rs[y]) {
          LexLessTrans(rs[x], rs[best], rs[y]);
        }
      }
      ScanLeastCorrect(rs, x + 1, x);
    } else {
      ScanLeastCorrect(rs, x + 1, best);
    }
  }

  /** The oracle returns the first offset of a least rotation, and 0 for the empty text. */
  lemma BruteForceLeastRotationCorrect(s: string)
    ensures |s| == 0 ==> BruteForceLeastRotation(s) == 0
    ensures |s| > 0 ==> IsFirstLeastRotation(s, BruteForceLeastRotation(s))
  {
    if |s| > 0 {
      var rs := Rotations(s);
      ScanLeastCorrect(rs, 0, 0);
      var m := ScanLeast(rs, 0, 0);
      assert forall y :: 0 <= y < |s| ==> rs[y] == Rotate(s, y);
    }
  }

  /** There is only one first least rotation. */
  lemma FirstLeastRotationUnique(s: string, m1: nat, m2: nat)
    requires IsFirstLeastRotation(s, m1) && IsFirstLeastRotation(s, m2)
    ensures m1 == m2
  {
    LexTotal(Rotate(s, m1), Rotate(s, m2));
  }

  // ---------------------------------------------------------------------------
  // Borders of prefixes of the rotated text.

  /** Character j of the view shifted by q. */
  ghost function Shifted(r: RotatableIndex, q: nat, j: nat): char
    requires |r.text| > 0
  {
    r.At(q + j)
  }

  /** r[q..q+k) == r[0..k). */
  ghost predicate Agree(r: RotatableIndex, q: nat, k: nat)
    requires |r.text| > 0
  {
    forall j: nat {:trigger Shifted(r, q, j)} :: j < k ==> Shifted(r, q, j) == r.At(j)
  }

  /** b is a proper border of r[0..i): r[0..b) == r[i-b..i). */
  ghost predicate Border(r: RotatableIndex, i: nat, b: nat)
    requires |r.text| > 0
  {
    b < i && Agree(r, i - b, b)
  }

  /** v is the longest proper border of r[0..i). */
  ghost predicate LongestBorder(r: RotatableIndex, i: nat, v: nat)
    requires |r.text| > 0
  {
    Border(r, i, v) && forall b: nat {:trigger Border(r, i, b)} :: v < b ==> !Border(r, i, b)
  }

  /** Every border of r[0..i) longer than p is followed by a character below r[i]. */
  ghost predicate LongerBordersBelow(r: RotatableIndex, i: nat, p: nat)
    requires |r.text| > 0
  {
    forall b: nat {:trigger Border(r, i, b)} :: p < b && Border(r, i, b) ==> r.At(i) > r.At(b)
  }

  /** Within r[0..i) no suffix starting at q > 0 falls below r at its first difference. */
  ghost predicate NoSmaller(r: RotatableIndex, i: nat)
    requires |r.text| > 0
  {
    forall q: nat, k: nat {:trigger Agree(r, q, k)} ::
      0 < q && q + k < i && Agree(r, q, k) ==> Shifted(r, q, k) >= r.At(k)
  }

  /** Offsets below x all select a rotation that some other rotation beats. */
  ghost predicate SkippedNotLeast(s: string, x: nat) {
    forall y: nat :: y < x ==> NotLeast(s, y)
  }

  lemma AgreeAt(r: RotatableIndex, q: nat, k: nat, j: nat)
    requires |r.text| > 0 && Agree(r, q, k) && j < k
    ensures r.At(q + j) == r.At(j)
  {
    assert Shifted(r, q, j) == r.At(j);
  }

  lemma BorderOfBorder(r: RotatableIndex, i: nat, p: nat, b: nat)
    requires |r.text| > 0 && Border(r, i, p) && Border(r, i, b) && b < p
    ensures Border(r, p, b)
  {
    var q := p - b;
    forall j: nat | j < b
      ensures Shifted(r, q, j) == r.At(j)
    {
      AgreeAt(r, i - p, p, p - b + j);
      AgreeAt(r, i - b, b, j);
    }
  }

  /** A border of a border is a border. */
  lemma BorderTransitive(r: RotatableIndex, i: nat, p: nat, b: nat)
    requires |r.text| > 0 && Border(r, i, p) && Border(r, p, b)
    ensures Border(r, i, b)
  {
    var q := i - b;
    forall j: nat | j < b
      ensures Shifted(r, q, j) == r.At(j)
    {
      AgreeAt(r, p - b, b, j);
      AgreeAt(r, i - p, p, p - b + j);
    }
  }

  lemma ShrinkBorder(r: RotatableIndex, i: nat, b: nat)
    requires |r.text| > 0 && Border(r, i + 1, b) && b >= 1
    ensures Border(r, i, b - 1) && r.At(i) == r.At(b - 1)
  {
    var q := i + 1 - b;
    AgreeAt(r, q, b, b - 1);
    forall j: nat | j < b - 1
      ensures Shifted(r, q, j) == r.At(j)
    {
      AgreeAt(r, q, b, j);
    }
  }

  lemma ExtendBorder(r: RotatableIndex, i: nat, p: nat)
    requires |r.text| > 0 && Border(r, i, p) && r.At(i) == r.At(p)
    ensures Border(r, i + 1, p + 1)
  {
    var q := i - p;
    forall j: nat | j < p + 1
      ensures Shifted(r, q, j) == r.At(j)
    {
      if j < p {
        AgreeAt(r, q, p, j);
      }
    }
  }

  /** If r[q..q+k) == r[0..k) fails, there is a first mismatch below k. */
  lemma FirstMismatch(r: RotatableIndex, q: nat, k: nat) returns (m: nat)
    requires |r.text| > 0 && !Agree(r, q, k)
    ensures m < k && Agree(r, q, m) && r.At(q + m) != r.At(m)
  {
    m := 0;
    while r.At(q + m) == r.At(m)
      invariant m < k && Agree(r, q, m)
      decreases k - m
    {
      assert Shifted(r, q, m) == r.At(m);
      m := m + 1;
    }
  }

  /** A shift that agrees with the text for a whole period agrees everywhere. */
  lemma {:induction false} AgreeForever(r: RotatableIndex, q: nat, j: nat)
    requires |r.text| > 0 && Agree(r, q, |r.text|)
    ensures r.At(q + j) == r.At(j)
    decreases j
  {
    var n := |r.text|;
    if j >= n {
      AgreeForever(r, q, j - n);
      Periodic(r, q + j - n);
      Periodic(r, j - n);
    } else {
      AgreeAt(r, q, n, j);
    }
  }

  /** A mismatch after a common prefix orders the two rotations (index q of r against
      index 0 of r); the common prefix is then shorter than a period. */
  lemma MismatchOrders(r: RotatableIndex, q: nat, k: nat)
    requires |r.text| > 0 && Agree(r, q, k) && r.At(q + k) != r.At(k)
    ensures k < |r.text|
    ensures r.At(q + k) < r.At(k) ==> LexLess(r.Rotated(q).Contents(), r.Contents())
    ensures r.At(q + k) > r.At(k) ==> LexLess(r.Contents(), r.Rotated(q).Contents())
  {
    var n := |r.text|;
    if k >= n {
      forall j: nat | j < n ensures Shifted(r, q, j) == r.At(j) {
        AgreeAt(r, q, k, j);
      }
      AgreeForever(r, q, k);
      assert false;
    }
    var a := r.Rotated(q).Contents();
    var b := r.Contents();
    assert a[..k] == b[..k] by {
      forall j | 0 <= j < k ensures a[j] == b[j] {
        AgreeAt(r, q, k, j);
      }
    }
    assert a[k] == r.At(q + k) && b[k] == r.At(k);
    if a[k] < b[k] {
      LexLessAt(a, b, k);
    } else {
      LexLessAt(b, a, k);
    }
  }

  lemma RotateMod(s: string, x: nat)
    requires |s| > 0
    ensures Rotate(s, x) == Rotate(s, x % |s|)
  {
    forall j | 0 <= j < |s| ensures Rotate(s, x)[j] == Rotate(s, x % |s|)[j] {
      ModAdd(j, x, |s|);
    }
  }

  /** At the end of the scan, NoSmaller over the doubled text makes the current offset a
      least rotation. */
  lemma NoSmallerGivesLeast(r: RotatableIndex)
    requires |r.text| > 0 && r.offset < |r.text| && NoSmaller(r, 2 * |r.text|)
    ensures IsLeastRotation(r.text, r.offset)
  {
    var s, n, o := r.text, |r.text|, r.offset;
    forall x | 0 <= x < n
      ensures !LexLess(Rotate(s, x), Rotate(s, o))
    {
      var q: nat := if x >= o then x - o else x + n - o;
      assert (o + q) % n == x by {
        if x < o { ModSub(o + q, n); }
      }
      RotateMod(s, o + q);
      assert Rotate(s, x) == r.Rotated(q).Contents();
      NoSmallerBeats(r, q);
    }
  }

  /** No shift by less than a period yields a smaller rotation than the view itself. */
  lemma NoSmallerBeats(r: RotatableIndex, q: nat)
    requires |r.text| > 0 && q < |r.text| && NoSmaller(r, 2 * |r.text|)
    ensures !LexLess(r.Rotated(q).Contents(), r.Contents())
  {
    var n := |r.text|;
    var a, b := r.Rotated(q).Contents(), r.Contents();
    if q > 0 && !Agree(r, q, n) {
      var m := FirstMismatch(r, q, n);
      assert Shifted(r, q, m) >= r.At(m);
      MismatchOrders(r, q, m);
      if LexLess(a, b) {
        LexLessAsym(a, b);
      }
    } else if q > 0 {
      forall j | 0 <= j < n ensures a[j] == b[j] {
        AgreeAt(r, q, n, j);
      }
      assert a == b;
      LexLessIrreflexive(a);
    } else {
      assert a == b;
      LexLessIrreflexive(a);
    }
  }

  lemma {:induction false} LexLessIrreflexive(a: string)
    ensures !LexLess(a, a)
    decreases |a|
  {
    if |a| > 0 {
      LexLessIrreflexive(a[1..]);
    }
  }

  /** Every offset in (o, o + i - p) that the failure function has skipped over selects a
      rotation larger than the one at o. */
  lemma SkippedLarger(r: RotatableIndex, i: nat, p: nat, d: nat)
    requires |r.text| > 0 && NoSmaller(r, i) && Border(r, i, p) && LongerBordersBelow(r, i, p)
    requires 0 < d < i - p
    ensures LexLess(r.Contents(), r.Rotated(d).Contents())
  {
    if Agree(r, d, i - d) {
      assert Border(r, i, i - d);
      assert r.At(d + (i - d)) > r.At(i - d);
      MismatchOrders(r, d, i - d);
    } else {
      var m := FirstMismatch(r, d, i - d);
      assert Shifted(r, d, m) >= r.At(m);
      MismatchOrders(r, d, m);
    }
  }

  // ---------------------------------------------------------------------------
  // Steps of the failure-function scan.

  lemma MatchStep(r: RotatableIndex, i: nat, p: nat)
    requires |r.text| > 0 && Border(r, i, p) && r.At(i) == r.At(p) && NoSmaller(r, i)
    requires LongerBordersBelow(r, i, p)
    ensures LongestBorder(r, i + 1, p + 1) && NoSmaller(r, i + 1)
  {
    ExtendBorder(r, i, p);
    var next := i + 1;
    forall b: nat | p + 1 < b
      ensures !Border(r, next, b)
    {
      if Border(r, next, b) {
        ShrinkBorder(r, i, b);
      }
    }
    forall q: nat, k: nat | 0 < q && q + k < next && Agree(r, q, k)
      ensures Shifted(r, q, k) >= r.At(k)
    {
      if q + k == i {
        assert Border(r, i, k);
        if k < p {
          BorderOfBorder(r, i, p, k);
          assert Agree(r, p - k, k);
          assert Shifted(r, p - k, k) >= r.At(k);
        }
      }
    }
  }

  lemma MismatchStep(r: RotatableIndex, i: nat)
    requires |r.text| > 0 && 0 < i && r.At(i) > r.At(0) && NoSmaller(r, i)
    requires LongerBordersBelow(r, i, 0)
    ensures LongestBorder(r, i + 1, 0) && NoSmaller(r, i + 1)
  {
    var next := i + 1;
    assert Border(r, next, 0);
    forall b: nat | 0 < b
      ensures !Border(r, next, b)
    {
      if Border(r, next, b) {
        ShrinkBorder(r, i, b);
      }
    }
    forall q: nat, k: nat | 0 < q && q + k < next && Agree(r, q, k)
      ensures Shifted(r, q, k) >= r.At(k)
    {
      if q + k == i {
        assert Border(r, i, k);
      }
    }
  }

  /** Agreement within a prefix depends only on the characters of that prefix. */
  lemma SamePrefixAgree(r: RotatableIndex, r': RotatableIndex, len: nat, q: nat, k: nat)
    requires |r.text| > 0 && |r'.text| > 0
    requires forall m: nat :: m < len ==> r.At(m) == r'.At(m)
    requires q + k <= len
    ensures Agree(r, q, k) <==> Agree(r', q, k)
  {
    if Agree(r, q, k) {
      forall j: nat | j < k ensures Shifted(r', q, j) == r'.At(j) {
        AgreeAt(r, q, k, j);
      }
    }
    if Agree(r', q, k) {
      forall j: nat | j < k ensures Shifted(r, q, j) == r.At(j) {
        AgreeAt(r', q, k, j);
      }
    }
  }

  /** Failure values and NoSmaller over a prefix carry over to a text that agrees on it. */
  lemma SamePrefix(r: RotatableIndex, r': RotatableIndex, len: nat, fs: seq<nat>)
    requires |r.text| > 0 && |r'.text| > 0
    requires forall m: nat :: m < len ==> r.At(m) == r'.At(m)
    requires FailureTable(r, fs, len) && NoSmaller(r, len)
    ensures FailureTable(r', fs, len) && NoSmaller(r', len)
  {
    forall j: nat | j < len
      ensures LongestBorder(r', j + 1, fs[j])
    {
      var len' := j + 1;
      assert LongestBorder(r, len', fs[j]);
      SamePrefixAgree(r, r', len, len' - fs[j], fs[j]);
      forall b: nat | fs[j] < b
        ensures !Border(r', len', b)
      {
        if b < len' {
          SamePrefixAgree(r, r', len, len' - b, b);
          assert !Border(r, len', b);
        }
      }
    }
    forall q: nat, k: nat | 0 < q && q + k < len && Agree(r', q, k)
      ensures Shifted(r', q, k) >= r'.At(k)
    {
      SamePrefixAgree(r, r', len, q, k);
      assert Shifted(r, q, k) >= r.At(k);
    }
  }

  /** When r[i] < r[p] for the border p reached by the failure chain, the rotation by
      i - p is below the rotation by every offset in [0, i - p). */
  lemma ResetBeats(r: RotatableIndex, i: nat, p: nat, e: nat)
    requires |r.text| > 0 && Border(r, i, p) && r.At(i) < r.At(p) && NoSmaller(r, i)
    requires LongerBordersBelow(r, i, p)
    requires e < i - p
    ensures LexLess(r.Rotated(i - p).Contents(), r.Rotated(e).Contents())
  {
    var d := i - p;
    assert Agree(r, d, p);
    MismatchOrders(r, d, p);
    if e > 0 {
      SkippedLarger(r, i, p, e);
      LexLessTrans(r.Rotated(d).Contents(), r.Contents(), r.Rotated(e).Contents());
    } else {
      assert r.Rotated(0) == r;
    }
  }

  /** No offset at or past the first least rotation is known to be beaten. */
  lemma SkippedBelowLeast(s: string, k: nat)
    requires |s| > 0 && SkippedNotLeast(s, k)
    ensures k <= BruteForceLeastRotation(s) < |s|
  {
    var m := BruteForceLeastRotation(s);
    BruteForceLeastRotationCorrect(s);
    assert !NotLeast(s, m);
  }

  /** After the reset every offset below the new one is beaten, and the new offset stays
      below |s|. */
  lemma ResetStep(r: RotatableIndex, i: nat, p: nat)
    requires |r.text| > 0 && Border(r, i, p) && r.At(i) < r.At(p)
    requires NoSmaller(r, i) && SkippedNotLeast(r.text, r.offset)
    requires LongerBordersBelow(r, i, p)
    ensures SkippedNotLeast(r.text, r.offset + (i - p))
    ensures r.offset + (i - p) < |r.text|
  {
    var s, n, o, d := r.text, |r.text|, r.offset, i - p;
    var y := (o + d) % n;
    RotateMod(s, o + d);
    forall x: nat | x < o + d
      ensures NotLeast(s, x)
    {
      if x >= o {
        ResetBeats(r, i, p, x - o);
        assert LexLess(Rotate(s, y), Rotate(s, x));
      }
    }
    SkippedBelowLeast(s, o + d);
  }

  /** fs[j] is the longest proper border of r[0..j] for every j < i. */
  ghost predicate FailureTable(r: RotatableIndex, fs: seq<nat>, i: nat)
    requires |r.text| > 0
  {
    i <= |fs| && forall j: nat :: j < i ==> LongestBorder(r, j + 1, fs[j])
  }

  lemma FailureEntry(r: RotatableIndex, fs: seq<nat>, i: nat, j: nat)
    requires |r.text| > 0 && FailureTable(r, fs, i) && j < i
    ensures LongestBorder(r, j + 1, fs[j]) && fs[j] <= j
  {
  }

  lemma FailureExtend(r: RotatableIndex, fs: seq<nat>, i: nat, v: nat)
    requires |r.text| > 0 && FailureTable(r, fs, i) && i < |fs| && LongestBorder(r, i + 1, v)
    ensures FailureTable(r, fs[i := v], i + 1)
  {
  }

  /** The failure chain: from a border p of r[0..i), the next shorter candidate is the
      longest border of r[0..p), and no border in between was skipped. */
  lemma ChainStep(r: RotatableIndex, i: nat, p: nat, next: nat)
    requires |r.text| > 0 && 0 < p && Border(r, i, p) && LongestBorder(r, p, next)
    requires r.At(i) > r.At(p) && LongerBordersBelow(r, i, p)
    ensures Border(r, i, next) && LongerBordersBelow(r, i, next)
  {
    forall b: nat | next < b && Border(r, i, b)
      ensures r.At(i) > r.At(b)
    {
      if b < p {
        BorderOfBorder(r, i, p, b);
      }
    }
    BorderTransitive(r, i, p, next);
  }

  /** After the reset the table prefix and NoSmaller still hold for the rotated view. */
  lemma ResetTable(r: RotatableIndex, fs: seq<nat>, i: nat, p: nat)
    requires |r.text| > 0 && 0 < i && FailureTable(r, fs, i) && NoSmaller(r, i) && Border(r, i, p)
    ensures var i' := if p > 0 then p else 1;
      FailureTable(r.Rotated(i - p), fs, i') && NoSmaller(r.Rotated(i - p), i')
  {
    var r' := r.Rotated(i - p);
    if p > 0 {
      forall m: nat | m < p ensures r.At(m) == r'.At(m) {
        AgreeAt(r, i - p, p, m);
      }
      forall j: nat | j < p ensures LongestBorder(r, j + 1, fs[j]) {
        FailureEntry(r, fs, i, j);
      }
      SamePrefix(r, r', p, fs);
    } else {
      FailureEntry(r, fs, i, 0);
      assert LongestBorder(r', 1, fs[0]);
    }
  }

  /** Booth's algorithm as the source writes it: a failure table f over the doubled text;
      whenever the character at i is smaller than the one after the current border, the
      view is rotated past the mismatch and the scan restarts at the border. */
  method LexicographicallyMinimalRotation(s: string) returns (strr: RotatableIndex)
    ensures strr.text == s
    ensures strr.offset == BruteForceLeastRotation(s)
    ensures |s| > 0 ==> IsFirstLeastRotation(s, strr.offset)
  {
    strr := RotatableIndex(s, 0);
    if |s| == 0 {
      return;
    }
    var n := |s|;
    var f := new nat[2 * n](_ => 0);
    var i := 1;
    assert LongestBorder(strr, 1, f[0]);
    while i < f.Length
      invariant f.Length == 2 * n && 1 <= i <= 2 * n
      invariant strr.text == s && strr.offset < n
      invariant FailureTable(strr, f[..], i)
      invariant NoSmaller(strr, i)
      invariant SkippedNotLeast(s, strr.offset)
      decreases n - strr.offset, 2 * n - i
    {
      var prevLen: nat := f[i - 1];
      FailureEntry(strr, f[..], i, i - 1);
      while strr.At(i) > strr.At(prevLen) && prevLen != 0
        invariant prevLen < i && Border(strr, i, prevLen)
        invariant LongerBordersBelow(strr, i, prevLen)
        invariant FailureTable(strr, f[..], i)
        decreases prevLen
      {
        var next: nat := f[prevLen - 1];
        FailureEntry(strr, f[..], i, prevLen - 1);
        ChainStep(strr, i, prevLen, next);
        prevLen := next;
      }
      if strr.At(i) == strr.At(prevLen) {
        MatchStep(strr, i, prevLen);
        FailureExtend(strr, f[..], i, prevLen + 1);
        f[i] := prevLen + 1;
        i := i + 1;
      } else if strr.At(i) < strr.At(prevLen) {
        ResetStep(strr, i, prevLen);
        ResetTable(strr, f[..], i, prevLen);
        strr := strr.Rotated(i - prevLen);
        if prevLen > 0 {
          i := prevLen - 1;
        } else {
          i := 0;
        }
        i := i + 1;
      } else {
        MismatchStep(strr, i);
        FailureExtend(strr, f[..], i, 0);
        f[i] := 0;
        i := i + 1;
      }
    }
    NoSmallerGivesLeast(strr);
    forall x | 0 <= x < strr.offset
      ensures Rotate(s, x) != Rotate(s, strr.offset)
    {
      assert NotLeast(s, x);
    }
    BruteForceLeastRotationCorrect(s);
    FirstLeastRotationUnique(s, strr.offset, BruteForceLeastRotation(s));
  }

  /** The least rotation of a text: the characters the rotated view yields. */
  function LeastRotation(s: string): (r: string)
    ensures |r| == |s|
    ensures forall x :: 0 <= x < |s| ==> !LexLess(Rotate(s, x), r)
  {
    BruteForceLeastRotationCorrect(s);
    Rotate(s, BruteForceLeastRotation(s))
  }

  lemma RotateTwice(s: string, x: nat, y: nat)
    requires |s| > 0
    ensures Rotate(Rotate(s, x), y) == Rotate(s, x + y)
  {
    var t := Rotate(s, x);
    var n := |s|;
    forall j | 0 <= j < n ensures Rotate(t, y)[j] == Rotate(s, x + y)[j] {
      var k := (j + y) % n;
      assert Rotate(t, y)[j] == t[k];
      ShiftTwice(x, y, j, n);
    }
  }

  lemma ShiftTwice(x: nat, y: nat, j: nat, n: nat)
    requires n > 0
    ensures ((j + y) % n + x) % n == (j + (x + y)) % n
  {
    ModAdd(x, j + y, n);
    assert x + (j + y) == j + (x + y);
  }

  /** Offsets that agree modulo |s| select the same rotation. */
  lemma RotateCongruent(s: string, x: nat, y: nat)
    requires |s| > 0 && x % |s| == y % |s|
    ensures Rotate(s, x) == Rotate(s, y)
  {
    RotateMod(s, x);
    RotateMod(s, y);
  }

  lemma UndoShift(x: nat, m: nat, n: nat)
    requires m < n
    ensures (x + (m + n - x % n) % n) % n == m
  {
    var w := m + n - x % n;
    ModAdd(x, w, n);
    var q := x / n;
    assert x == q * n + x % n;
    assert (q + 1) * n == q * n + n;
    assert x + w == m + (q + 1) * n;
    ModMultiple(m, q + 1, n);
    DivModUnique(m, n, 0, m);
  }

  /** Rotating back: offset (m - x) mod |s| of Rotate(s, x) shows offset m of s. */
  lemma RotateBack(s: string, x: nat, m: nat)
    requires m < |s|
    ensures Rotate(Rotate(s, x), (m + |s| - x % |s|) % |s|) == Rotate(s, m)
  {
    var n := |s|;
    var z := (m + n - x % n) % n;
    RotateTwice(s, x, z);
    UndoShift(x, m, n);
    DivModUnique(m, n, 0, m);
    RotateCongruent(s, x + z, m);
  }

  /** All rotations of a text have the same least rotation, so names that are rotations of
      each other encode alike. */
  lemma LeastRotationOfRotation(s: string, x: nat)
    ensures LeastRotation(Rotate(s, x)) == LeastRotation(s)
  {
    if |s| > 0 {
      var n := |s|;
      var t := Rotate(s, x);
      var a, b := LeastRotation(s), LeastRotation(t);
      var m' := BruteForceLeastRotation(t);
      BruteForceLeastRotationCorrect(t);
      RotateTwice(s, x, m');
      RotateMod(s, x + m');
      assert b == Rotate(s, (x + m') % n);
      assert !LexLess(b, a);
      var m := BruteForceLeastRotation(s);
      BruteForceLeastRotationCorrect(s);
      RotateBack(s, x, m);
      assert !LexLess(Rotate(t, (m + n - x % n) % n), b);
      LexTotal(a, b);
    }
  }
}
