/** Splitting text at the first occurrence of a separator character. */
module Text {
  import opened Wrappers

  /** Index of the first occurrence of c in s, or |s| when there is none. */
  function Find(s: string, c: char): (k: nat)
    ensures k <= |s|
    ensures k < |s| <==> c in s
    ensures k < |s| ==> s[k] == c
    ensures forall i :: 0 <= i < k ==> s[i] != c
  {
    if s == [] || s[0] == c then 0
    else
      var k := Find(s[1..], c);
      assert forall i :: 1 <= i < |s| ==> s[i] == s[1..][i - 1];
      assert s == [s[0]] + s[1..];
      1 + k
  }

  /** The separator in a + [c] + b is found right after a when a lacks it. */
  lemma {:induction false} FindSeparator(a: string, c: char, b: string)
    requires c !in a
    ensures Find(a + [c] + b, c) == |a|
    decreases |a|
  {
    if a != [] {
      assert (a + [c] + b)[1..] == a[1..] + [c] + b;
      FindSeparator(a[1..], c, b);
    }
  }

  /** str::split_once: the text before and after the first occurrence of c. */
  function SplitOnce(s: string, c: char): (r: Option<(string, string)>)
    ensures r.None? <==> c !in s
    ensures r.Some? ==> c !in r.value.0 && s == r.value.0 + [c] + r.value.1
  {
    var k := Find(s, c);
    if k == |s| then None
    else
      assert forall i :: 0 <= i < k ==> s[..k][i] != c;
      assert s == s[..k] + [c] + s[k + 1..];
      Some((s[..k], s[k + 1..]))
  }

  /** Splitting text whose first part lacks the separator recovers the parts. */
  lemma SplitOnceFirst(a: string, b: string, c: char)
    requires c !in a
    ensures SplitOnce(a + [c] + b, c) == Some((a, b))
  {
    var s := a + [c] + b;
    FindSeparator(a, c, b);
    assert s[..|a|] == a && s[|a| + 1..] == b;
  }

  /** Text is split uniquely at the first occurrence of a separator that both first parts lack. */
  lemma SplitAt(a: string, b: string, a': string, b': string, c: char)
    requires c !in a && c !in a'
    requires a + [c] + b == a' + [c] + b'
    ensures a == a' && b == b'
  {
    SplitOnceFirst(a, b, c);
    SplitOnceFirst(a', b', c);
  }
}
