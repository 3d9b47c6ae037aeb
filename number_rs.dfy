/** The decimal literal constructor of the Rust rewrite (src/number.rs): a number is a pair of
    π-polynomials stored as maps from exponent to coefficient. */
module RustNumber {
  import opened Wrappers
  import opened Decimal
  import opened Text

  /** Coefficients by power of π. */
  datatype PiPoly = PiPoly(terms: map<int, int>)

  /** numer / denom; equality is structural, as the derived PartialEq. */
  datatype Number = Number(numer: PiPoly, denom: PiPoly)

  function Pow10(n: nat): (r: nat)
    ensures r >= 1
  {
    if n == 0 then 1 else 10 * Pow10(n - 1)
  }

  function InvalidLiteral(str: string): string {
    str + " is not a valid number literal"
  }

  /** Number::from_string: `pre.suf` is read as the integer `presuf` over 10^|suf|, a literal
      without '.' as the integer over 1; the integer is the coefficient of π^1 and the
      denominator the coefficient of π^0. */
  function FromString(str: string): (r: Result<Number, string>)
    ensures r.Err? ==> r.error == InvalidLiteral(str)
    ensures r.Ok? ==> r.value.numer.terms.Keys == {1} && r.value.denom.terms.Keys == {0}
    ensures r.Ok? ==> r.value.denom.terms[0] >= 1
  {
    match SplitOnce(str, '.')
    case Some((pre, suf)) =>
      (match ParseInt(pre + suf)
       case None => Err(InvalidLiteral(str))
       case Some(n) => Ok(Number(PiPoly(map[1 := n]), PiPoly(map[0 := Pow10(|suf|)]))))
    case None =>
      (match ParseInt(str)
       case None => Err(InvalidLiteral(str))
       case Some(n) => Ok(Number(PiPoly(map[1 := n]), PiPoly(map[0 := 1]))))
  }

  /** Without a '.', the literal is an integer n and denotes n·π / 1. */
  lemma IntegerLiteral(i: int)
    ensures FromString(IntToString(i)) == Ok(Number(PiPoly(map[1 := i]), PiPoly(map[0 := 1])))
  {
    ParseIntRoundTrip(i);
    var s := IntToString(i);
    assert forall k :: 0 <= k < |s| ==> s[k] != '.';
  }

  lemma ShiftStep(a: int, p: int, b: int, d: int)
    ensures (a * p + b) * 10 + d == a * (10 * p) + (b * 10 + d)
  {
  }

  /** Digits run together: the value of a ++ b is a shifted by |b| digits plus b. */
  lemma {:induction false} DigitsAppend(a: string, b: string)
    requires AllDigits(a) && AllDigits(b)
    ensures AllDigits(a + b)
    ensures DigitsValue(a + b) == DigitsValue(a) * Pow10(|b|) + DigitsValue(b)
    decreases |b|
  {
    if b == [] {
      assert a + b == a;
    } else {
      var c, b0, d := a + b, b[..|b| - 1], DigitValue(b[|b| - 1]);
      assert AllDigits(c) by {
        assert forall i :: 0 <= i < |c| ==> c[i] == (if i < |a| then a[i] else b[i - |a|]);
      }
      assert c[..|c| - 1] == a + b0 && c[|c| - 1] == b[|b| - 1];
      DigitsAppend(a, b0);
      assert DigitsValue(c) == DigitsValue(a + b0) * 10 + d;
      assert DigitsValue(b) == DigitsValue(b0) * 10 + d;
      assert Pow10(|b|) == 10 * Pow10(|b0|);
      ShiftStep(DigitsValue(a), Pow10(|b0|), DigitsValue(b0), d);
    }
  }

  /** Text holding a '.' is not an integer. */
  lemma ParseIntDot(t: string, k: nat)
    requires k < |t| && t[k] == '.'
    ensures ParseInt(t) == None
  {
    assert !IsDigit(t[k]);
    if k >= 1 {
      assert t[1..][k - 1] == '.';
      assert !IsDigit(t[1..][k - 1]);
    }
  }

  /** A run of digits is an integer. */
  lemma ParseDigits(t: string)
    requires |t| >= 1 && AllDigits(t)
    ensures ParseInt(t) == Some(DigitsValue(t) as int)
  {
    assert IsDigit(t[0]);
  }

  /** A decimal fraction p.s of digit runs denotes (p·10^|s| + s)·π / 10^|s|. */
  lemma DecimalLiteral(p: string, s: string)
    requires |p| + |s| >= 1 && AllDigits(p) && AllDigits(s)
    ensures AllDigits(p + s)
    ensures DigitsValue(p + s) == DigitsValue(p) * Pow10(|s|) + DigitsValue(s)
    ensures FromString(p + "." + s)
         == Ok(Number(PiPoly(map[1 := DigitsValue(p + s) as int]), PiPoly(map[0 := Pow10(|s|)])))
  {
    assert '.' !in p by {
      assert forall k :: 0 <= k < |p| ==> p[k] != '.';
    }
    assert p + "." + s == p + ['.'] + s;
    SplitOnceFirst(p, s, '.');
    DigitsAppend(p, s);
    ParseDigits(p + s);
  }

  /** A trailing '.' adds nothing: "5." is valid exactly when "5" is, with the same value. */
  lemma TrailingDot(str: string)
    requires '.' !in str
    ensures FromString(str + ".").Ok? == FromString(str).Ok?
    ensures FromString(str).Ok? ==> FromString(str + ".") == FromString(str)
  {
    SplitOnceFirst(str, "", '.');
    assert str + "." == str + ['.'] + "";
    assert str + "" == str;
  }

  /** A second '.' makes the literal invalid. */
  lemma TwoDots(p: string, m: string, s: string)
    requires '.' !in p
    ensures FromString(p + "." + m + "." + s) == Err(InvalidLiteral(p + "." + m + "." + s))
  {
    var str := p + "." + m + "." + s;
    var rest := m + "." + s;
    assert str == p + ['.'] + rest;
    SplitOnceFirst(p, rest, '.');
    var t := p + rest;
    assert t[|p| + |m|] == '.';
    ParseIntDot(t, |p| + |m|);
  }

  /** The empty literal is invalid. */
  lemma EmptyLiteral()
    ensures FromString("") == Err(InvalidLiteral(""))
  {
  }

  /** A literal of only '.' is invalid: both sides of the dot are empty. */
  lemma DotOnly()
    ensures FromString(".") == Err(InvalidLiteral("."))
  {
    SplitOnceFirst("", "", '.');
    assert "" + ['.'] + "" == ".";
  }
}
