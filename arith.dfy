/** Facts about Euclidean division used by the offset arithmetic of rotations and by the
    exact divisions of coefficient lists. */
module Arith {

  lemma DivModUnique(x: int, n: int, q: int, r: int)
    requires n > 0 && 0 <= r < n && x == q * n + r
    ensures x % n == r
  {
    var q', r' := x / n, x % n;
    assert x == q' * n + r';
    assert q * n - q' * n == r' - r;
    assert q * n - q' * n == (q - q') * n;
    if q > q' {
      MulAtLeast(q - q', n);
    } else if q < q' {
      MulAtLeast(q' - q, n);
    }
  }

  lemma MulAtLeast(k: int, n: int)
    requires k >= 1 && n > 0
    ensures k * n >= n
  {
  }

  /** Exact division: a multiple of n leaves no remainder and gives back its factor. */
  lemma DivExact(k: int, n: int)
    requires n > 0
    ensures (k * n) % n == 0 && (k * n) / n == k
  {
    DivModUnique(k * n, n, k, 0);
    var q := (k * n) / n;
    assert k * n == q * n;
    assert (k - q) * n == 0;
    if k > q {
      MulAtLeast(k - q, n);
    } else if k < q {
      MulAtLeast(q - k, n);
    }
  }

  /** Exact division by a divisor of either sign: the remainder is zero and the quotient is
      the factor. */
  lemma DivExactSigned(k: int, n: int)
    requires n != 0
    ensures (k * n) % n == 0 && (k * n) / n == k
  {
    if n > 0 {
      DivExact(k, n);
    } else {
      var q, r := (k * n) / n, (k * n) % n;
      assert k * n == q * n + r && 0 <= r < -n;
      assert (k - q) * n == r;
      if k > q {
        MulAtLeast(k - q, -n);
      } else if k < q {
        MulAtLeast(q - k, -n);
      }
    }
  }

  /** A zero remainder makes the dividend the quotient times the divisor. */
  lemma DivisibleFactor(x: int, n: int)
    requires n != 0 && x % n == 0
    ensures x == (x / n) * n
  {
  }
}
