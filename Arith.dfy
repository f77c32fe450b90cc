/** Powers and the Euclidean division facts the hex and byte encodings rest on. */
module Arith {

  function Pow(b: nat, e: nat): (p: nat)
    ensures b > 0 ==> p > 0
  {
    if e == 0 then 1 else b * Pow(b, e - 1)
  }

  lemma {:induction false} PowStrictlyIncreasing(b: nat, i: nat, j: nat)
    requires b > 1 && i < j
    ensures Pow(b, i) < Pow(b, j)
  {
    if i < j - 1 {
      PowStrictlyIncreasing(b, i, j - 1);
    }
  }

  lemma {:induction false} MulAtLeast(d: nat, k: nat)
    requires k >= 1
    ensures d * k >= d
  {
    if k > 1 {
      MulAtLeast(d, k - 1);
      assert d * k == d * (k - 1) + d;
    }
  }

  /** Quotient and remainder are the only pair with v == d * q + r and 0 <= r < d. */
  lemma DivModUnique(v: int, d: int, q: int, r: int)
    requires d > 0 && 0 <= r < d && v == d * q + r
    ensures v / d == q && v % d == r
  {
    var q', r' := v / d, v % d;
    assert v == d * q' + r';
    if q' > q {
      assert d * q' == d * q + d * (q' - q);
      MulAtLeast(d, q' - q);
      assert false;
    } else if q' < q {
      assert d * q == d * q' + d * (q - q');
      MulAtLeast(d, q - q');
      assert false;
    }
  }

  /** Splitting off the lowest digit in base m: v % (m * n) == m * ((v / m) % n) + v % m. */
  lemma ModSplit(v: nat, m: nat, n: nat)
    requires m > 0 && n > 0
    ensures v % (m * n) == m * ((v / m) % n) + v % m
    ensures (v % (m * n)) % m == v % m
    ensures (v % (m * n)) / m == (v / m) % n
  {
    var a, b := v / m, v % m;
    var q, c := a / n, a % n;
    assert v == m * (n * q + c) + b;
    assert v == (m * n) * q + (m * c + b);
    assert m * c + b < m * n by {
      assert c <= n - 1;
      assert m * c <= m * (n - 1);
    }
    DivModUnique(v, m * n, q, m * c + b);
    DivModUnique(m * c + b, m, c, b);
  }
}
