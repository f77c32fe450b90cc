/** Python's hex() rendering of integers and int(_, 16) parsing of lowercase digit strings. */
module HexText {
  import opened Arith
  import opened Patterns

  predicate IsHexChar(c: char)
  {
    '0' <= c <= '9' || 'a' <= c <= 'f'
  }

  function HexDigit(d: nat): (c: char)
    requires d < 16
    ensures IsHexChar(c)
  {
    if d < 10 then ('0' as int + d) as char else ('a' as int + d - 10) as char
  }

  function DigitValue(c: char): (d: nat)
    requires IsHexChar(c)
    ensures d < 16 && HexDigit(d) == c
  {
    if c <= '9' then c as int - '0' as int else c as int - 'a' as int + 10
  }

  /** The lowercase hex digits of v, without leading zeros ("0" for zero): hex(v)[2:] for v >= 0. */
  function Hex(v: nat): (r: string)
    ensures |r| >= 1
    ensures forall i :: 0 <= i < |r| ==> IsHexChar(r[i])
    ensures r[0] == '0' <==> v == 0
    decreases v
  {
    if v < 16 then [HexDigit(v)] else Hex(v / 16) + [HexDigit(v % 16)]
  }

  /** Python's hex(v): a '-' for negative values, then "0x", then the digits of |v|. */
  function PyHex(v: int): string
  {
    if v < 0 then "-0x" + Hex(-v) else "0x" + Hex(v)
  }

  /** int(ds, 16) for a string of lowercase hex digits (0 for the empty string). */
  function HexValue(ds: string): nat
    requires forall i :: 0 <= i < |ds| ==> IsHexChar(ds[i])
  {
    if ds == [] then 0 else HexValue(ds[..|ds| - 1]) * 16 + DigitValue(ds[|ds| - 1])
  }

  /** The k lowest hex digits of v, padded with leading zeros. */
  function LowDigits(v: nat, k: nat): (r: string)
    ensures |r| == k
    ensures forall i :: 0 <= i < |r| ==> IsHexChar(r[i])
  {
    if k == 0 then [] else LowDigits(v / 16, k - 1) + [HexDigit(v % 16)]
  }

  lemma HexHasNoMarker(v: nat)
    ensures 'x' !in Hex(v) && '\n' !in Hex(v) && '-' !in Hex(v)
  {
  }

  /** int(hex(v)[2:], 16) == v. */
  lemma {:induction false} HexRoundTrip(v: nat)
    ensures HexValue(Hex(v)) == v
  {
    if v >= 16 {
      HexRoundTrip(v / 16);
      var h := Hex(v);
      assert h[..|h| - 1] == Hex(v / 16);
    }
  }

  lemma HexInjective(a: nat, b: nat)
    ensures Hex(a) == Hex(b) <==> a == b
  {
    HexRoundTrip(a);
    HexRoundTrip(b);
  }

  /** Hex(v) has exactly as many digits as v needs: 16^(len-1) <= v < 16^len (for v > 0). */
  lemma {:induction false} HexLength(v: nat)
    ensures v < Pow(16, |Hex(v)|)
    ensures v > 0 ==> Pow(16, |Hex(v)| - 1) <= v
  {
    if v >= 16 {
      HexLength(v / 16);
    }
  }

  /** The last k digits of Hex(v) are the k lowest digits of v. */
  lemma {:induction false} HexSuffix(v: nat, k: nat)
    requires k <= |Hex(v)|
    ensures Hex(v)[|Hex(v)| - k..] == LowDigits(v, k)
  {
    if k > 0 && v >= 16 {
      HexSuffix(v / 16, k - 1);
      var h, h' := Hex(v), Hex(v / 16);
      assert h[|h| - k..] == h'[|h'| - (k - 1)..] + [HexDigit(v % 16)];
    }
  }

  lemma {:induction false} LowDigitsValue(v: nat, k: nat)
    ensures HexValue(LowDigits(v, k)) == v % Pow(16, k)
  {
    if k > 0 {
      LowDigitsValue(v / 16, k - 1);
      ModSplit(v, 16, Pow(16, k - 1));
      var r := LowDigits(v, k);
      assert r[..|r| - 1] == LowDigits(v / 16, k - 1);
    }
  }

  lemma {:induction false} LowDigitsMod(v: nat, k: nat)
    ensures LowDigits(v, k) == LowDigits(v % Pow(16, k), k)
  {
    if k > 0 {
      var p' := Pow(16, k - 1);
      var m := v % (16 * p');
      ModSplit(v, 16, p');
      LowDigitsMod(v / 16, k - 1);
      calc {
        LowDigits(m, k);
        LowDigits(m / 16, k - 1) + [HexDigit(m % 16)];
        LowDigits((v / 16) % p', k - 1) + [HexDigit(v % 16)];
        LowDigits(v / 16, k - 1) + [HexDigit(v % 16)];
      }
    }
  }

  /** Two numbers agree in their k lowest hex digits iff they are congruent modulo 16^k. */
  lemma LowDigitsEqual(a: nat, b: nat, k: nat)
    ensures LowDigits(a, k) == LowDigits(b, k) <==> a % Pow(16, k) == b % Pow(16, k)
  {
    LowDigitsValue(a, k);
    LowDigitsValue(b, k);
    LowDigitsMod(a, k);
    LowDigitsMod(b, k);
  }

  /** Hex(w) is its own k lowest digits, and w is below 16^k, k being its digit count. */
  lemma HexIsLowDigits(w: nat)
    ensures Hex(w) == LowDigits(w, |Hex(w)|)
    ensures w % Pow(16, |Hex(w)|) == w
  {
    var k := |Hex(w)|;
    HexSuffix(w, k);
    assert Hex(w)[|Hex(w)| - k..] == Hex(w);
    HexLength(w);
    DivModUnique(w, Pow(16, k), 0, w);
  }

  /** A number with fewer digits than w is not congruent to w modulo 16^|Hex(w)|. */
  lemma ShorterNotCongruent(v: nat, w: nat)
    requires |Hex(v)| < |Hex(w)|
    ensures v % Pow(16, |Hex(w)|) != w
  {
    var k := |Hex(w)|;
    HexLength(v);
    HexLength(w);
    assert w > 0;
    if |Hex(v)| < k - 1 {
      PowStrictlyIncreasing(16, |Hex(v)|, k - 1);
    }
    assert v < w;
    PowStrictlyIncreasing(16, k - 1, k);
    DivModUnique(v, Pow(16, k), 0, v);
  }

  /** Hex(v) ends with Hex(w) iff v is congruent to w modulo 16^k, k being the digit count of w. */
  lemma HexEndsWith(v: nat, w: nat)
    ensures EndsWith(Hex(v), Hex(w)) <==> v % Pow(16, |Hex(w)|) == w
  {
    var k := |Hex(w)|;
    HexIsLowDigits(w);
    if k <= |Hex(v)| {
      HexSuffix(v, k);
      LowDigitsEqual(v, w, k);
    } else {
      ShorterNotCongruent(v, w);
    }
  }
}
