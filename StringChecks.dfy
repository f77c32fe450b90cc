/** The helpers of pwnscripts/string_checks.py: hex-suffix matching, little-endian word
    extraction, hex-literal scanning and the address-class heuristics. The architecture
    that the source reads from the global context.arch is a parameter here. */
module StringChecks {
  import opened Wrappers
  import opened Arith
  import opened Patterns
  import opened HexText
  import opened PyOps
  import opened Packing
  import opened Findall

  function Abs(v: int): nat
  {
    if v < 0 then -v else v
  }

  lemma PyHexShape(v: int)
    ensures PyHex(v) == (if v < 0 then "-0x" else "0x") + Hex(Abs(v))
    ensures 'x' !in Hex(Abs(v)) && '\n' !in Hex(Abs(v))
  {
    HexHasNoMarker(Abs(v));
  }

  // ----- offset_to_regex, offset_match -----

  /** offset_to_regex(v): '.*' + hex(v)[2:] + '$'. The literal is v's digits, or for a
      negative v an 'x' and the digits of -v (hex(-5)[2:] is "x5"). */
  function OffsetToRegex(v: int): (p: Pattern)
    ensures p.AnyThenLiteralAtEnd?
    ensures v >= 0 ==> p.lit == Hex(v)
    ensures v < 0 ==> p.lit == "x" + Hex(-v)
  {
    AnyThenLiteralAtEnd(PyHex(v)[2..])
  }

  /** For a non-negative offset, the '.*<digits>$' search of hex(v) is a test on the digits
      of |v|: everything before them ends in 'x', which the offset's digits never contain. */
  lemma SearchOffsetDigits(v: int, offset: int)
    ensures offset >= 0 ==> (Search(OffsetToRegex(offset), PyHex(v)) <==> EndsWith(Hex(Abs(v)), Hex(offset)))
  {
    if offset >= 0 {
      PyHexShape(v);
      HexHasNoMarker(offset);
      SearchTrailingAfterMarker(if v < 0 then "-0x" else "0x", Hex(Abs(v)), Hex(offset));
    }
  }

  /** offset_match(v, offset): no offset matches every value, and a non-negative offset
      matches iff the hex digits of |v| end with those of the offset. */
  function OffsetMatch(v: int, offset: Option<int>): (r: bool)
    ensures offset.None? ==> r
    ensures offset.Some? && offset.value >= 0 ==> (r <==> EndsWith(Hex(Abs(v)), Hex(offset.value)))
  {
    offset.None? || (SearchOffsetDigits(v, offset.value); Search(OffsetToRegex(offset.value), PyHex(v)))
  }

  /** The same as a congruence: |v| mod 16^k == offset, k being the digit count of offset. */
  lemma OffsetMatchCongruence(v: int, offset: nat)
    ensures OffsetMatch(v, Some(offset)) <==> Abs(v) % Pow(16, |Hex(offset)|) == offset
  {
    HexEndsWith(Abs(v), offset);
  }

  /** A negative offset yields the literal "x<digits>", which only the whole of hex(v) after
      its 'x' can match: it matches exactly v == offset and v == -offset. */
  lemma OffsetMatchNegative(v: int, offset: int)
    requires offset < 0
    ensures OffsetMatch(v, Some(offset)) <==> Abs(v) == -offset
  {
    PyHexShape(v);
    HexHasNoMarker(-offset);
    SearchTrailingMarker(if v < 0 then "-0x" else "0x", Hex(Abs(v)), Hex(-offset));
    HexInjective(Abs(v), -offset);
  }

  /** Every value matches itself as its own offset. */
  lemma OffsetMatchSelf(v: int)
    ensures OffsetMatch(v, Some(v))
  {
    if v >= 0 {
      assert Hex(v)[|Hex(v)| - |Hex(v)|..] == Hex(v);
    } else {
      OffsetMatchNegative(v, v);
    }
  }

  // ----- extract_first_bytes, extract_all_bytes -----

  /** extract_first_bytes(s, n): unpack(s[:n], n*8). It raises unless s holds n > 0 bytes. */
  function ExtractFirstBytes(s: seq<byte>, n: int): (r: Result<nat>)
    ensures r.Ok? <==> 0 < n <= |s|
    ensures r.Ok? ==> r.value == LittleEndian(s[..n]) && r.value < Pow(256, n)
  {
    Unpack(Slice(s, 0, n), n * 8)
  }

  /** A buffer that begins with the n-byte encoding of x yields x. */
  lemma ExtractFirstBytesRoundTrip(x: nat, n: nat, rest: seq<byte>)
    requires n > 0 && x < Pow(256, n)
    ensures ExtractFirstBytes(Pack(x, n) + rest, n) == Ok(x)
  {
    assert (Pack(x, n) + rest)[..n] == Pack(x, n);
    LittleEndianOfPack(x, n);
  }

  /** The last window of extract_all_bytes, s[q-1:q-1+n] with q = len(s)//n, lies inside s,
      and so do all the earlier ones. */
  lemma LastWindowFits(len: nat, n: nat)
    requires n > 0
    ensures len / n == 0 || len / n - 1 + n <= len
  {
    var q := len / n;
    if q > 0 {
      assert n * q <= len;
      MulAtLeast(q - 1, n);
      assert n * q == (q - 1) * n + n;
    }
  }

  /** unpack(s[i:i+n], n*8) for a window that lies inside s. */
  function Window(s: seq<byte>, n: int, i: int): (v: nat)
    requires n > 0 && 0 <= i && i + n <= |s|
    ensures v == LittleEndian(s[i..i + n])
  {
    Unpack(Slice(s, i, i + n), n * 8).value
  }

  /** The windows of extract_all_bytes for a positive width. */
  function Windows(s: seq<byte>, n: int): (ws: seq<nat>)
    requires n > 0
    ensures |ws| == |s| / n
    ensures forall i :: 0 <= i < |ws| ==> i + n <= |s| && ws[i] == LittleEndian(s[i..i + n])
  {
    LastWindowFits(|s|, n);
    seq(|s| / n, i requires 0 <= i < |s| / n => Window(s, n, i))
  }

  /** extract_all_bytes(s, n): unpack(s[i:i+n], n*8) for i in range(len(s)//n). The windows
      start at every byte offset i, so for n > 1 they overlap. len(s)//0 raises at once;
      a negative n gives an empty range. */
  function ExtractAllBytes(s: seq<byte>, n: int): (r: Result<seq<nat>>)
    ensures r.Err? <==> n == 0
    ensures r.Err? ==> r.error == ZeroDivisionError
    ensures n < 0 ==> r == Ok([])
    ensures n > 0 ==> r == Ok(Windows(s, n))
  {
    if n == 0 then Err(ZeroDivisionError)
    else if FloorDiv(|s|, n) <= 0 then Ok([])
    else Ok(Windows(s, n))
  }

  /** For a positive width there are len(s)//n values, and value i is the little-endian
      word in s[i:i+n], a window that lies wholly inside s. */
  lemma ExtractAllBytesWindows(s: seq<byte>, n: int)
    requires n > 0
    ensures var r := ExtractAllBytes(s, n);
      && r.Ok?
      && |r.value| == |s| / n
      && forall i :: 0 <= i < |r.value| ==> i + n <= |s| && r.value[i] == LittleEndian(s[i..i + n])
  {
  }

  // ----- extract_all_hex, extract_first_hex -----

  predicate IsToken(t: seq<byte>)
  {
    |t| >= 3 && Char(t[0]) == '0' && Char(t[1]) == 'x'
  }

  /** int(t, 16) for a token that re.findall(b'0x[0-9a-z]+', ...) returns: the "0x" prefix is
      accepted and a letter past 'f' (or a second 'x') raises ValueError. */
  function ParseHexToken(t: seq<byte>): (r: Result<int>)
    requires IsToken(t)
    ensures r.Ok? <==> forall i :: 2 <= i < |t| ==> IsHexChar(Char(t[i]))
    ensures r.Err? ==> r.error == ValueError
    ensures r.Ok? ==> r.value >= 0
  {
    var digits := Chars(t[2..]);
    if forall i :: 0 <= i < |digits| ==> IsHexChar(digits[i]) then Ok(HexValue(digits))
    else Err(ValueError)
  }

  /** list(map(lambda l: int(l, 16), ts)): raises at the first token int() rejects. */
  function ParseAll(ts: seq<seq<byte>>): (r: Result<seq<int>>)
    requires forall k :: 0 <= k < |ts| ==> IsToken(ts[k])
    ensures r.Ok? <==> forall k :: 0 <= k < |ts| ==> ParseHexToken(ts[k]).Ok?
    ensures r.Err? ==> r.error == ValueError
    ensures r.Ok? ==> |r.value| == |ts|
    ensures r.Ok? ==> forall k :: 0 <= k < |ts| ==> r.value[k] == ParseHexToken(ts[k]).value
  {
    if ts == [] then Ok([])
    else
      match ParseHexToken(ts[0])
      case Err(e) => Err(e)
      case Ok(x) =>
        match ParseAll(ts[1..])
        case Err(e) => Err(e)
        case Ok(xs) => Ok([x] + xs)
  }

  /** The value of the digits of match m, after its "0x". */
  function MatchValue(s: seq<byte>, m: Span): nat
    requires IsMatch(s, LowerHex, m)
  {
    HexValue(Chars(s[m.start + 2..m.end]))
  }

  /** extract_all_hex(s): the base-16 value of every match of b'0x[0-9a-f]+', left to right.
      It never raises, so its except clause is never taken. */
  function ExtractAllHex(s: seq<byte>): (r: Result<seq<int>>)
    ensures r.Ok?
    ensures var ms := Matches(s, LowerHex, 0);
      |r.value| == |ms| && forall k :: 0 <= k < |ms| ==> r.value[k] == MatchValue(s, ms[k])
  {
    var ts := FindAll(s, LowerHex);
    var ms := Matches(s, LowerHex, 0);
    assert forall k :: 0 <= k < |ts| ==> ts[k][2..] == s[ms[k].start + 2..ms[k].end];
    ParseAll(ts)
  }

  /** extract_all_hex(s) is empty iff no "0x" followed by a hex digit occurs in s. */
  lemma ExtractAllHexEmpty(s: seq<byte>)
    ensures ExtractAllHex(s).value == [] <==> forall q :: 0 <= q < |s| ==> !StartsToken(s, LowerHex, q)
  {
    FirstMatchIsLeftmost(s, LowerHex, 0);
  }

  /** extract_first_hex(s): int() of the first match of b'0x[0-9a-z]+', or -1 when there is
      none (the IndexError of [0] on an empty list). */
  function ExtractFirstHex(s: seq<byte>): (r: Result<int>)
    ensures r.Ok? ==> r.value >= -1
  {
    var ts := FindAll(s, LowerAlnum);
    if |ts| == 0 then Ok(-1) else ParseHexToken(ts[0])
  }

  /** Whether the digits of a match are all hex digits. */
  predicate HexDigitsOnly(s: seq<byte>, m: Span)
    requires m.end <= |s|
  {
    forall i :: m.start + 2 <= i < m.end ==> IsHexChar(Char(s[i]))
  }

  /** -1 comes back exactly when no "0x" followed by one of [0-9a-z] occurs in s. */
  lemma ExtractFirstHexNotFound(s: seq<byte>)
    ensures ExtractFirstHex(s) == Ok(-1) <==> forall q :: 0 <= q < |s| ==> !StartsToken(s, LowerAlnum, q)
  {
    FirstMatchIsLeftmost(s, LowerAlnum, 0);
  }

  /** It raises iff the first [0-9a-z] match holds a byte that is not a hex digit. */
  lemma ExtractFirstHexRaises(s: seq<byte>)
    ensures var ms := Matches(s, LowerAlnum, 0);
      && (ExtractFirstHex(s).Err? <==> ms != [] && !HexDigitsOnly(s, ms[0]))
      && (ExtractFirstHex(s).Err? ==> ExtractFirstHex(s).error == ValueError)
  {
    var ms := Matches(s, LowerAlnum, 0);
    var ts := FindAll(s, LowerAlnum);
    if ms != [] {
      assert ts[0] == s[ms[0].start..ms[0].end];
      assert forall i :: ms[0].start + 2 <= i < ms[0].end ==> s[i] == ts[0][i - ms[0].start];
    }
  }

  /** When the first [0-9a-z] match is all hex digits, it is also the first [0-9a-f] match,
      and extract_first_hex returns the first value of extract_all_hex. */
  lemma ExtractFirstHexAgrees(s: seq<byte>)
    requires var ms := Matches(s, LowerAlnum, 0); ms != [] && HexDigitsOnly(s, ms[0])
    ensures ExtractAllHex(s).value != []
    ensures ExtractFirstHex(s) == Ok(ExtractAllHex(s).value[0])
  {
    var ms, hs := Matches(s, LowerAlnum, 0), Matches(s, LowerHex, 0);
    var a := ms[0];
    FirstMatchIsLeftmost(s, LowerAlnum, 0);
    FirstMatchIsLeftmost(s, LowerHex, 0);
    assert StartsToken(s, LowerHex, a.start);
    var h := hs[0];
    // A hex match start is an alnum match start, so h is not left of a; and a is a hex match start.
    assert StartsToken(s, LowerAlnum, h.start);
    assert h.start == a.start;
    // Both runs are maximal from the same place: the hex one cannot stop inside the all-hex
    // alnum one, nor run past its end.
    assert h == a;
    var ts := FindAll(s, LowerAlnum);
    assert ts[0] == s[a.start..a.end];
    assert ts[0][2..] == s[a.start + 2..a.end];
  }

  // ----- is_PIE_address, is_stack_address, is_libc_address, is_base_address -----

  /** For a positive value, a '0x<p>.*' search of hex(v) tests whether its digits start with p. */
  lemma LeadingDigits(v: int, p: string)
    requires v > 0
    ensures Search(LiteralThenAny("0x" + p), PyHex(v)) <==> StartsWith(Hex(v), p)
  {
    HexHasNoMarker(v);
    SearchLeadingAfterMarker(Hex(v), p);
  }

  /** is_PIE_address(v): v > 0 and re.search('0x55.*' on amd64, else '0x56.*', hex(v)); that is,
      the digits of a positive v start with 55 (amd64) or 56. */
  function IsPIEAddress(v: int, arch: string): (r: bool)
    ensures r <==> v > 0 && StartsWith(Hex(v), if arch == "amd64" then "55" else "56")
  {
    var p := if arch == "amd64" then "55" else "56";
    v > 0 && (LeadingDigits(v, p); Search(LiteralThenAny("0x" + p), PyHex(v)))
  }

  /** is_stack_address(v): v > 0 and re.search('0x7ff.*' on amd64, else '0xff.*', hex(v)); that
      is, the digits of a positive v start with 7ff (amd64) or ff. */
  function IsStackAddress(v: int, arch: string): (r: bool)
    ensures r <==> v > 0 && StartsWith(Hex(v), if arch == "amd64" then "7ff" else "ff")
  {
    var p := if arch == "amd64" then "7ff" else "ff";
    v > 0 && (LeadingDigits(v, p); Search(LiteralThenAny("0x" + p), PyHex(v)))
  }

  /** is_libc_address(v): v > 0, re.search('0x7f.*' on amd64, else '0xf7.*', hex(v)), and not a
      stack address. On amd64 the stack prefix 7ff extends the libc prefix 7f, which is why
      the exclusion is needed. */
  function IsLibcAddress(v: int, arch: string): (r: bool)
    ensures r <==>
      && v > 0
      && StartsWith(Hex(v), if arch == "amd64" then "7f" else "f7")
      && !StartsWith(Hex(v), if arch == "amd64" then "7ff" else "ff")
  {
    var p := if arch == "amd64" then "7f" else "f7";
    v > 0 && (LeadingDigits(v, p); Search(LiteralThenAny("0x" + p), PyHex(v)))
    && !IsStackAddress(v, arch)
  }

  /** is_base_address(v): v > 0 and re.search('.*000$', hex(v)); that is, v is a positive
      multiple of 0x1000. */
  function IsBaseAddress(v: int): (r: bool)
    ensures r <==> v > 0 && v % 0x1000 == 0
  {
    v > 0 && (BaseDigits(v); Search(AnyThenLiteralAtEnd("000"), PyHex(v)))
  }

  /** No value is classified both as a libc and as a stack address. */
  lemma LibcAndStackDisjoint(v: int, arch: string)
    ensures !(IsLibcAddress(v, arch) && IsStackAddress(v, arch))
  {
  }

  /** The digits of a positive v end in "000" iff v is a multiple of 0x1000. */
  lemma HexEndsWithZeros(v: nat)
    requires v > 0
    ensures EndsWith(Hex(v), "000") <==> v % 0x1000 == 0
  {
    var h := Hex(v);
    assert Pow(16, 3) == 0x1000;
    if |h| >= 3 {
      HexSuffix(v, 3);
      LowDigitsEqual(v, 0, 3);
      assert LowDigits(0, 3) == "000";
    } else {
      HexLength(v);
      if |h| < 3 {
        PowStrictlyIncreasing(16, |h|, 3);
      }
      assert v < 0x1000;
    }
  }

  /** For a positive value, the '.*000$' search of hex(v) tests divisibility by 0x1000. */
  lemma BaseDigits(v: int)
    requires v > 0
    ensures Search(AnyThenLiteralAtEnd("000"), PyHex(v)) <==> v % 0x1000 == 0
  {
    HexHasNoMarker(v);
    SearchTrailingAfterMarker("0x", Hex(v), "000");
    HexEndsWithZeros(v);
  }

  /** The digits of 0x7ffeeffff000, one digit at a time. */
  lemma HexOfStackExample()
    ensures Hex(0x7ffeeffff000) == "7ffeeffff000"
  {
    assert Hex(0x7ff) == "7ff";
    assert Hex(0x7ffe) == Hex(0x7ff) + "e";
    assert Hex(0x7ffee) == Hex(0x7ffe) + "e";
    assert Hex(0x7ffeef) == Hex(0x7ffee) + "f";
    assert Hex(0x7ffeeff) == Hex(0x7ffeef) + "f";
    assert Hex(0x7ffeefff) == Hex(0x7ffeeff) + "f";
    assert Hex(0x7ffeeffff) == Hex(0x7ffeefff) + "f";
    assert Hex(0x7ffeeffff0) == Hex(0x7ffeeffff) + "0";
    assert Hex(0x7ffeeffff00) == Hex(0x7ffeeffff0) + "0";
    assert Hex(0x7ffeeffff000) == Hex(0x7ffeeffff00) + "0";
  }

  /** A typical amd64 stack address is a stack address and not a libc address. */
  lemma StackAddressExample()
    ensures IsStackAddress(0x7ffeeffff000, "amd64") && !IsLibcAddress(0x7ffeeffff000, "amd64")
  {
    HexOfStackExample();
    assert StartsWith(Hex(0x7ffeeffff000), "7ff");
  }

  /** The digits of 0x7f1234560000, one digit at a time. */
  lemma HexOfLibcExample()
    ensures Hex(0x7f1234560000) == "7f1234560000"
  {
    assert Hex(0x7f1) == "7f1";
    assert Hex(0x7f12) == Hex(0x7f1) + "2";
    assert Hex(0x7f123) == Hex(0x7f12) + "3";
    assert Hex(0x7f1234) == Hex(0x7f123) + "4";
    assert Hex(0x7f12345) == Hex(0x7f1234) + "5";
    assert Hex(0x7f123456) == Hex(0x7f12345) + "6";
    assert Hex(0x7f1234560) == Hex(0x7f123456) + "0";
    assert Hex(0x7f12345600) == Hex(0x7f1234560) + "0";
    assert Hex(0x7f123456000) == Hex(0x7f12345600) + "0";
    assert Hex(0x7f1234560000) == Hex(0x7f123456000) + "0";
  }

  /** A typical amd64 libc address is a libc address and not a stack address. */
  lemma LibcAddressExample()
    ensures IsLibcAddress(0x7f1234560000, "amd64") && !IsStackAddress(0x7f1234560000, "amd64")
  {
    var h := Hex(0x7f1234560000);
    HexOfLibcExample();
    assert StartsWith(h, "7f");
    assert h[2] != "7ff"[2];
  }

  /** The digits of 0x555555554000, one digit at a time. */
  lemma HexOfPIEExample()
    ensures Hex(0x555555554000) == "555555554000"
  {
    assert Hex(0x55) == "55";
    assert Hex(0x555) == Hex(0x55) + "5";
    assert Hex(0x5555) == Hex(0x555) + "5";
    assert Hex(0x55555) == Hex(0x5555) + "5";
    assert Hex(0x555555) == Hex(0x55555) + "5";
    assert Hex(0x5555555) == Hex(0x555555) + "5";
    assert Hex(0x55555555) == Hex(0x5555555) + "5";
    assert Hex(0x555555554) == Hex(0x55555555) + "4";
    assert Hex(0x5555555540) == Hex(0x555555554) + "0";
    assert Hex(0x55555555400) == Hex(0x5555555540) + "0";
    assert Hex(0x555555554000) == Hex(0x55555555400) + "0";
  }

  /** A typical amd64 PIE load address is a PIE address. */
  lemma PIEAddressExample()
    ensures IsPIEAddress(0x555555554000, "amd64")
  {
    HexOfPIEExample();
    assert StartsWith(Hex(0x555555554000), "55");
  }

  /** A page-aligned address is a base address; one byte further it is not. */
  lemma BaseAddressExample()
    ensures IsBaseAddress(0x555555554000) && !IsBaseAddress(0x555555554001)
  {
    assert 0x555555554000 == 0x1000 * 0x555555554;
    DivModUnique(0x555555554000, 0x1000, 0x555555554, 0);
    DivModUnique(0x555555554001, 0x1000, 0x555555554, 1);
  }

  /** The bytes of "no hex here". */
  const NoHexText: seq<byte> := [110, 111, 32, 104, 101, 120, 32, 104, 101, 114, 101]

  /** A buffer with no "0x" yields no values and the -1 sentinel. */
  lemma NoHexExample()
    ensures ExtractAllHex(NoHexText).value == []
    ensures ExtractFirstHex(NoHexText) == Ok(-1)
  {
    var s := NoHexText;
    assert forall q :: 0 <= q < |s| ==> s[q] != 48;
    ExtractAllHexEmpty(s);
    ExtractFirstHexNotFound(s);
  }
}
