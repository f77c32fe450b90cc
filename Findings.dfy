/** Two places where pwnscripts/string_checks.py does not do what its names and comments
    describe, each shown on a concrete input next to the evidently intended definition. */
module Findings {
  import opened Wrappers
  import opened Arith
  import opened Packing
  import opened Findall
  import opened HexText
  import opened StringChecks

  // ----- extract_all_bytes: overlapping windows -----

  /** The consecutive, non-overlapping n-byte words of s; a trailing partial word is dropped. */
  function Chunks(s: seq<byte>, n: nat): (ws: seq<nat>)
    requires n > 0
    ensures |ws| == |s| / n
    decreases |s|
  {
    if |s| < n then
      DivModUnique(|s|, n, 0, |s|);
      []
    else
      var rest := Chunks(s[n..], n);
      DivModUnique(|s|, n, (|s| - n) / n + 1, (|s| - n) % n);
      [LittleEndian(s[..n])] + rest
  }

  /** extract_all_bytes as its doc comment describes it: unpack(s[i*n:(i+1)*n], n*8). */
  function ExtractAllChunks(s: seq<byte>, n: int): (r: Result<seq<nat>>)
    ensures r.Err? <==> n == 0
    ensures r.Err? ==> r.error == ZeroDivisionError
    ensures n < 0 ==> r == Ok([])
    ensures n > 0 ==> r == Ok(Chunks(s, n))
  {
    if n == 0 then Err(ZeroDivisionError) else if n < 0 then Ok([]) else Ok(Chunks(s, n))
  }

  /** Packing the words back, n bytes each. */
  function Repack(ws: seq<nat>, n: nat): (bs: seq<byte>)
    ensures |bs| == |ws| * n
  {
    if ws == [] then [] else Pack(ws[0], n) + Repack(ws[1..], n)
  }

  /** Dropping one whole word leaves the remainder unchanged. */
  lemma RemainderAfterWord(len: nat, n: nat)
    requires 0 < n <= len
    ensures (len - n) % n == len % n
    ensures n <= len - len % n
  {
    DivModUnique(len, n, (len - n) / n + 1, (len - n) % n);
  }

  /** Packing the chunks back gives s cut down to a whole number of words: the chunks are
      exactly the consecutive words of s. */
  lemma {:induction false} ChunksRepack(s: seq<byte>, n: nat)
    requires n > 0
    ensures Repack(Chunks(s, n), n) == s[..|s| - |s| % n]
    decreases |s|
  {
    if |s| < n {
      DivModUnique(|s|, n, 0, |s|);
    } else {
      var w, t := s[..n], s[n..];
      var m := |s| - |s| % n;
      RemainderAfterWord(|s|, n);
      ChunksRepack(t, n);
      PackOfLittleEndian(w);
      var cs := Chunks(s, n);
      assert cs == [LittleEndian(w)] + Chunks(t, n);
      assert Repack(cs, n) == Pack(LittleEndian(w), n) + Repack(Chunks(t, n), n) by {
        assert cs[1..] == Chunks(t, n);
      }
      assert t[..|t| - |t| % n] == s[n..m];
      assert s[..m] == w + s[n..m];
    }
  }

  /** On b'\x01\x02\x03\x04' with n = 2 the source yields the words at offsets 0 and 1,
      0x0201 and 0x0302; the intended words are those at offsets 0 and 2, 0x0201 and 0x0403. */
  lemma ExtractAllBytesOverlaps()
    ensures ExtractAllBytes([1, 2, 3, 4], 2) == Ok([0x0201, 0x0302])
    ensures ExtractAllChunks([1, 2, 3, 4], 2) == Ok([0x0201, 0x0403])
  {
    var s: seq<byte> := [1, 2, 3, 4];
    var ws := Windows(s, 2);
    assert ws[0] == LittleEndian(s[0..2]) == 0x0201;
    assert ws[1] == LittleEndian(s[1..3]) == 0x0302;
    assert ws == [0x0201, 0x0302];
    assert s[2..][..2] == [3, 4];
    assert Chunks(s, 2) == [LittleEndian(s[..2])] + Chunks(s[2..], 2);
    assert Chunks(s[2..], 2) == [LittleEndian(s[2..][..2])] + Chunks(s[2..][2..], 2);
    assert Chunks(s[2..][2..], 2) == [];
    assert LittleEndian(s[..2]) == 0x0201;
    assert LittleEndian(s[2..][..2]) == 0x0403;
    assert Chunks(s[2..], 2) == [0x0403];
    assert Chunks(s, 2) == [0x0201, 0x0403];
  }

  // ----- extract_first_hex: [0-9a-z] instead of [0-9a-f] -----

  /** extract_first_hex as the neighbouring extract_all_hex reads: the first [0-9a-f] value,
      or -1. It never raises. */
  function FirstHexValue(s: seq<byte>): (r: int)
    ensures r >= -1
    ensures r == -1 <==> forall q :: 0 <= q < |s| ==> !StartsToken(s, LowerHex, q)
  {
    ExtractAllHexEmpty(s);
    var vs := ExtractAllHex(s).value;
    if vs == [] then -1 else vs[0]
  }

  /** Whenever the source's extract_first_hex does not raise, it agrees with the intended one. */
  lemma FirstHexValueAgrees(s: seq<byte>)
    ensures ExtractFirstHex(s).Ok? ==> ExtractFirstHex(s).value == FirstHexValue(s)
  {
    var ms := Matches(s, LowerAlnum, 0);
    ExtractFirstHexRaises(s);
    ExtractFirstHexNotFound(s);
    if ms != [] && HexDigitsOnly(s, ms[0]) {
      ExtractFirstHexAgrees(s);
    } else if ms == [] {
      FirstMatchIsLeftmost(s, LowerAlnum, 0);
      assert forall q :: 0 <= q < |s| && StartsToken(s, LowerHex, q) ==> StartsToken(s, LowerAlnum, q);
    }
  }

  /** On b'0x1g' the source raises ValueError (int(b'0x1g', 16)), while the intended scan
      stops at 'g' and returns 1. */
  lemma ExtractFirstHexRaisesOnLetter()
    ensures ExtractFirstHex([48, 120, 49, 103]) == Err(ValueError)
    ensures FirstHexValue([48, 120, 49, 103]) == 1
  {
    var s: seq<byte> := [48, 120, 49, 103];
    assert RunEnd(s, LowerAlnum, 2) == 4;
    assert Matches(s, LowerAlnum, 0) == [Span(0, 4)];
    assert FindAll(s, LowerAlnum)[0] == s[0..4] == s;
    assert !IsHexChar(Char(s[3]));
    assert RunEnd(s, LowerHex, 2) == 3;
    assert Matches(s, LowerHex, 0) == [Span(0, 3)];
    assert Chars(s[2..3]) == "1";
  }
}
