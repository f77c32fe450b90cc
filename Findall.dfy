/** re.findall(b'0x[C]+', s) for the two character classes C the source uses, as a
    left-to-right scanner over the byte string. */
module Findall {
  import opened Packing
  import opened HexText

  /** The ASCII character a byte stands for. */
  function Char(b: byte): char
  {
    b as int as char
  }

  function Chars(bs: seq<byte>): (r: string)
    ensures |r| == |bs| && forall i :: 0 <= i < |bs| ==> r[i] == Char(bs[i])
  {
    seq(|bs|, i requires 0 <= i < |bs| => Char(bs[i]))
  }

  /** [0-9a-f] and [0-9a-z]. */
  datatype CharClass = LowerHex | LowerAlnum

  predicate InClass(c: CharClass, b: byte)
  {
    match c
    case LowerHex => IsHexChar(Char(b))
    case LowerAlnum => '0' <= Char(b) <= '9' || 'a' <= Char(b) <= 'z'
  }

  /** Where a match can begin: "0x" followed by one byte of the class. */
  predicate StartsToken(s: seq<byte>, c: CharClass, p: int)
  {
    0 <= p && p + 2 < |s| && Char(s[p]) == '0' && Char(s[p + 1]) == 'x' && InClass(c, s[p + 2])
  }

  /** The half-open byte range [start, end) of one match. */
  datatype Span = Span(start: nat, end: nat)

  /** A match of '0x[C]+': it begins at a token start and its run of class bytes is maximal. */
  predicate IsMatch(s: seq<byte>, c: CharClass, m: Span)
  {
    && StartsToken(s, c, m.start)
    && m.start + 3 <= m.end <= |s|
    && (forall i :: m.start + 2 <= i < m.end ==> InClass(c, s[i]))
    && (m.end == |s| || !InClass(c, s[m.end]))
  }

  predicate Covered(ms: seq<Span>, q: int)
  {
    exists k :: 0 <= k < |ms| && ms[k].start <= q < ms[k].end
  }

  /** The end of the run of class bytes that begins at q (the greedy '+'). */
  function RunEnd(s: seq<byte>, c: CharClass, q: nat): (e: nat)
    requires q <= |s|
    ensures q <= e <= |s|
    ensures forall i :: q <= i < e ==> InClass(c, s[i])
    ensures e == |s| || !InClass(c, s[e])
    decreases |s| - q
  {
    if q < |s| && InClass(c, s[q]) then RunEnd(s, c, q + 1) else q
  }

  /** The spans re.findall reports when it starts scanning at p: try a match at each
      position in turn, and after a match resume at its end. */
  function Matches(s: seq<byte>, c: CharClass, p: nat): (ms: seq<Span>)
    requires p <= |s|
    ensures forall k :: 0 <= k < |ms| ==> p <= ms[k].start && IsMatch(s, c, ms[k])
    decreases |s| - p
  {
    if p + 2 >= |s| then []
    else if StartsToken(s, c, p) then
      var e := RunEnd(s, c, p + 2);
      [Span(p, e)] + Matches(s, c, e)
    else Matches(s, c, p + 1)
  }

  /** re.findall(b'0x[C]+', s): the matched byte strings, left to right. */
  function FindAll(s: seq<byte>, c: CharClass): (ts: seq<seq<byte>>)
    ensures var ms := Matches(s, c, 0);
      |ts| == |ms| && forall k :: 0 <= k < |ts| ==> ts[k] == s[ms[k].start..ms[k].end]
    ensures forall k :: 0 <= k < |ts| ==>
      |ts[k]| >= 3 && Char(ts[k][0]) == '0' && Char(ts[k][1]) == 'x'
      && (forall i :: 2 <= i < |ts[k]| ==> InClass(c, ts[k][i]))
  {
    var ms := Matches(s, c, 0);
    seq(|ms|, k requires 0 <= k < |ms| => s[ms[k].start..ms[k].end])
  }

  predicate Ordered(ms: seq<Span>)
  {
    forall j, k :: 0 <= j < k < |ms| ==> ms[j].end <= ms[k].start
  }

  /** The matches come left to right and do not overlap. */
  lemma {:induction false} MatchesOrdered(s: seq<byte>, c: CharClass, p: nat)
    requires p <= |s|
    ensures Ordered(Matches(s, c, p))
    decreases |s| - p
  {
    if p + 2 < |s| {
      if StartsToken(s, c, p) {
        var e := RunEnd(s, c, p + 2);
        var rest := Matches(s, c, e);
        MatchesOrdered(s, c, e);
        var ms := [Span(p, e)] + rest;
        assert Matches(s, c, p) == ms;
        forall j, k | 0 <= j < k < |ms|
          ensures ms[j].end <= ms[k].start
        {
          assert ms[k] == rest[k - 1];
          if j > 0 {
            assert ms[j] == rest[j - 1];
          } else {
            assert e <= rest[k - 1].start;
          }
        }
      } else {
        MatchesOrdered(s, c, p + 1);
      }
    }
  }

  /** Every place from p on where a match could begin lies inside one of ms. */
  predicate CoversStarts(s: seq<byte>, c: CharClass, p: nat, ms: seq<Span>)
  {
    forall q {:trigger Covered(ms, q)} :: p <= q < |s| && StartsToken(s, c, q) ==> Covered(ms, q)
  }

  /** No match is skipped: each reported match is the leftmost one left after the previous. */
  lemma {:induction false} MatchesCover(s: seq<byte>, c: CharClass, p: nat)
    requires p <= |s|
    ensures CoversStarts(s, c, p, Matches(s, c, p))
    decreases |s| - p
  {
    if p + 2 < |s| {
      if StartsToken(s, c, p) {
        var e := RunEnd(s, c, p + 2);
        var rest := Matches(s, c, e);
        MatchesCover(s, c, e);
        var ms := [Span(p, e)] + rest;
        assert Matches(s, c, p) == ms;
        forall q | p <= q < |s| && StartsToken(s, c, q)
          ensures Covered(ms, q)
        {
          if q < e {
            assert ms[0].start <= q < ms[0].end;
          } else {
            assert Covered(rest, q);
            var k :| 0 <= k < |rest| && rest[k].start <= q < rest[k].end;
            assert ms[k + 1] == rest[k];
          }
        }
      } else {
        MatchesCover(s, c, p + 1);
      }
    }
  }

  /** There is a match iff some place admits one, and the first match begins at the
      leftmost such place. */
  lemma FirstMatchIsLeftmost(s: seq<byte>, c: CharClass, p: nat)
    requires p <= |s|
    ensures var ms := Matches(s, c, p);
      ms != [] <==> exists q :: p <= q < |s| && StartsToken(s, c, q)
    ensures var ms := Matches(s, c, p);
      ms != [] ==> forall q :: p <= q < ms[0].start ==> !StartsToken(s, c, q)
  {
    var ms := Matches(s, c, p);
    MatchesOrdered(s, c, p);
    MatchesCover(s, c, p);
    if ms != [] {
      assert StartsToken(s, c, ms[0].start);
      forall q | p <= q < |s| && StartsToken(s, c, q)
        ensures ms[0].start <= q
      {
        assert Covered(ms, q);
        var k :| 0 <= k < |ms| && ms[k].start <= q < ms[k].end;
        assert k == 0 || ms[0].end <= ms[k].start;
      }
    }
    forall q | p <= q < |s| && StartsToken(s, c, q)
      ensures ms != []
    {
      assert Covered(ms, q);
    }
  }
}
