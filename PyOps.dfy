/** Python's floor division and slicing, which the source applies to lengths and byte strings. */
module PyOps {

  /** a // b for b != 0: the quotient rounded toward minus infinity. For a positive divisor
      it is Dafny's division; a non-negative number over a negative divisor is never positive. */
  function FloorDiv(a: int, b: int): (q: int)
    requires b != 0
    ensures b > 0 ==> q == a / b
    ensures a >= 0 && b > 0 ==> q >= 0
    ensures a >= 0 && b < 0 ==> q <= 0
  {
    if b > 0 then a / b else (-a) / (-b)
  }

  /** a // b is the floor of a / b: b * q <= a < b * (q + 1), with the inequalities turned
      round for a negative divisor. */
  lemma FloorDivIsFloor(a: int, b: int)
    requires b != 0
    ensures var q := FloorDiv(a, b);
      if b > 0 then b * q <= a < b * q + b else b * q + b < a <= b * q
  {
    if b < 0 {
      var q := (-a) / (-b);
      assert -a == (-b) * q + (-a) % (-b);
      assert b * q == -((-b) * q);
    }
  }

  /** A slice bound as Python normalises it: negative counts from the end, then clamped to [0, len]. */
  function SliceBound(i: int, len: nat): (j: nat)
    ensures j <= len
    ensures 0 <= i <= len ==> j == i
  {
    if i < 0 then (if i + len < 0 then 0 else i + len) else if i > len then len else i
  }

  /** s[a:b]: never fails, empty when the normalised bounds cross. */
  function Slice<T>(s: seq<T>, a: int, b: int): (r: seq<T>)
    ensures 0 <= a <= b <= |s| ==> r == s[a..b]
    ensures |r| <= |s|
  {
    var lo, hi := SliceBound(a, |s|), SliceBound(b, |s|);
    if lo < hi then s[lo..hi] else []
  }
}
