/** `find_nearest_line_start`: clamp a position into the file, then walk back
    to the start of the line that contains it. */
module Align {
  import opened Lines

  /** The bound check at the head of `find_nearest_line_start`: a position at
      or past the end becomes `size - 1`, then a negative one becomes 0. */
  function Clamp(size: nat, pos: int): (c: nat)
    ensures size > 0 ==> c < size
    ensures size == 0 ==> c == 0
    ensures c <= if pos < 0 then 0 else pos
    ensures 0 <= pos < size ==> c == pos
    ensures pos >= size > 0 ==> c == size - 1
  {
    var hi := if pos >= size then size - 1 else pos;
    if hi < 0 then 0 else hi
  }

  /** The greatest line start at or before `c`. */
  function LineStartAtOrBefore(data: Bytes, c: nat): (p: nat)
    requires c <= |data|
    ensures p <= c && IsLineStart(data, p)
    ensures forall i :: p <= i < c ==> data[i] != NEWLINE
    decreases c
  {
    if c == 0 || data[c - 1] == NEWLINE then c else LineStartAtOrBefore(data, c - 1)
  }

  /** What `find_nearest_line_start(mm, pos)` returns (the specification of
      the method below, for use in functions and lemmas). */
  function NearestLineStart(data: Bytes, pos: int): (p: nat)
    ensures IsLineStart(data, p) && p <= Clamp(|data|, pos)
    ensures |data| > 0 ==> p < |data|
    ensures forall i :: p <= i < Clamp(|data|, pos) ==> data[i] != NEWLINE
  {
    LineStartAtOrBefore(data, Clamp(|data|, pos))
  }

  /** The loop of `find_nearest_line_start`: decrement `pos` while the byte
      before it is not a newline. */
  method FindNearestLineStart(data: Bytes, pos: int) returns (p: nat)
    ensures IsLineStart(data, p) && p <= Clamp(|data|, pos)
    ensures forall i :: p <= i < Clamp(|data|, pos) ==> data[i] != NEWLINE
    ensures p == NearestLineStart(data, pos)
  {
    var size := |data|;
    var cur := pos;
    if cur >= size {
      cur := size - 1;
    }
    if cur < 0 {
      cur := 0;
    }
    ghost var clamped := cur;
    while cur > 0 && data[cur - 1] != NEWLINE
      invariant 0 <= cur <= clamped == Clamp(size, pos)
      invariant forall i :: cur <= i < clamped ==> data[i] != NEWLINE
      invariant LineStartAtOrBefore(data, cur) == NearestLineStart(data, pos)
      decreases cur
    {
      cur := cur - 1;
    }
    p := cur;
  }

  /** The result is the GREATEST line start at or before the clamped input:
      every line start up to the clamped position is at or before it. */
  lemma NearestIsGreatest(data: Bytes, pos: int, q: int)
    requires IsLineStart(data, q) && q <= Clamp(|data|, pos)
    ensures q <= NearestLineStart(data, pos)
  {
    assert q > 0 ==> data[q - 1] == NEWLINE;
  }

  /** Aligning an aligned in-range position returns it unchanged. */
  lemma NearestOfLineStart(data: Bytes, p: nat)
    requires IsLineStart(data, p) && (p < |data| || p == 0)
    ensures NearestLineStart(data, p) == p
  {
    NearestIsGreatest(data, p, p);
  }

  /** Alignment is idempotent on every input. */
  lemma NearestIdempotent(data: Bytes, pos: int)
    ensures NearestLineStart(data, NearestLineStart(data, pos)) == NearestLineStart(data, pos)
  {
    NearestOfLineStart(data, NearestLineStart(data, pos));
  }

  /** Alignment is monotone in its input. */
  lemma NearestMonotone(data: Bytes, x: int, y: int)
    requires x <= y
    ensures NearestLineStart(data, x) <= NearestLineStart(data, y)
  {
    NearestIsGreatest(data, y, NearestLineStart(data, x));
  }

  /** A negative position aligns to 0; a position at or past the end aligns to
      the start of the line holding the last byte. */
  lemma NearestOutOfRange(data: Bytes, pos: int)
    ensures pos < 0 ==> NearestLineStart(data, pos) == 0
    ensures pos >= |data| ==> NearestLineStart(data, pos) == NearestLineStart(data, |data| - 1)
  {
  }
}
