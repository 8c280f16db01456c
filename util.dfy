/**
 * The small helpers of the 1-D matrix-multiply code: the minimum and the
 * maximum of two integers, and the exchange of two buffer pointers held in
 * two pointer variables; and the one fact about multiplication that the
 * buffer-index arithmetic of the matrix and image code rests on.
 */
module Util {

  /** Multiplying by a non-negative factor keeps the order. */
  lemma MulLe(a: int, b: int, w: int)
    requires 0 <= a <= b && 0 <= w
    ensures a * w <= b * w
  {
    var d := b - a;
    assert b * w == a * w + d * w;
  }

  /** The minimum of two integers; on a tie either is the answer. */
  function MinInt(a: int, b: int): (r: int)
    ensures r <= a && r <= b
    ensures r == a || r == b
  {
    if a < b then a else b
  }

  /** The maximum of two integers; on a tie either is the answer. */
  function MaxInt(a: int, b: int): (r: int)
    ensures r >= a && r >= b
    ensures r == a || r == b
  {
    if a < b then b else a
  }

  /** The minimum and the maximum together are the two values again. */
  lemma MinPlusMax(a: int, b: int)
    ensures MinInt(a, b) + MaxInt(a, b) == a + b
    ensures MinInt(a, b) == MinInt(b, a) && MaxInt(a, b) == MaxInt(b, a)
  {
  }

  /** A variable holding a pointer to a buffer of doubles, `double*`. */
  class BufferPointer {
    var target: array<real>

    constructor (a: array<real>)
      ensures target == a
    {
      target := a;
    }
  }

  /**
   * Exchanges the buffers the two pointer variables point to, and changes
   * nothing else. When both are the same variable nothing changes.
   */
  method SwapPointers(pa: BufferPointer, pb: BufferPointer)
    modifies pa, pb
    ensures pa.target == old(pb.target) && pb.target == old(pa.target)
  {
    var c := pa.target;
    pa.target := pb.target;
    pb.target := c;
  }
}
