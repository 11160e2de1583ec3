/**
 * Pixel geometry shared by the face locator and the framing engine:
 * rectangles, sizes, the 4:5 target ratio and Python's `int()` on a real.
 */
module Geometry {

  /** The target width:height ratio 4 / 5, exactly (Python's `4 / 5`). */
  const TargetRatio: real := 0.8

  /** A crop box in Pillow's convention: (left, upper, right, lower). */
  datatype Rect = Rect(left: int, top: int, right: int, bottom: int) {
    function Width(): int { right - left }
    function Height(): int { bottom - top }

    /** The rectangle lies within a `w` by `h` image and is not inverted. */
    predicate InsideImage(w: int, h: int) {
      0 <= left <= right <= w && 0 <= top <= bottom <= h
    }
  }

  /** Image dimensions (width, height). */
  datatype Size = Size(width: int, height: int)

  function Min(a: int, b: int): int { if a <= b then a else b }
  function Max(a: int, b: int): int { if a >= b then a else b }
  function MinR(a: real, b: real): real { if a <= b then a else b }
  function MaxR(a: real, b: real): real { if a >= b then a else b }

  /**
   * Python's `int(v)` for a real `v`: truncation toward zero.
   * The result is the integer nearest to `v` on the side of zero.
   */
  function Trunc(v: real): (r: int)
    ensures 0.0 <= v ==> 0 <= r && r as real <= v < r as real + 1.0
    ensures v < 0.0 ==> r <= 0 && v <= r as real < v + 1.0
  {
    if v >= 0.0 then v.Floor else -((-v).Floor)
  }

  /** `int(n * 0.8)` of a non-negative integer is `4n div 5`. */
  lemma TruncFourFifths(n: int)
    requires 0 <= n
    ensures Trunc(n as real * TargetRatio) == 4 * n / 5
  {
    var q, m := 4 * n / 5, 4 * n % 5;
    assert 4 * n == 5 * q + m && 0 <= m < 5;
    assert n as real * TargetRatio == q as real + m as real / 5.0;
  }

  /** `int(n / 0.8)` of a non-negative integer is `5n div 4`. */
  lemma TruncFiveQuarters(n: int)
    requires 0 <= n
    ensures Trunc(n as real / TargetRatio) == 5 * n / 4
  {
    var q, m := 5 * n / 4, 5 * n % 4;
    assert 5 * n == 4 * q + m && 0 <= m < 4;
    assert n as real / TargetRatio == q as real + m as real / 4.0;
  }

  /** `int(v)` of a real is the floor of any integer numerator over a positive constant. */
  lemma FloorOverConstant(v: real, n: int, d: int)
    requires 0 < d && v == n as real / d as real
    ensures v.Floor == n / d
  {
    var q, m := n / d, n % d;
    assert n == d * q + m && 0 <= m < d;
    assert (d * q) as real == d as real * q as real;
    assert v == q as real + m as real / d as real;
    assert m as real / d as real < 1.0;
  }
}
