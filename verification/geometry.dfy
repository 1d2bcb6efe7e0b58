/** Points, rectangles and the neighbourhood relation used by the clusterer. */
module Geometry {

  /** A sampled pixel coordinate, the Kotlin `Pair<Int, Int>` of the detector. */
  datatype Point = Point(x: int, y: int)

  /** An `android.graphics.Rect` with inclusive extreme coordinates as built by the clusterer. */
  datatype Rect = Rect(left: int, top: int, right: int, bottom: int) {

    /** `Rect.width()`: right minus left, negative for an inverted rectangle. */
    function Width(): int { right - left }

    /** `Rect.height()`: bottom minus top. */
    function Height(): int { bottom - top }

    predicate Contains(p: Point) {
      left <= p.x <= right && top <= p.y <= bottom
    }
  }

  /** The neighbour search visits offsets `dx, dy` in `-2..2`. */
  const Radius := 2

  function Abs(n: int): nat {
    if n < 0 then -n else n
  }

  function Min(a: int, b: int): int {
    if a <= b then a else b
  }

  function Max(a: int, b: int): int {
    if a <= b then b else a
  }

  /** Two distinct points whose coordinates differ by at most `Radius` on both axes
      (Chebyshev distance 1..2); the offset (0, 0) is skipped by the search. */
  predicate Adjacent(p: Point, q: Point) {
    p != q && Abs(p.x - q.x) <= Radius && Abs(p.y - q.y) <= Radius
  }

  /** The rectangle `(min x, min y, max x, max y)` of a non-empty group: it contains every
      point and each of its four sides is attained by some point of the group. */
  function BoundingBox(g: seq<Point>): (r: Rect)
    requires |g| > 0
    ensures r.left <= r.right && r.top <= r.bottom
    ensures forall p :: p in g ==> r.Contains(p)
    ensures exists p :: p in g && p.x == r.left
    ensures exists p :: p in g && p.y == r.top
    ensures exists p :: p in g && p.x == r.right
    ensures exists p :: p in g && p.y == r.bottom
  {
    if |g| == 1 then
      Rect(g[0].x, g[0].y, g[0].x, g[0].y)
    else
      var rest := BoundingBox(g[1..]);
      assert forall p :: p in g ==> p == g[0] || p in g[1..];
      Rect(Min(g[0].x, rest.left), Min(g[0].y, rest.top), Max(g[0].x, rest.right), Max(g[0].y, rest.bottom))
  }
}
