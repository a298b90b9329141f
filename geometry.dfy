/**
 * Points and nodes of the 2-D mesh (element/point.hpp, element/node.hpp),
 * with the few vector operations the geometry code uses.  Coordinates are
 * exact reals; Euclidean lengths (which the source takes with a square root)
 * are described by their defining equation instead of being computed.
 */
module Geometry {

  datatype Point = Point(x: real, y: real) {
    function Add(that: Point): Point { Point(x + that.x, y + that.y) }
    function Sub(that: Point): Point { Point(x - that.x, y - that.y) }
    function Scale(s: real): Point { Point(x * s, y * s) }
  }

  /** A mesh node: its index and its coordinates. */
  datatype Node = Node(id: nat, x: real, y: real) {
    function Pos(): Point { Point(x, y) }
  }

  /** The z-component of (b - a) x (c - a): twice the signed area of abc. */
  function Cross(a: Point, b: Point, c: Point): real {
    (b.x - a.x) * (c.y - a.y) - (b.y - a.y) * (c.x - a.x)
  }

  function Abs(r: real): (a: real)
    ensures a >= 0.0
    ensures a == r || a == -r
  {
    if r < 0.0 then -r else r
  }

  function SquaredDistance(p: Point, q: Point): real {
    (p.x - q.x) * (p.x - q.x) + (p.y - q.y) * (p.y - q.y)
  }

  /** `len` is the Euclidean distance between p and q: the non-negative square root. */
  ghost predicate IsLength(p: Point, q: Point, len: real) {
    len >= 0.0 && len * len == SquaredDistance(p, q)
  }

  /** Swapping the first and the third vertex reverses the orientation. */
  lemma CrossSwapFirstThird(a: Point, b: Point, c: Point)
    ensures Cross(c, b, a) == -Cross(a, b, c)
  {
  }

  /** A length is determined by its square: the square root is unique. */
  lemma LengthUnique(p: Point, q: Point, l1: real, l2: real)
    requires IsLength(p, q, l1) && IsLength(p, q, l2)
    ensures l1 == l2
  {
    assert (l1 - l2) * (l1 + l2) == 0.0;
    if l1 + l2 == 0.0 {
      assert l1 == 0.0 && l2 == 0.0;
    }
  }

  /** The length of a segment does not depend on the direction it is traversed in. */
  lemma LengthSymmetric(p: Point, q: Point, len: real)
    requires IsLength(p, q, len)
    ensures IsLength(q, p, len)
  {
  }
}
