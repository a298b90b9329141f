/**
 * A straight edge between two nodes with its Gauss quadrature
 * (element/edge.hpp).  The rule has Degree/2 + 1 points; only degrees whose
 * rule exists (0 to 3) are modelled.  Measure() is a square root in the
 * source: here it is a parameter `measure` with IsLength(head, tail, measure).
 */
module ElementEdge {
  import opened Geometry
  import Gauss

  /** Number of quadrature points of an edge of polynomial degree `degree`. */
  function NumQuadPoints(degree: nat): (n: nat)
    requires degree <= 3
    ensures n == 1 || n == 2
    ensures n == degree / 2 + 1
  {
    degree / 2 + 1
  }

  datatype Edge = Edge(head: Node, tail: Node, degree: nat, quadPoints: seq<Point>)

  /** Midpoint of the edge. */
  function Center(head: Node, tail: Node): (c: Point)
    ensures c.x * 2.0 == head.x + tail.x && c.y * 2.0 == head.y + tail.y
  {
    head.Pos().Add(tail.Pos()).Scale(0.5)
  }

  /** Maps the reference coordinate s in [-1, 1] onto the segment head -> tail. */
  function LocalToGlobal(head: Node, tail: Node, s: real): Point {
    head.Pos().Add(tail.Pos()).Add(tail.Pos().Sub(head.Pos()).Scale(s)).Scale(0.5)
  }

  /** The reference end points and midpoint land on head, tail and the centre. */
  lemma LocalToGlobalEnds(head: Node, tail: Node)
    ensures LocalToGlobal(head, tail, -1.0) == head.Pos()
    ensures LocalToGlobal(head, tail, 1.0) == tail.Pos()
    ensures LocalToGlobal(head, tail, 0.0) == Center(head, tail)
  {
  }

  /** LocalToGlobal is affine: it moves along head -> tail proportionally to s. */
  lemma LocalToGlobalAffine(head: Node, tail: Node, s: real, t: real)
    ensures LocalToGlobal(head, tail, t).Sub(LocalToGlobal(head, tail, s))
         == tail.Pos().Sub(head.Pos()).Scale((t - s) / 2.0)
  {
  }

  /** Quadrature point i of an edge is the image of Gauss point i. */
  function QuadPointsOf(head: Node, tail: Node, degree: nat): (points: seq<Point>)
    requires degree <= 3
  {
    var rule := Gauss.GaussRule(NumQuadPoints(degree));
    seq(NumQuadPoints(degree), i requires 0 <= i < NumQuadPoints(degree) => LocalToGlobal(head, tail, rule.xLocal[i]))
  }

  /** The constructor's loop: quadrature point i is the image of Gauss point i. */
  method BuildQuadPoints(head: Node, tail: Node, degree: nat) returns (points: seq<Point>)
    requires degree <= 3
    ensures |points| == NumQuadPoints(degree)
    ensures forall i :: 0 <= i < |points| ==>
      points[i] == LocalToGlobal(head, tail, Gauss.GaussRule(NumQuadPoints(degree)).xLocal[i])
    ensures points == QuadPointsOf(head, tail, degree)
  {
    var n := NumQuadPoints(degree);
    var rule := Gauss.GaussRule(n);
    points := [];
    var i := 0;
    while i < n
      invariant 0 <= i <= n
      invariant |points| == i
      invariant forall k :: 0 <= k < i ==> points[k] == LocalToGlobal(head, tail, rule.xLocal[k])
    {
      points := points + [LocalToGlobal(head, tail, rule.xLocal[i])];
      i := i + 1;
    }
  }

  method NewEdge(head: Node, tail: Node, degree: nat) returns (e: Edge)
    requires degree <= 3
    ensures e.head == head && e.tail == tail && e.degree == degree
    ensures ValidEdge(e)
    ensures e == MakeEdge(head, tail, degree)
  {
    var points := BuildQuadPoints(head, tail, degree);
    e := Edge(head, tail, degree, points);
  }

  /** The edge the constructor builds. */
  function MakeEdge(head: Node, tail: Node, degree: nat): (e: Edge)
    requires degree <= 3
    ensures ValidEdge(e)
  {
    Edge(head, tail, degree, QuadPointsOf(head, tail, degree))
  }

  ghost predicate ValidEdge(e: Edge) {
    && e.degree <= 3
    && |e.quadPoints| == NumQuadPoints(e.degree)
    && forall i :: 0 <= i < |e.quadPoints| ==>
         e.quadPoints[i] == LocalToGlobal(e.head, e.tail, Gauss.GaussRule(NumQuadPoints(e.degree)).xLocal[i])
  }

  /** Sum of f(q_i) * w_i over the first |w| quadrature points. */
  function WeightedSum(f: Point -> real, points: seq<Point>, weights: seq<real>): real
    requires |points| == |weights|
  {
    if weights == [] then 0.0
    else WeightedSum(f, points[..|points| - 1], weights[..|weights| - 1])
         + f(points[|points| - 1]) * weights[|weights| - 1]
  }

  /** Integrate(f): the weighted sum over the quadrature points, times half the length `measure` of the edge. */
  method Integrate(e: Edge, f: Point -> real, measure: real) returns (result: real)
    requires ValidEdge(e) && IsLength(e.head.Pos(), e.tail.Pos(), measure)
    ensures result == WeightedSum(f, e.quadPoints, Gauss.GaussRule(NumQuadPoints(e.degree)).weights) * 0.5 * measure
  {
    var n := NumQuadPoints(e.degree);
    var w := Gauss.GaussRule(n).weights;
    var sum := 0.0;
    var i := 0;
    while i < n
      invariant 0 <= i <= n
      invariant sum == WeightedSum(f, e.quadPoints[..i], w[..i])
    {
      assert e.quadPoints[..i + 1][..i] == e.quadPoints[..i];
      assert w[..i + 1][..i] == w[..i];
      sum := sum + f(e.quadPoints[i]) * w[i];
      i := i + 1;
    }
    assert e.quadPoints[..n] == e.quadPoints;
    assert w[..n] == w;
    result := sum * 0.5 * measure;
  }

  lemma WeightedSumConstant(c: real, points: seq<Point>, weights: seq<real>)
    requires |points| == |weights|
    ensures WeightedSum(_ => c, points, weights) == c * Gauss.Sum(weights)
  {
    if weights != [] {
      WeightedSumConstant(c, points[..|points| - 1], weights[..|weights| - 1]);
    }
  }

  /** A constant integrand c integrates to c times the edge length. */
  lemma IntegrateConstant(e: Edge, c: real, measure: real)
    requires ValidEdge(e) && IsLength(e.head.Pos(), e.tail.Pos(), measure)
    ensures WeightedSum(_ => c, e.quadPoints, Gauss.GaussRule(NumQuadPoints(e.degree)).weights) * 0.5 * measure
         == c * measure
  {
    var n := NumQuadPoints(e.degree);
    WeightedSumConstant(c, e.quadPoints, Gauss.GaussRule(n).weights);
    Gauss.WeightsSumToTwo(n);
  }

  /** The unit-test edge (0.3, 0) -- (0, 0.4) has length 0.5. */
  lemma TestEdgeLength()
    ensures IsLength(Point(0.3, 0.0), Point(0.0, 0.4), 0.5)
  {
  }
}
