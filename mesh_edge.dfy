/**
 * The mesh edge of mesh/edge.hpp: the geometric edge plus the two cells it
 * separates and the solver's per-edge data.  Cells are referred to by
 * index: a real cell of the mesh or a ghost cell of the boundary manager.
 */
module MeshEdge {
  import opened Geometry
  import opened Wrappers
  import ElementEdge
  import Basis
  import Gauss

  /** What a side refers to: a mesh cell or a periodic ghost. */
  datatype CellRef = Real(index: nat) | Ghost(index: nat)

  /** The solver's edge data: normal speed of the rotated solver, flux, squared centre distance. */
  datatype EdgeData = EdgeData(speed: real, flux: real, distanceSq: real)

  /**
   * headIndex and tailIndex are the node ids the edge was emplaced with.
   * quadPoints is the mesh edge's own quad_points_ array, which hides the
   * base edge's geo.quadPoints.
   */
  datatype Edge = Edge(geo: ElementEdge.Edge, headIndex: nat, tailIndex: nat,
                       positive: Option<CellRef>, negative: Option<CellRef>, data: EdgeData,
                       quadPoints: seq<Point>)

  /**
   * A default-constructed point: no constructor of the mesh edge writes its
   * own quad_points_, so they hold no defined value, and the model uses
   * this one stand-in for all of them.
   */
  const Unset := Point(0.0, 0.0)

  /** The mesh edge's own array as construction leaves it: CountQuadPoints(order) unwritten points. */
  function Unfilled(order: nat): (r: seq<Point>)
    requires order <= 3
    ensures |r| == CountQuadPoints(order)
    ensures forall i :: 0 <= i < |r| ==> r[i] == Unset
  {
    seq(order / 2 + 1, _ => Unset)
  }

  /**
   * A fresh edge: the base edge builds its quadrature points from the end
   * nodes, the mesh edge's own array stays unwritten, no cell on either side.
   */
  function NewEdge(head: Node, tail: Node, headIndex: nat, tailIndex: nat, order: nat): (e: Edge)
    requires order <= 3
    ensures e.positive == None && e.negative == None
    ensures e.geo.head == head && e.geo.tail == tail && e.geo.degree == order && ElementEdge.ValidEdge(e.geo)
    ensures e.headIndex == headIndex && e.tailIndex == tailIndex
    ensures e.quadPoints == Unfilled(order)
  {
    Edge(ElementEdge.MakeEdge(head, tail, order), headIndex, tailIndex, None, None, EdgeData(0.0, 0.0, 0.0), Unfilled(order))
  }

  /** SetPositiveSide: the positive side becomes c and nothing else changes. */
  function SetPositiveSide(e: Edge, c: Option<CellRef>): (r: Edge)
    ensures r.positive == c
    ensures r.negative == e.negative && r.geo == e.geo && r.data == e.data
    ensures r.headIndex == e.headIndex && r.tailIndex == e.tailIndex && r.quadPoints == e.quadPoints
  {
    e.(positive := c)
  }

  /** SetNegativeSide: the negative side becomes c and nothing else changes. */
  function SetNegativeSide(e: Edge, c: Option<CellRef>): (r: Edge)
    ensures r.negative == c
    ensures r.positive == e.positive && r.geo == e.geo && r.data == e.data
    ensures r.headIndex == e.headIndex && r.tailIndex == e.tailIndex && r.quadPoints == e.quadPoints
  {
    e.(negative := c)
  }

  /** The two setters touch different fields, so their order does not matter. */
  lemma SettersCommute(e: Edge, p: Option<CellRef>, n: Option<CellRef>)
    ensures SetNegativeSide(SetPositiveSide(e, p), n) == SetPositiveSide(SetNegativeSide(e, n), p)
  {
  }

  /** num_coefficients = (Order + 1)(Order + 2)/2 - 1, shared with the cell and its basis. */
  function CountCoefficients(order: nat): (n: nat)
    ensures n == Basis.CountCoefficients(order)
    ensures order == 1 ==> n == 2
    ensures order == 2 ==> n == 5
    ensures order == 3 ==> n == 9
  {
    (order + 1) * (order + 2) / 2 - 1
  }

  /** num_quad_points = Order / 2 + 1, with integer division: 1, 2, 2 for orders 1, 2, 3. */
  function CountQuadPoints(order: nat): (n: nat)
    requires order <= 3
    ensures n == ElementEdge.NumQuadPoints(order)
    ensures order <= 1 ==> n == 1
    ensures 2 <= order ==> n == 2
  {
    order / 2 + 1
  }

  /** The mesh edge's own array has one point per quadrature point of its order. */
  ghost predicate Sized(e: Edge) {
    ElementEdge.ValidEdge(e.geo) && |e.quadPoints| == CountQuadPoints(e.geo.degree)
  }

  /**
   * ForEachQuadPoint as written: visits the mesh edge's own quad_points_
   * in array order, not the base edge's quadrature points.
   */
  method ForEachQuadPoint(e: Edge) returns (visited: seq<Point>)
    requires Sized(e)
    ensures visited == e.quadPoints
    ensures |visited| == CountQuadPoints(e.geo.degree)
  {
    visited := [];
    var i := 0;
    while i < |e.quadPoints|
      invariant 0 <= i <= |e.quadPoints|
      invariant visited == e.quadPoints[..i]
    {
      visited := visited + [e.quadPoints[i]];
      i := i + 1;
    }
  }

  /**
   * On a constructed edge, what ForEachQuadPoint visits does not depend on
   * the end nodes, so on one of two edges with different centres it is not
   * the edge's quadrature points.
   */
  lemma UnfilledQuadPoints(h1: Node, t1: Node, h2: Node, t2: Node, order: nat)
    requires order <= 3
    ensures NewEdge(h1, t1, 0, 1, order).quadPoints == NewEdge(h2, t2, 0, 1, order).quadPoints
    ensures order <= 1 && ElementEdge.Center(h1, t1) != ElementEdge.Center(h2, t2) ==>
      NewEdge(h1, t1, 0, 1, order).quadPoints != NewEdge(h1, t1, 0, 1, order).geo.quadPoints
      || NewEdge(h2, t2, 0, 1, order).quadPoints != NewEdge(h2, t2, 0, 1, order).geo.quadPoints
  {
    if order <= 1 && ElementEdge.Center(h1, t1) != ElementEdge.Center(h2, t2) {
      var e1 := NewEdge(h1, t1, 0, 1, order);
      var e2 := NewEdge(h2, t2, 0, 1, order);
      ElementEdge.LocalToGlobalEnds(h1, t1);
      ElementEdge.LocalToGlobalEnds(h2, t2);
      assert e1.geo.quadPoints[0] == ElementEdge.Center(h1, t1);
      assert e2.geo.quadPoints[0] == ElementEdge.Center(h2, t2);
    }
  }

  /**
   * The evidently intended ForEachQuadPoint: the base edge's points, the
   * images of the Gauss points on the edge.
   */
  method ForEachBaseQuadPoint(e: Edge) returns (visited: seq<Point>)
    requires ElementEdge.ValidEdge(e.geo)
    ensures |visited| == CountQuadPoints(e.geo.degree)
    ensures forall i :: 0 <= i < |visited| ==>
      visited[i] == ElementEdge.LocalToGlobal(e.geo.head, e.geo.tail, Gauss.GaussRule(CountQuadPoints(e.geo.degree)).xLocal[i])
  {
    visited := [];
    var i := 0;
    while i < |e.geo.quadPoints|
      invariant 0 <= i <= |e.geo.quadPoints|
      invariant visited == e.geo.quadPoints[..i]
    {
      visited := visited + [e.geo.quadPoints[i]];
      i := i + 1;
    }
  }
}
