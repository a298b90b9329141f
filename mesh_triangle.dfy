/**
 * The mesh cell of mesh/triangle.hpp: a triangle with the three edges it
 * was built from (by index into the mesh's edge list), the solver's cell
 * data and the matrices sized by the number of basis coefficients.
 */
module MeshTriangle {
  import opened ElementTriangle
  import MeshEdge
  import Basis

  /** The solver's cell data: the three Runge-Kutta stage values. */
  datatype CellData = CellData(u0: real, u1: real, u2: real)

  function Stage(d: CellData, k: nat): real
    requires k < 3
  {
    if k == 0 then d.u0 else if k == 1 then d.u1 else d.u2
  }

  datatype Cell = Cell(tri: Triangle, ab: nat, bc: nat, ca: nat, degree: nat, data: CellData,
                       aMatrix: seq<seq<real>>, bVector: seq<real>)

  function Zeros(n: nat): (z: seq<real>)
    ensures |z| == n && forall i :: 0 <= i < n ==> z[i] == 0.0
  {
    seq(n, _ => 0.0)
  }

  /**
   * The constructor: edges_ = {ab, bc, ca}; a_matrix is square and b_vector
   * as long as the number of coefficients of the degree.  The constructor
   * writes neither them nor data, and the solver's fixed-size Eigen stage
   * vector is not initialised by default construction, so their values are
   * indeterminate; the model uses zeros as the stand-in.
   */
  function NewCell(tri: Triangle, ab: nat, bc: nat, ca: nat, degree: nat): (c: Cell)
    ensures c.tri == tri && ForEachEdge(c) == [ab, bc, ca]
    ensures c.data == CellData(0.0, 0.0, 0.0)
    ensures |c.aMatrix| == CountCoefficients(c) && |c.bVector| == CountCoefficients(c)
    ensures forall i :: 0 <= i < |c.aMatrix| ==> |c.aMatrix[i]| == CountCoefficients(c)
    ensures Degree(c) == degree
  {
    var n := MeshEdge.CountCoefficients(degree);
    Cell(tri, ab, bc, ca, degree, CellData(0.0, 0.0, 0.0), seq(n, _ => Zeros(n)), Zeros(n))
  }

  /** Degree() is the template degree (unlike mesh::Basis, whose Degree() is always 1). */
  function Degree(c: Cell): (d: nat)
    ensures c.degree > 1 && c.degree <= 3 ==> d != Basis.MeshBasisDegree(c.degree)
  {
    c.degree
  }

  /** CountCoefficients() is the same formula as the edge's and the basis's. */
  function CountCoefficients(c: Cell): (n: nat)
    ensures n == MeshEdge.CountCoefficients(c.degree) && n == Basis.CountCoefficients(c.degree)
  {
    (c.degree + 1) * (c.degree + 2) / 2 - 1
  }

  /** ForEachEdge: the three constructor edges, in the order ab, bc, ca. */
  function ForEachEdge(c: Cell): (edges: seq<nat>)
    ensures |edges| == 3 && edges[0] == c.ab && edges[1] == c.bc && edges[2] == c.ca
  {
    [c.ab, c.bc, c.ca]
  }
}
