/**
 * The explicit solver of solver/rkvr.hpp for scalar linear advection: each
 * edge carries the normal speed of the rotated upwind solver, a time step
 * computes edge fluxes from the cells on both sides, sums them into each
 * cell's right-hand side with a sign given by the side, and advances the
 * cell values by the three-stage strong-stability-preserving Runge-Kutta
 * scheme.
 *
 * Edge lengths are square roots; they are passed in as `lengths`, one per
 * edge. The solver's methods require each to be the length of its edge
 * (LengthsOf) and keep that so, since a step never moves an edge; the
 * functions that specify a step only need one length per edge.
 */
module Rkvr {
  import opened Geometry
  import opened Wrappers
  import ElementEdge
  import ElementTriangle
  import MeshEdge
  import MeshTriangle
  import MeshDim2
  import Boundary
  import RiemannLinear
  import RiemannRotated

  /** The stage-k value of the cell or ghost on one side of an edge. */
  function SideValue(r: MeshEdge.CellRef, cells: seq<MeshTriangle.Cell>, ghosts: seq<Boundary.GhostCell>, k: nat): real
    requires k < 3 && Boundary.RefIn(r, |cells|, |ghosts|)
  {
    MeshTriangle.Stage(Boundary.DataOf(r, cells, ghosts), k)
  }

  /** lengths[i] is the (positive) length of edge i. */
  ghost predicate LengthsOf(edges: seq<MeshEdge.Edge>, lengths: seq<real>) {
    && |lengths| == |edges|
    && forall i :: 0 <= i < |edges| ==>
      0.0 < lengths[i] && IsLength(edges[i].geo.head.Pos(), edges[i].geo.tail.Pos(), lengths[i])
  }

  // ---------------------------------------------------------------------
  // Preprocess

  /** The normal (n1, n2) Preprocess rotates each edge's solver to. */
  function Normal(e: MeshEdge.Edge, length: real): Point
    requires length != 0.0
  {
    Point((e.geo.tail.y - e.geo.head.y) / length, (e.geo.head.x - e.geo.tail.x) / length)
  }

  /** The normal is a unit vector at right angles to the edge, turned clockwise from it. */
  lemma NormalIsUnit(e: MeshEdge.Edge, length: real)
    requires 0.0 < length && IsLength(e.geo.head.Pos(), e.geo.tail.Pos(), length)
    ensures var n := Normal(e, length);
      && n.x * n.x + n.y * n.y == 1.0
      && n.x * (e.geo.tail.x - e.geo.head.x) + n.y * (e.geo.tail.y - e.geo.head.y) == 0.0
      && Cross(Point(0.0, 0.0), Point(e.geo.tail.x - e.geo.head.x, e.geo.tail.y - e.geo.head.y), n) == -length
  {
    var dx := e.geo.tail.x - e.geo.head.x;
    var dy := e.geo.tail.y - e.geo.head.y;
    var n := Normal(e, length);
    var u, v := n.x, n.y;
    assert u * length == dy && v * length == -dx;
    assert length * length == dx * dx + dy * dy;
    calc {
      (u * u + v * v) * (length * length);
      (u * length) * (u * length) + (v * length) * (v * length);
      dy * dy + (-dx) * (-dx);
      length * length;
    }
    ProductOne(u * u + v * v, length);
    assert Cross(Point(0.0, 0.0), Point(dx, dy), n) * length == -(dx * dx + dy * dy);
    CancelFactor(Cross(Point(0.0, 0.0), Point(dx, dy), n), -length, length);
  }

  lemma ProductOne(x: real, y: real)
    requires 0.0 < y
    requires x * (y * y) == y * y
    ensures x == 1.0
  {
    assert 0.0 < y * y;
    assert (x - 1.0) * (y * y) == 0.0;
  }

  lemma CancelFactor(x: real, z: real, y: real)
    requires 0.0 < y && x * y == z * y
    ensures x == z
  {
    assert (x - z) * y == 0.0;
  }

  /**
   * One edge after Preprocess: the solver rotated to its normal; for an
   * edge with a cell on each side, the squared distance between the two
   * cell centres.
   */
  function Prepared(e: MeshEdge.Edge, length: real, coefficient: Point,
                    cells: seq<MeshTriangle.Cell>, ghosts: seq<Boundary.GhostCell>): (r: MeshEdge.Edge)
    requires length != 0.0
    requires Boundary.SideRefIn(e.positive, |cells|, |ghosts|) && Boundary.SideRefIn(e.negative, |cells|, |ghosts|)
    ensures r.geo == e.geo && r.positive == e.positive && r.negative == e.negative
    ensures r.headIndex == e.headIndex && r.tailIndex == e.tailIndex && r.data.flux == e.data.flux
    ensures r.data.speed == RiemannRotated.NormalSpeed(coefficient, Normal(e, length).x, Normal(e, length).y)
    ensures Boundary.TwoSided(e) ==> r.data.distanceSq == SquaredDistance(
      Boundary.CenterOf(e.positive.value, cells, ghosts), Boundary.CenterOf(e.negative.value, cells, ghosts))
    ensures !Boundary.TwoSided(e) ==> r.data.distanceSq == e.data.distanceSq
  {
    var n := Normal(e, length);
    var rotated := e.(data := e.data.(speed := RiemannRotated.NormalSpeed(coefficient, n.x, n.y)));
    if Boundary.TwoSided(e) then
      rotated.(data := rotated.data.(distanceSq := SquaredDistance(
        Boundary.CenterOf(e.positive.value, cells, ghosts), Boundary.CenterOf(e.negative.value, cells, ghosts))))
    else rotated
  }

  /**
   * The indices, in order, of the first k edges that have a cell on each
   * side (twoSided) or that lack one (!twoSided): the interior and the
   * boundary list Preprocess builds.
   */
  function ListOf(edges: seq<MeshEdge.Edge>, k: nat, twoSided: bool): seq<nat>
    requires k <= |edges|
  {
    if k == 0 then []
    else ListOf(edges, k - 1, twoSided) + (if Boundary.TwoSided(edges[k - 1]) == twoSided then [k - 1] else [])
  }

  lemma AppendAssociates<T>(a: seq<T>, b: seq<T>, c: seq<T>)
    ensures (a + b) + c == a + (b + c)
  {
  }

  /** One more edge goes to exactly one of the two lists. */
  lemma ListOfStep(edges: seq<MeshEdge.Edge>, i: nat)
    requires i < |edges|
    ensures Boundary.TwoSided(edges[i]) ==>
      ListOf(edges, i + 1, true) == ListOf(edges, i, true) + [i] && ListOf(edges, i + 1, false) == ListOf(edges, i, false)
    ensures !Boundary.TwoSided(edges[i]) ==>
      ListOf(edges, i + 1, true) == ListOf(edges, i, true) && ListOf(edges, i + 1, false) == ListOf(edges, i, false) + [i]
  {
  }

  /** Preprocess puts edge i in the interior list iff it has both sides, in the boundary list otherwise. */
  lemma {:induction false} PartitionMembers(edges: seq<MeshEdge.Edge>, k: nat, twoSided: bool)
    requires k <= |edges|
    ensures forall i: nat :: i in ListOf(edges, k, twoSided) <==> i < k && Boundary.TwoSided(edges[i]) == twoSided
  {
    if k > 0 {
      PartitionMembers(edges, k - 1, twoSided);
      var x: seq<nat> := [k - 1];
      if Boundary.TwoSided(edges[k - 1]) == twoSided {
        assert ListOf(edges, k, twoSided) == ListOf(edges, k - 1, twoSided) + x;
      } else {
        assert ListOf(edges, k, twoSided) == ListOf(edges, k - 1, twoSided);
      }
    }
  }

  /** Each list is strictly increasing, so no edge is listed twice. */
  lemma {:induction false} PartitionOrdered(edges: seq<MeshEdge.Edge>, k: nat, twoSided: bool)
    requires k <= |edges|
    ensures forall a, b :: 0 <= a < b < |ListOf(edges, k, twoSided)| ==> ListOf(edges, k, twoSided)[a] < ListOf(edges, k, twoSided)[b]
  {
    if k > 0 {
      PartitionOrdered(edges, k - 1, twoSided);
      PartitionMembers(edges, k - 1, twoSided);
      var x: seq<nat> := [k - 1];
      var prev := ListOf(edges, k - 1, twoSided);
      assert forall a :: 0 <= a < |prev| ==> prev[a] in prev;
      if Boundary.TwoSided(edges[k - 1]) == twoSided {
        assert ListOf(edges, k, twoSided) == prev + x;
      } else {
        assert ListOf(edges, k, twoSided) == prev;
      }
    }
  }

  /** Together the two lists have one entry per edge. */
  lemma {:induction false} PartitionSizes(edges: seq<MeshEdge.Edge>, k: nat)
    requires k <= |edges|
    ensures |ListOf(edges, k, true)| + |ListOf(edges, k, false)| == k
  {
    if k > 0 {
      PartitionSizes(edges, k - 1);
    }
  }

  // ---------------------------------------------------------------------
  // Fluxes and right-hand sides

  /** Every side of every edge is set and names an existing cell or ghost. */
  predicate Closed(edges: seq<MeshEdge.Edge>, numCells: nat, numGhosts: nat) {
    && Boundary.SidesIn(edges, numCells, numGhosts)
    && forall i :: 0 <= i < |edges| ==> Boundary.TwoSided(edges[i])
  }

  /**
   * The flux GetFluxOnEachEdge stores on edge e at stage k: the upwind
   * flux of the stage-k values on its positive and negative sides, times
   * the edge length.
   */
  function EdgeFlux(e: MeshEdge.Edge, cells: seq<MeshTriangle.Cell>, ghosts: seq<Boundary.GhostCell>, k: nat, length: real): (f: real)
    requires k < 3 && Boundary.TwoSided(e)
    requires Boundary.RefIn(e.positive.value, |cells|, |ghosts|) && Boundary.RefIn(e.negative.value, |cells|, |ghosts|)
    ensures var left := SideValue(e.positive.value, cells, ghosts, k);
      var right := SideValue(e.negative.value, cells, ghosts, k);
      f == RiemannLinear.GetSingleFlux(RiemannLinear.Upwind(left, right, e.data.speed), e.data.speed) * length
  {
    var left := SideValue(e.positive.value, cells, ghosts, k);
    var right := SideValue(e.negative.value, cells, ghosts, k);
    RiemannLinear.UpwindFlux(left, right, e.data.speed);
    RiemannLinear.GetFlux(left, right, e.data.speed) * length
  }

  /** GetFluxOnEachEdge(k): every edge gets its stage-k flux, nothing else changes. */
  function WithFluxes(edges: seq<MeshEdge.Edge>, cells: seq<MeshTriangle.Cell>, ghosts: seq<Boundary.GhostCell>,
                      k: nat, lengths: seq<real>): (r: seq<MeshEdge.Edge>)
    requires k < 3 && Closed(edges, |cells|, |ghosts|) && |lengths| == |edges|
    ensures |r| == |edges| && Closed(r, |cells|, |ghosts|)
    ensures forall i :: 0 <= i < |edges| ==> r[i].data.flux == EdgeFlux(edges[i], cells, ghosts, k, lengths[i])
    ensures forall i :: 0 <= i < |edges| ==> r[i] == edges[i].(data := r[i].data)
    ensures forall i :: 0 <= i < |edges| ==> r[i].data.speed == edges[i].data.speed
  {
    seq(|edges|, i requires 0 <= i < |edges| =>
      edges[i].(data := edges[i].data.(flux := EdgeFlux(edges[i], cells, ghosts, k, lengths[i]))))
  }

  /**
   * The share of edge e = inc.1 in the right-hand side of cell c = inc.0:
   * minus its flux when c is the edge's positive side, plus its flux
   * otherwise.  (An index beyond the edges contributes nothing; cells of a
   * consistent mesh never hold one.)
   */
  function Term(inc: (nat, nat), edges: seq<MeshEdge.Edge>): real {
    if inc.1 < |edges| then
      if edges[inc.1].positive == Some(MeshEdge.Real(inc.0)) then -edges[inc.1].data.flux else edges[inc.1].data.flux
    else 0.0
  }

  function SumTerms(incs: seq<(nat, nat)>, edges: seq<MeshEdge.Edge>): real {
    if incs == [] then 0.0 else Term(incs[0], edges) + SumTerms(incs[1..], edges)
  }

  lemma {:induction false} SumTermsConcat(s: seq<(nat, nat)>, t: seq<(nat, nat)>, edges: seq<MeshEdge.Edge>)
    ensures SumTerms(s + t, edges) == SumTerms(s, edges) + SumTerms(t, edges)
    decreases |s|
  {
    if s == [] {
      assert s + t == t;
    } else {
      assert (s + t)[0] == s[0];
      assert (s + t)[1..] == s[1..] + t;
      SumTermsConcat(s[1..], t, edges);
    }
  }

  /** Taking term i out of a sum leaves the sum of the others. */
  lemma SumTermsRemove(t: seq<(nat, nat)>, i: nat, edges: seq<MeshEdge.Edge>)
    requires i < |t|
    ensures SumTerms(t, edges) == Term(t[i], edges) + SumTerms(t[..i] + t[i + 1..], edges)
  {
    assert t == t[..i] + ([t[i]] + t[i + 1..]);
    SumTermsConcat(t[..i], [t[i]] + t[i + 1..], edges);
    SumTermsConcat(t[..i], t[i + 1..], edges);
    assert ([t[i]] + t[i + 1..])[1..] == t[i + 1..];
  }

  /** Matching the first element of s with element i of t leaves permutations of each other. */
  lemma MultisetRemove<T>(s: seq<T>, t: seq<T>, i: nat)
    requires multiset(s) == multiset(t) && 0 < |s| && i < |t| && t[i] == s[0]
    ensures multiset(s[1..]) == multiset(t[..i] + t[i + 1..])
  {
    assert s == [s[0]] + s[1..];
    assert t == t[..i] + [t[i]] + t[i + 1..];
    var rest := t[..i] + t[i + 1..];
    assert multiset(rest) == multiset(t[..i]) + multiset(t[i + 1..]);
    forall y ensures multiset(s[1..])[y] == multiset(rest)[y] {
      assert (multiset([s[0]]) + multiset(s[1..]))[y] == (multiset(t[..i]) + multiset([t[i]]) + multiset(t[i + 1..]))[y];
    }
  }

  /** A sum of terms does not depend on the order of the terms. */
  lemma {:induction false} SumTermsPermutation(s: seq<(nat, nat)>, t: seq<(nat, nat)>, edges: seq<MeshEdge.Edge>)
    requires multiset(s) == multiset(t)
    ensures SumTerms(s, edges) == SumTerms(t, edges)
    decreases |s|
  {
    if s != [] {
      assert s[0] in multiset(t);
      var i :| 0 <= i < |t| && t[i] == s[0];
      MultisetRemove(s, t, i);
      SumTermsRemove(t, i, edges);
      SumTermsPermutation(s[1..], t[..i] + t[i + 1..], edges);
    }
  }

  /** The (cell, edge) pairs of cell c: its edges ab, bc, ca, in that order. */
  function CellIncidences(c: nat, cell: MeshTriangle.Cell): seq<(nat, nat)> {
    var e := MeshTriangle.ForEachEdge(cell);
    [(c, e[0]), (c, e[1]), (c, e[2])]
  }

  /** GetRHS(cell c): the signed sum of the fluxes on its three edges. */
  function Rhs(c: nat, cells: seq<MeshTriangle.Cell>, edges: seq<MeshEdge.Edge>): real
    requires c < |cells|
  {
    SumTerms(CellIncidences(c, cells[c]), edges)
  }

  /** The (cell, edge) pairs of the first k cells. */
  function Incidences(cells: seq<MeshTriangle.Cell>, k: nat): seq<(nat, nat)>
    requires k <= |cells|
  {
    if k == 0 then [] else Incidences(cells, k - 1) + CellIncidences(k - 1, cells[k - 1])
  }

  /** The (cell, edge) pairs seen from the first k edges: each edge with its positive and its negative cell. */
  function EdgeIncidences(edges: seq<MeshEdge.Edge>, k: nat): seq<(nat, nat)>
    requires k <= |edges| && forall i :: 0 <= i < |edges| ==> Boundary.TwoSided(edges[i])
  {
    if k == 0 then []
    else EdgeIncidences(edges, k - 1) + [(edges[k - 1].positive.value.index, k - 1), (edges[k - 1].negative.value.index, k - 1)]
  }

  /** The sum of the first n entries of xs. */
  function Sum(xs: seq<real>, n: nat): real
    requires n <= |xs|
  {
    if n == 0 then 0.0 else Sum(xs, n - 1) + xs[n - 1]
  }

  /** The right-hand side of every cell, in cell order. */
  function Rhss(cells: seq<MeshTriangle.Cell>, edges: seq<MeshEdge.Edge>): (r: seq<real>)
    ensures |r| == |cells| && forall i :: 0 <= i < |cells| ==> r[i] == Rhs(i, cells, edges)
  {
    seq(|cells|, i requires 0 <= i < |cells| => Rhs(i, cells, edges))
  }

  /** The sum of the right-hand sides of all cells. */
  function TotalRhs(cells: seq<MeshTriangle.Cell>, edges: seq<MeshEdge.Edge>): real {
    Sum(Rhss(cells, edges), |cells|)
  }

  /**
   * A closed mesh: every edge lies between two different mesh cells, and
   * each cell lists exactly the edges it lies on (so the pairs seen from
   * the cells are those seen from the edges).
   */
  predicate ClosedMesh(cells: seq<MeshTriangle.Cell>, edges: seq<MeshEdge.Edge>) {
    && (forall i :: 0 <= i < |edges| ==>
          && Boundary.TwoSided(edges[i]) && edges[i].positive.value.Real? && edges[i].negative.value.Real?
          && edges[i].positive.value.index != edges[i].negative.value.index)
    && multiset(Incidences(cells, |cells|)) == multiset(EdgeIncidences(edges, |edges|))
  }

  lemma {:induction false} TotalRhsIsSum(cells: seq<MeshTriangle.Cell>, edges: seq<MeshEdge.Edge>, k: nat)
    requires k <= |cells|
    ensures Sum(Rhss(cells, edges), k) == SumTerms(Incidences(cells, k), edges)
  {
    if k > 0 {
      TotalRhsIsSum(cells, edges, k - 1);
      SumTermsConcat(Incidences(cells, k - 1), CellIncidences(k - 1, cells[k - 1]), edges);
    }
  }

  /** Seen from the edges, every edge contributes its flux once with each sign. */
  lemma {:induction false} EdgeSumsCancel(cells: seq<MeshTriangle.Cell>, edges: seq<MeshEdge.Edge>, k: nat)
    requires ClosedMesh(cells, edges) && k <= |edges|
    ensures SumTerms(EdgeIncidences(edges, k), edges) == 0.0
  {
    if k > 0 {
      EdgeSumsCancel(cells, edges, k - 1);
      var e := edges[k - 1];
      var pair: seq<(nat, nat)> := [(e.positive.value.index, k - 1), (e.negative.value.index, k - 1)];
      SumTermsConcat(EdgeIncidences(edges, k - 1), pair, edges);
      assert SumTerms(pair[1..], edges) == Term(pair[1], edges) + SumTerms(pair[1..][1..], edges);
      assert pair[1..][1..] == [];
      assert Term(pair[0], edges) == -e.data.flux;
      assert Term(pair[1], edges) == e.data.flux;
    }
  }

  /**
   * Conservation: on a closed mesh the right-hand sides of all cells add
   * up to zero, since every flux leaves one cell and enters another.
   */
  lemma Conservation(cells: seq<MeshTriangle.Cell>, edges: seq<MeshEdge.Edge>)
    requires ClosedMesh(cells, edges)
    ensures TotalRhs(cells, edges) == 0.0
  {
    TotalRhsIsSum(cells, edges, |cells|);
    SumTermsPermutation(Incidences(cells, |cells|), EdgeIncidences(edges, |edges|), edges);
    EdgeSumsCancel(cells, edges, |edges|);
  }

  // ---------------------------------------------------------------------
  // Runge-Kutta stages

  /** One forward-Euler step of a cell value u with right-hand side r over a cell of measure m. */
  function Euler(u: real, r: real, dt: real, m: real): real
    requires m != 0.0
  {
    u + r * dt / m
  }

  /**
   * Stage k of RungeKutta3Stepper for one cell, r being its right-hand
   * side from the stage-k fluxes: stage 0 writes u1, stage 1 writes u2,
   * stage 2 writes the new u0.
   */
  function Advance(d: MeshTriangle.CellData, r: real, dt: real, m: real, k: nat): MeshTriangle.CellData
    requires k < 3 && m != 0.0
  {
    if k == 0 then d.(u1 := Euler(d.u0, r, dt, m))
    else if k == 1 then d.(u2 := d.u0 * 0.75 + Euler(d.u1, r, dt, m) * 0.25)
    else d.(u0 := d.u0 / 3.0 + Euler(d.u2, r, dt, m) * 2.0 / 3.0)
  }

  /** The body of the cell loop of RungeKutta3Stepper for stage k, on one cell's values. */
  method AdvanceCell(d: MeshTriangle.CellData, rhs: real, dt: real, m: real, k: nat) returns (u: MeshTriangle.CellData)
    requires k < 3 && m != 0.0
    ensures u == Advance(d, rhs, dt, m, k)
  {
    u := d;
    if k == 0 {
      u := u.(u1 := u.u0 + rhs * dt / m);
    } else if k == 1 {
      u := u.(u2 := u.u0 * 0.75 + (u.u1 + rhs * dt / m) * 0.25);
    } else {
      u := u.(u0 := u.u0 / 3.0 + (u.u2 + rhs * dt / m) * 2.0 / 3.0);
    }
  }

  /** The stage slot stage k writes: u1, u2, then u0. */
  function Next(k: nat): nat
    requires k < 3
  {
    if k == 2 then 0 else k + 1
  }

  /** The three stages in a row, with right-hand sides r0, r1, r2. */
  function AdvanceAll(d: MeshTriangle.CellData, r0: real, r1: real, r2: real, dt: real, m: real): MeshTriangle.CellData
    requires m != 0.0
  {
    Advance(Advance(Advance(d, r0, dt, m, 0), r1, dt, m, 1), r2, dt, m, 2)
  }

  /** Stage k writes exactly the stage slot after k (cyclically) and keeps the other two. */
  lemma AdvanceWritesOneSlot(d: MeshTriangle.CellData, r: real, dt: real, m: real, k: nat)
    requires k < 3 && m != 0.0
    ensures var d' := Advance(d, r, dt, m, k);
      forall j :: 0 <= j < 3 && j != Next(k) ==> MeshTriangle.Stage(d', j) == MeshTriangle.Stage(d, j)
  {
  }

  /** A cell whose right-hand side is zero at every stage keeps its value. */
  lemma SteadyCell(d: MeshTriangle.CellData, dt: real, m: real)
    requires m != 0.0
    ensures AdvanceAll(d, 0.0, 0.0, 0.0, dt, m).u0 == d.u0
    ensures AdvanceAll(d, 0.0, 0.0, 0.0, dt, m).u1 == d.u0
    ensures AdvanceAll(d, 0.0, 0.0, 0.0, dt, m).u2 == d.u0
  {
  }

  /**
   * The scheme is consistent: with the same right-hand side r at every
   * stage (a forcing that does not depend on u), a step moves u0 by
   * exactly r dt / m, as the exact solution does.
   */
  lemma ConstantForcing(d: MeshTriangle.CellData, r: real, dt: real, m: real)
    requires m != 0.0
    ensures AdvanceAll(d, r, r, r, dt, m).u0 == d.u0 + r * dt / m
  {
    var h := r * dt / m;
    var d1 := Advance(d, r, dt, m, 0);
    assert d1.u1 == d.u0 + h;
    var d2 := Advance(d1, r, dt, m, 1);
    assert d2.u2 == d.u0 + h / 2.0;
  }

  /**
   * Strong stability: every stage is a convex combination of forward-Euler
   * steps, so when u0 and each stage's Euler step stay within [lo, hi],
   * so do all three new stage values.
   */
  lemma StagesStayInBounds(d: MeshTriangle.CellData, r0: real, r1: real, r2: real, dt: real, m: real, lo: real, hi: real)
    requires m != 0.0
    requires lo <= d.u0 <= hi
    requires var d1 := Advance(d, r0, dt, m, 0);
      && lo <= Euler(d.u0, r0, dt, m) <= hi
      && lo <= Euler(d1.u1, r1, dt, m) <= hi
      && lo <= Euler(Advance(d1, r1, dt, m, 1).u2, r2, dt, m) <= hi
    ensures var d' := AdvanceAll(d, r0, r1, r2, dt, m);
      lo <= d'.u0 <= hi && lo <= d'.u1 <= hi && lo <= d'.u2 <= hi
  {
  }

  /** Every cell has a non-zero area, as the stage updates divide by it. */
  predicate Measurable(cells: seq<MeshTriangle.Cell>) {
    forall i :: 0 <= i < |cells| ==> cells[i].tri.Measure() != 0.0
  }

  /** The cells after stage k: each advanced with its right-hand side from the edges' current fluxes. */
  function Advanced(cells: seq<MeshTriangle.Cell>, edges: seq<MeshEdge.Edge>, k: nat, dt: real): (r: seq<MeshTriangle.Cell>)
    requires k < 3 && Measurable(cells)
    ensures |r| == |cells| && Measurable(r)
    ensures forall i :: 0 <= i < |cells| ==> r[i] == cells[i].(data := r[i].data)
  {
    seq(|cells|, i requires 0 <= i < |cells| =>
      cells[i].(data := Advance(cells[i].data, Rhs(i, cells, edges), dt, cells[i].tri.Measure(), k)))
  }

  /**
   * The share of u0 in the slot stage k writes; the rest, 1 - Keep(k), is
   * the share of a forward-Euler step from stage k (the Shu-Osher form of
   * the scheme).
   */
  function Keep(k: nat): real
    requires k < 3
  {
    if k == 0 then 0.0 else if k == 1 then 0.75 else 1.0 / 3.0
  }

  /**
   * Each stage writes a convex combination of u0 and a forward-Euler step
   * from the value of stage k, with the weights of the Shu-Osher form.
   */
  lemma ShuOsherForm(d: MeshTriangle.CellData, r: real, dt: real, m: real, k: nat)
    requires k < 3 && m != 0.0
    ensures 0.0 <= Keep(k) < 1.0
    ensures MeshTriangle.Stage(Advance(d, r, dt, m, k), Next(k))
      == Keep(k) * d.u0 + (1.0 - Keep(k)) * Euler(MeshTriangle.Stage(d, k), r, dt, m)
  {
  }

  /** A cell value advanced by one forward-Euler step, weighted by the cell's measure, gains exactly r dt. */
  lemma WeightedEuler(u: real, r: real, dt: real, m: real)
    requires m != 0.0
    ensures m * Euler(u, r, dt, m) == m * u + r * dt
  {
    assert m * (r * dt / m) == r * dt;
  }

  /** The Shu-Osher form of one cell, weighted by its measure m. */
  lemma WeightedAdvance(d: MeshTriangle.CellData, r: real, dt: real, m: real, k: nat)
    requires k < 3 && m != 0.0
    ensures m * MeshTriangle.Stage(Advance(d, r, dt, m, k), Next(k)) == Combo(Keep(k), m * d.u0, m * MeshTriangle.Stage(d, k), r, dt)
  {
    var u := MeshTriangle.Stage(d, k);
    var e := Euler(u, r, dt, m);
    ShuOsherForm(d, r, dt, m, k);
    WeightedEuler(u, r, dt, m);
    assert m * (Keep(k) * d.u0 + (1.0 - Keep(k)) * e) == Keep(k) * (m * d.u0) + (1.0 - Keep(k)) * (m * e);
  }

  /** Stage j of every cell, weighted by the cell's area. */
  function Weights(cells: seq<MeshTriangle.Cell>, j: nat): (w: seq<real>)
    requires j < 3
    ensures |w| == |cells|
    ensures forall i :: 0 <= i < |cells| ==> w[i] == cells[i].tri.Measure() * MeshTriangle.Stage(cells[i].data, j)
  {
    seq(|cells|, i requires 0 <= i < |cells| => cells[i].tri.Measure() * MeshTriangle.Stage(cells[i].data, j))
  }

  /** The total of stage j over all cells, each value weighted by its cell's area. */
  function Mass(cells: seq<MeshTriangle.Cell>, j: nat): real
    requires j < 3
  {
    Sum(Weights(cells, j), |cells|)
  }

  /** The Shu-Osher combination: share a of y, the rest of a forward-Euler step from w with rate z. */
  function Combo(a: real, y: real, w: real, z: real, dt: real): real {
    a * y + (1.0 - a) * (w + z * dt)
  }

  /** Combining a value with a zero-rate step from itself gives it back. */
  lemma ComboOfEqual(a: real, y: real, dt: real)
    ensures Combo(a, y, y, 0.0, dt) == y
  {
  }

  lemma CombineStep(x: real, y: real, w: real, z: real, x1: real, y1: real, w1: real, z1: real, zs: real, a: real, dt: real)
    requires x == Combo(a, y, w, z, dt) && x1 == Combo(a, y1, w1, z1, dt)
    requires zs == z + z1
    ensures x + x1 == Combo(a, y + y1, w + w1, zs, dt)
  {
    assert zs * dt == z * dt + z1 * dt;
    assert a * (y + y1) == a * y + a * y1;
    assert (1.0 - a) * ((w + w1) + zs * dt) == (1.0 - a) * (w + z * dt) + (1.0 - a) * (w1 + z1 * dt);
  }

  /** Summing entrywise combinations: the sum of the combinations is the combination of the sums. */
  lemma {:induction false} SumCombine(x: seq<real>, y: seq<real>, w: seq<real>, z: seq<real>, a: real, dt: real, n: nat)
    requires n <= |x| == |y| == |w| == |z|
    requires forall i :: 0 <= i < |x| ==> x[i] == Combo(a, y[i], w[i], z[i], dt)
    ensures Sum(x, n) == Combo(a, Sum(y, n), Sum(w, n), Sum(z, n), dt)
  {
    if n > 0 {
      SumCombine(x, y, w, z, a, dt, n - 1);
      CombineStep(Sum(x, n - 1), Sum(y, n - 1), Sum(w, n - 1), Sum(z, n - 1),
                  x[n - 1], y[n - 1], w[n - 1], z[n - 1], Sum(z, n), a, dt);
    }
  }

  /** Stage k, cell by cell, in area-weighted terms. */
  lemma AdvancedWeights(cells: seq<MeshTriangle.Cell>, edges: seq<MeshEdge.Edge>, k: nat, dt: real)
    requires k < 3 && Measurable(cells)
    ensures var x, y, w, z := Weights(Advanced(cells, edges, k, dt), Next(k)), Weights(cells, 0), Weights(cells, k), Rhss(cells, edges);
      forall i :: 0 <= i < |cells| ==> x[i] == Combo(Keep(k), y[i], w[i], z[i], dt)
  {
    forall i | 0 <= i < |cells|
      ensures Weights(Advanced(cells, edges, k, dt), Next(k))[i]
        == Combo(Keep(k), Weights(cells, 0)[i], Weights(cells, k)[i], Rhss(cells, edges)[i], dt)
    {
      AdvancedWeightAt(cells, edges, k, dt, i);
    }
  }

  lemma AdvancedWeightAt(cells: seq<MeshTriangle.Cell>, edges: seq<MeshEdge.Edge>, k: nat, dt: real, i: nat)
    requires k < 3 && Measurable(cells) && i < |cells|
    ensures Weights(Advanced(cells, edges, k, dt), Next(k))[i]
      == Combo(Keep(k), Weights(cells, 0)[i], Weights(cells, k)[i], Rhss(cells, edges)[i], dt)
  {
    var c := cells[i];
    assert Advanced(cells, edges, k, dt)[i] == c.(data := Advance(c.data, Rhs(i, cells, edges), dt, c.tri.Measure(), k));
    WeightedAdvance(c.data, Rhs(i, cells, edges), dt, c.tri.Measure(), k);
  }

  /**
   * What stage k does to the area-weighted totals: the slot it writes gets
   * the Shu-Osher combination of the totals of u0 and of stage k, plus dt
   * times the sum of the right-hand sides.
   */
  lemma AdvancedMass(cells: seq<MeshTriangle.Cell>, edges: seq<MeshEdge.Edge>, k: nat, dt: real)
    requires k < 3 && Measurable(cells)
    ensures Mass(Advanced(cells, edges, k, dt), Next(k)) == Combo(Keep(k), Mass(cells, 0), Mass(cells, k), TotalRhs(cells, edges), dt)
  {
    AdvancedWeights(cells, edges, k, dt);
    SumCombine(Weights(Advanced(cells, edges, k, dt), Next(k)), Weights(cells, 0), Weights(cells, k), Rhss(cells, edges),
               Keep(k), dt, |cells|);
  }

  /** The two slots stage k does not write keep their weighted totals. */
  lemma AdvancedMassKept(cells: seq<MeshTriangle.Cell>, edges: seq<MeshEdge.Edge>, k: nat, dt: real, j: nat)
    requires k < 3 && Measurable(cells) && j < 3 && j != Next(k)
    ensures Mass(Advanced(cells, edges, k, dt), j) == Mass(cells, j)
  {
    var a := Advanced(cells, edges, k, dt);
    forall i | 0 <= i < |cells|
      ensures Weights(a, j)[i] == Weights(cells, j)[i]
    {
      var c := cells[i];
      assert a[i] == c.(data := Advance(c.data, Rhs(i, cells, edges), dt, c.tri.Measure(), k));
      AdvanceWritesOneSlot(c.data, Rhs(i, cells, edges), dt, c.tri.Measure(), k);
    }
    assert Weights(a, j) == Weights(cells, j);
  }

  // ---------------------------------------------------------------------
  // A whole time step

  /** c2 is c1 with only the cells' data changed. */
  predicate SameCells(c1: seq<MeshTriangle.Cell>, c2: seq<MeshTriangle.Cell>) {
    |c1| == |c2| && forall i :: 0 <= i < |c1| ==> c2[i] == c1[i].(data := c2[i].data)
  }

  /** e2 is e1 with only the edges' fluxes and distances changed. */
  predicate SameEdges(e1: seq<MeshEdge.Edge>, e2: seq<MeshEdge.Edge>) {
    |e1| == |e2| && forall i :: 0 <= i < |e1| ==> e2[i] == e1[i].(data := e2[i].data) && e2[i].data.speed == e1[i].data.speed
  }

  /** What a time step reads and writes: the mesh's cells and edges and the manager's ghosts. */
  datatype SolverState = SolverState(cells: seq<MeshTriangle.Cell>, edges: seq<MeshEdge.Edge>, ghosts: seq<Boundary.GhostCell>)

  /** A state a step can run on: every edge two-sided, cells with area, ghosts after their parents, one length per edge. */
  ghost predicate Steppable(s: SolverState, lengths: seq<real>) {
    && Closed(s.edges, |s.cells|, |s.ghosts|) && Measurable(s.cells)
    && Boundary.ParentsEarlier(s.ghosts, |s.cells|) && |lengths| == |s.edges|
  }

  /**
   * Stage k of a step: when refresh is set, every ghost first copies its
   * parent's data (UpdatePeriodCells); then every edge gets its stage-k
   * flux and every cell advances stage k.
   */
  function Phase(s: SolverState, k: nat, dt: real, lengths: seq<real>, refresh: bool): (r: SolverState)
    requires k < 3 && Steppable(s, lengths)
    ensures Steppable(r, lengths)
    ensures |r.ghosts| == |s.ghosts| && SameCells(s.cells, r.cells) && SameEdges(s.edges, r.edges)
    ensures !refresh ==> r.ghosts == s.ghosts
  {
    var ghosts := if refresh then Boundary.Refreshed(s.ghosts, s.cells) else s.ghosts;
    var edges := WithFluxes(s.edges, s.cells, ghosts, k, lengths);
    SolverState(Advanced(s.cells, edges, k, dt), edges, ghosts)
  }

  /** A step never moves an edge, so the lengths of the edges before it are the lengths of the edges after it. */
  lemma LengthsKept(e1: seq<MeshEdge.Edge>, e2: seq<MeshEdge.Edge>, lengths: seq<real>)
    requires SameEdges(e1, e2) && LengthsOf(e1, lengths)
    ensures LengthsOf(e2, lengths)
  {
    forall i | 0 <= i < |e2|
      ensures 0.0 < lengths[i] && IsLength(e2[i].geo.head.Pos(), e2[i].geo.tail.Pos(), lengths[i])
    {
      assert e2[i].geo == e1[i].geo;
    }
  }

  /** RungeKutta3Stepper: stages 0, 1 and 2. */
  function Step(s: SolverState, dt: real, lengths: seq<real>, refresh: bool): (r: SolverState)
    requires Steppable(s, lengths)
    ensures Steppable(r, lengths) && |r.cells| == |s.cells| && |r.edges| == |s.edges| && |r.ghosts| == |s.ghosts|
  {
    Phase(Phase(Phase(s, 0, dt, lengths, refresh), 1, dt, lengths, refresh), 2, dt, lengths, refresh)
  }

  lemma {:induction false} IncidencesFrame(c1: seq<MeshTriangle.Cell>, c2: seq<MeshTriangle.Cell>, n: nat)
    requires n <= |c1| && SameCells(c1, c2)
    ensures Incidences(c2, n) == Incidences(c1, n)
  {
    if n > 0 {
      IncidencesFrame(c1, c2, n - 1);
      assert c2[n - 1] == c1[n - 1].(data := c2[n - 1].data);
    }
  }

  lemma {:induction false} EdgeIncidencesFrame(e1: seq<MeshEdge.Edge>, e2: seq<MeshEdge.Edge>, n: nat)
    requires n <= |e1| && SameEdges(e1, e2) && forall i :: 0 <= i < |e1| ==> Boundary.TwoSided(e1[i])
    ensures forall i :: 0 <= i < |e2| ==> e2[i].positive == e1[i].positive && e2[i].negative == e1[i].negative
    ensures forall i :: 0 <= i < |e2| ==> Boundary.TwoSided(e2[i])
    ensures EdgeIncidences(e2, n) == EdgeIncidences(e1, n)
  {
    assert forall i :: 0 <= i < |e2| ==> e2[i].positive == e1[i].positive && e2[i].negative == e1[i].negative;
    if n > 0 {
      EdgeIncidencesFrame(e1, e2, n - 1);
    }
  }

  /** Changing only data keeps a closed mesh closed. */
  lemma ClosedMeshKept(c1: seq<MeshTriangle.Cell>, e1: seq<MeshEdge.Edge>, c2: seq<MeshTriangle.Cell>, e2: seq<MeshEdge.Edge>)
    requires ClosedMesh(c1, e1) && SameCells(c1, c2) && SameEdges(e1, e2)
    ensures ClosedMesh(c2, e2)
  {
    IncidencesFrame(c1, c2, |c1|);
    EdgeIncidencesFrame(e1, e2, |e1|);
  }

  /**
   * Stage k of a step on a closed mesh: the slot it writes gets the
   * Shu-Osher combination of the area-weighted totals of u0 and of stage
   * k, as the right-hand sides cancel; the other slots keep theirs.
   */
  lemma PhaseMass(s: SolverState, k: nat, dt: real, lengths: seq<real>, refresh: bool)
    requires k < 3 && Steppable(s, lengths) && ClosedMesh(s.cells, s.edges)
    ensures var r := Phase(s, k, dt, lengths, refresh);
      && ClosedMesh(r.cells, r.edges)
      && Mass(r.cells, Next(k)) == Combo(Keep(k), Mass(s.cells, 0), Mass(s.cells, k), 0.0, dt)
      && forall j :: 0 <= j < 3 && j != Next(k) ==> Mass(r.cells, j) == Mass(s.cells, j)
  {
    var ghosts := if refresh then Boundary.Refreshed(s.ghosts, s.cells) else s.ghosts;
    var edges := WithFluxes(s.edges, s.cells, ghosts, k, lengths);
    ClosedMeshKept(s.cells, s.edges, s.cells, edges);
    ClosedMeshKept(s.cells, s.edges, Phase(s, k, dt, lengths, refresh).cells, edges);
    Conservation(s.cells, edges);
    AdvancedMass(s.cells, edges, k, dt);
    forall j | 0 <= j < 3 && j != Next(k)
      ensures Mass(Phase(s, k, dt, lengths, refresh).cells, j) == Mass(s.cells, j)
    {
      AdvancedMassKept(s.cells, edges, k, dt, j);
    }
  }

  /**
   * Conservation over a step: on a closed mesh the area-weighted total of
   * the solution is the same after RungeKutta3Stepper as before.
   */
  lemma StepConservesMass(s: SolverState, dt: real, lengths: seq<real>, refresh: bool)
    requires Steppable(s, lengths) && ClosedMesh(s.cells, s.edges)
    ensures ClosedMesh(Step(s, dt, lengths, refresh).cells, Step(s, dt, lengths, refresh).edges)
    ensures Mass(Step(s, dt, lengths, refresh).cells, 0) == Mass(s.cells, 0)
  {
    var m := Mass(s.cells, 0);
    var s1 := Phase(s, 0, dt, lengths, refresh);
    PhaseMass(s, 0, dt, lengths, refresh);
    ComboOfEqual(Keep(0), m, dt);
    assert Mass(s1.cells, 1) == Combo(Keep(0), m, m, 0.0, dt);
    assert Mass(s1.cells, 0) == m && Mass(s1.cells, 1) == m;
    var s2 := Phase(s1, 1, dt, lengths, refresh);
    PhaseMass(s1, 1, dt, lengths, refresh);
    ComboOfEqual(Keep(1), m, dt);
    assert Mass(s2.cells, 0) == m && Mass(s2.cells, 2) == m;
    var s3 := Phase(s2, 2, dt, lengths, refresh);
    PhaseMass(s2, 2, dt, lengths, refresh);
    ComboOfEqual(Keep(2), m, dt);
    assert Step(s, dt, lengths, refresh) == s3;
  }

  // ---------------------------------------------------------------------
  // Periodic ghosts

  /**
   * With UpdatePeriodCells before each flux computation, an edge on a
   * periodic boundary gets the flux between the mesh cells on its two sides
   * as though they were neighbours.
   */
  lemma RefreshedFluxSeesRoots(s: SolverState, k: nat, dt: real, lengths: seq<real>, i: nat)
    requires k < 3 && Steppable(s, lengths) && i < |s.edges|
    ensures var e := s.edges[i];
      var left := MeshTriangle.Stage(s.cells[Boundary.Root(e.positive.value, |s.cells|, s.ghosts)].data, k);
      var right := MeshTriangle.Stage(s.cells[Boundary.Root(e.negative.value, |s.cells|, s.ghosts)].data, k);
      Phase(s, k, dt, lengths, true).edges[i].data.flux == RiemannLinear.GetFlux(left, right, e.data.speed) * lengths[i]
  {
    PhaseFlux(s, k, dt, lengths, true, i);
    Boundary.RefreshedSeesRoot(s.ghosts, s.cells, s.edges[i].positive.value);
    Boundary.RefreshedSeesRoot(s.ghosts, s.cells, s.edges[i].negative.value);
  }

  /**
   * A one-cell mesh whose only edge is sewn to a ghost of that cell, the
   * ghost holding ghostData: whatever its never-written data happens to be.
   */
  function StaleExample(ghostData: MeshTriangle.CellData): SolverState {
    SolverState([StaleCell()], [StaleEdge()], [Boundary.GhostCell(StaleCell().tri, ghostData, MeshEdge.Real(0))])
  }

  /** The example's cell: the unit right triangle holding the value 1. */
  function StaleCell(): MeshTriangle.Cell {
    var tri := ElementTriangle.Triangle(0, Node(0, 0.0, 0.0), Node(1, 1.0, 0.0), Node(2, 0.0, 1.0));
    MeshTriangle.Cell(tri, 0, 0, 0, 1, MeshTriangle.CellData(1.0, 0.0, 0.0), [], [])
  }

  /** The example's edge: from (0, 0) to (1, 0), the cell on its positive side and the ghost on its negative side. */
  function StaleEdge(): MeshEdge.Edge {
    MeshEdge.Edge(ElementEdge.Edge(Node(0, 0.0, 0.0), Node(1, 1.0, 0.0), 1, []), 0, 1,
                  Some(MeshEdge.Real(0)), Some(MeshEdge.Ghost(0)), MeshEdge.EdgeData(-1.0, 0.0, 0.0), MeshEdge.Unfilled(1))
  }

  lemma StaleExampleSteppable(g: MeshTriangle.CellData)
    ensures Steppable(StaleExample(g), [1.0])
  {
    StaleExampleClosed(g);
    StaleExampleMeasurable(g);
  }

  /** The example's edge has both sides, the cell and its ghost. */
  lemma StaleExampleClosed(g: MeshTriangle.CellData)
    ensures Closed(StaleExample(g).edges, 1, 1)
  {
  }

  /** The example's edge has length 1. */
  lemma StaleExampleLengths(g: MeshTriangle.CellData)
    ensures LengthsOf(StaleExample(g).edges, [1.0])
  {
    UnitEdgeLength([StaleEdge()]);
  }

  /** The example's cell has non-zero area. */
  lemma StaleExampleMeasurable(g: MeshTriangle.CellData)
    ensures Measurable(StaleExample(g).cells)
  {
    StaleCellMeasure();
  }

  /** The example's cell has area one half. */
  lemma StaleCellMeasure()
    ensures StaleCell().tri.Measure() == 0.5
  {
    ElementTriangle.UnitTriangleMeasure();
  }

  /** An edge from (0, 0) to (1, 0) has length 1. */
  lemma UnitEdgeLength(edges: seq<MeshEdge.Edge>)
    requires |edges| == 1 && edges[0].geo.head.Pos() == Point(0.0, 0.0) && edges[0].geo.tail.Pos() == Point(1.0, 0.0)
    ensures LengthsOf(edges, [1.0])
  {
    assert SquaredDistance(Point(0.0, 0.0), Point(1.0, 0.0)) == 1.0;
  }

  /** The flux a stage stores on edge i is its stage-k flux from the ghosts as they stand after the optional refresh. */
  lemma PhaseFlux(s: SolverState, k: nat, dt: real, lengths: seq<real>, refresh: bool, i: nat)
    requires k < 3 && Steppable(s, lengths) && i < |s.edges|
    ensures var ghosts := if refresh then Boundary.Refreshed(s.ghosts, s.cells) else s.ghosts;
      Phase(s, k, dt, lengths, refresh).edges[i].data.flux == EdgeFlux(s.edges[i], s.cells, ghosts, k, lengths[i])
  {
  }

  /** Refreshed first, the example's periodic edge carries the upwind flux of the cell value 1 across it. */
  lemma RefreshedExampleFlux(g: MeshTriangle.CellData)
    ensures Steppable(StaleExample(g), [1.0])
    ensures Phase(StaleExample(g), 0, 1.0, [1.0], true).edges[0].data.flux == -1.0
  {
    var s := StaleExample(g);
    StaleExampleSteppable(g);
    RefreshedFluxSeesRoots(s, 0, 1.0, [1.0], 0);
    assert Boundary.Root(MeshEdge.Ghost(0), 1, s.ghosts) == 0;
  }

  /**
   * As written, RungeKutta3Stepper never calls UpdatePeriodCells: with the
   * wind blowing from the ghost, the periodic edge's flux is computed from
   * the ghost's unwritten data g instead of the cell value 1 it stands for,
   * so it is wrong for every g whose first stage is not 1 (the model's
   * zero stand-in gives 0).
   */
  lemma StaleGhostFlux(g: MeshTriangle.CellData)
    ensures Steppable(StaleExample(g), [1.0])
    ensures Phase(StaleExample(g), 0, 1.0, [1.0], false).edges[0].data.flux == -g.u0
    ensures Phase(StaleExample(g), 0, 1.0, [1.0], true).edges[0].data.flux == -1.0
  {
    var s := StaleExample(g);
    StaleExampleSteppable(g);
    PhaseFlux(s, 0, 1.0, [1.0], false, 0);
    assert SideValue(MeshEdge.Ghost(0), s.cells, s.ghosts, 0) == g.u0;
    RefreshedExampleFlux(g);
  }

  // ---------------------------------------------------------------------
  // The solver

  /** What Preprocess needs: each edge's length, and sides that refer to existing cells or ghosts. */
  ghost predicate Preprocessable(edges: seq<MeshEdge.Edge>, lengths: seq<real>, numCells: nat, numGhosts: nat) {
    LengthsOf(edges, lengths) && Boundary.SidesIn(edges, numCells, numGhosts)
  }

  /** The edges after Preprocess: each one rotated to its normal, with its centre distance when it has two sides. */
  function PreparedAll(edges: seq<MeshEdge.Edge>, lengths: seq<real>, coefficient: Point,
                       cells: seq<MeshTriangle.Cell>, ghosts: seq<Boundary.GhostCell>): (r: seq<MeshEdge.Edge>)
    requires Preprocessable(edges, lengths, |cells|, |ghosts|)
    ensures |r| == |edges| && Boundary.SidesIn(r, |cells|, |ghosts|)
    ensures forall i :: 0 <= i < |edges| ==> Boundary.TwoSided(r[i]) == Boundary.TwoSided(edges[i])
  {
    seq(|edges|, i requires 0 <= i < |edges| => Prepared(edges[i], lengths[i], coefficient, cells, ghosts))
  }

  /** Every cell's three edges are edges of the mesh. */
  predicate EdgesIn(cells: seq<MeshTriangle.Cell>, numEdges: nat) {
    forall i :: 0 <= i < |cells| ==> cells[i].ab < numEdges && cells[i].bc < numEdges && cells[i].ca < numEdges
  }

  /**
   * n steps of RungeKutta3Stepper; refresh says whether the ghosts are
   * refreshed before every stage (the source's stepper: false).
   */
  function Steps(s: SolverState, n: nat, dt: real, lengths: seq<real>, refresh: bool): (r: SolverState)
    requires Steppable(s, lengths)
    ensures Steppable(r, lengths) && |r.cells| == |s.cells| && |r.edges| == |s.edges| && |r.ghosts| == |s.ghosts|
    ensures !refresh ==> r.ghosts == s.ghosts
    decreases n
  {
    if n == 0 then s else Steps(Step(s, dt, lengths, refresh), n - 1, dt, lengths, refresh)
  }

  /** t is a run of steps: each state is a step from the one before it. */
  ghost predicate Traced(t: seq<SolverState>, dt: real, lengths: seq<real>, refresh: bool) {
    forall j :: 0 <= j < |t| - 1 ==> Steppable(t[j], lengths) && t[j + 1] == Step(t[j], dt, lengths, refresh)
  }

  lemma TracedSnoc(t: seq<SolverState>, x: SolverState, dt: real, lengths: seq<real>, refresh: bool)
    requires |t| > 0 && Traced(t, dt, lengths, refresh) && Steppable(t[|t| - 1], lengths)
    requires x == Step(t[|t| - 1], dt, lengths, refresh)
    ensures Traced(t + [x], dt, lengths, refresh)
  {
    var u := t + [x];
    forall j | 0 <= j < |u| - 1
      ensures Steppable(u[j], lengths) && u[j + 1] == Step(u[j], dt, lengths, refresh)
    {
      if j < |t| - 1 {
        assert u[j] == t[j] && u[j + 1] == t[j + 1];
      } else {
        assert u[j] == t[|t| - 1] && u[j + 1] == x;
      }
    }
  }

  /** The last state of a run of n + 1 states is the state n steps after the first. */
  lemma {:induction false} TracedSteps(t: seq<SolverState>, dt: real, lengths: seq<real>, refresh: bool)
    requires |t| > 0 && Steppable(t[0], lengths) && Traced(t, dt, lengths, refresh)
    ensures t[|t| - 1] == Steps(t[0], |t| - 1, dt, lengths, refresh)
    decreases |t|
  {
    if |t| > 1 {
      var u := t[1..];
      assert Traced(u, dt, lengths, refresh) by {
        forall j | 0 <= j < |u| - 1
          ensures Steppable(u[j], lengths) && u[j + 1] == Step(u[j], dt, lengths, refresh)
        {
          assert u[j] == t[j + 1] && u[j + 1] == t[j + 2];
        }
      }
      TracedSteps(u, dt, lengths, refresh);
      assert t[|t| - 1] == u[|u| - 1] && u[0] == Step(t[0], dt, lengths, refresh);
    }
  }

  /** On a closed mesh, the area-weighted total of u0 is the same at every state of a run of steps. */
  lemma {:induction false} TracedConservesMass(t: seq<SolverState>, dt: real, lengths: seq<real>, refresh: bool)
    requires |t| > 0 && Steppable(t[0], lengths) && ClosedMesh(t[0].cells, t[0].edges) && Traced(t, dt, lengths, refresh)
    ensures Steppable(t[|t| - 1], lengths) && ClosedMesh(t[|t| - 1].cells, t[|t| - 1].edges)
    ensures Mass(t[|t| - 1].cells, 0) == Mass(t[0].cells, 0)
    decreases |t|
  {
    if |t| > 1 {
      var u := t[..|t| - 1];
      assert Traced(u, dt, lengths, refresh) by {
        forall j | 0 <= j < |u| - 1
          ensures Steppable(u[j], lengths) && u[j + 1] == Step(u[j], dt, lengths, refresh)
        {
          assert u[j] == t[j] && u[j + 1] == t[j + 1];
        }
      }
      TracedConservesMass(u, dt, lengths, refresh);
      var prev := t[|t| - 2];
      assert prev == u[|u| - 1];
      StepKeepsMass(prev, t[|t| - 1], dt, lengths, refresh);
    }
  }

  lemma StepKeepsMass(s: SolverState, next: SolverState, dt: real, lengths: seq<real>, refresh: bool)
    requires Steppable(s, lengths) && ClosedMesh(s.cells, s.edges) && next == Step(s, dt, lengths, refresh)
    ensures Steppable(next, lengths) && ClosedMesh(next.cells, next.edges) && Mass(next.cells, 0) == Mass(s.cells, 0)
  {
    StepConservesMass(s, dt, lengths, refresh);
  }

  /**
   * The index of the last step the loop of Calculate runs when it is at
   * step i with every earlier write passed: it stops after the first step
   * whose frame is due (i a multiple of the refresh rate) and fails to be
   * written, or after step nSteps.
   */
  function LastStep(i: nat, nSteps: int, refreshRate: int, written: nat -> bool): nat
    requires 1 <= i && refreshRate != 0
    decreases if i <= nSteps then nSteps - i + 1 else 0
  {
    if i > nSteps then i - 1
    else if i % refreshRate == 0 && !written(i) then i
    else LastStep(i + 1, nSteps, refreshRate, written)
  }

  /**
   * The loop runs on until nSteps unless a due frame fails to be written;
   * it stops right after that step, and every frame due before it was
   * written.
   */
  lemma {:induction false} LastStepStops(i: nat, nSteps: int, refreshRate: int, written: nat -> bool)
    requires 1 <= i && refreshRate != 0
    ensures var last := LastStep(i, nSteps, refreshRate, written);
      && i - 1 <= last <= (if nSteps < i then i - 1 else nSteps)
      && (forall j :: i <= j < last && j % refreshRate == 0 ==> written(j))
      && (last < nSteps ==> last % refreshRate == 0 && !written(last))
    decreases if i <= nSteps then nSteps - i + 1 else 0
  {
    if i <= nSteps && !(i % refreshRate == 0 && !written(i)) {
      LastStepStops(i + 1, nSteps, refreshRate, written);
    }
  }

  /** The steps Calculate takes: none when the initial frame is not written, LastStep(1) otherwise. */
  function StepsTaken(nSteps: int, refreshRate: int, written: nat -> bool): nat
    requires refreshRate != 0
  {
    if written(0) then LastStep(1, nSteps, refreshRate, written) else 0
  }

  /** With every frame written, Calculate takes all nSteps steps (none when nSteps is not positive). */
  lemma AllWrittenTakesAll(nSteps: int, refreshRate: int, written: nat -> bool)
    requires refreshRate != 0 && forall j :: written(j)
    ensures StepsTaken(nSteps, refreshRate, written) == if nSteps < 0 then 0 else nSteps
  {
    LastStepStops(1, nSteps, refreshRate, written);
  }

  /**
   * The solver of rkvr.hpp over a Mesh and a Manager, for the Simple<Linear>
   * Riemann solver: a scalar u advected at the constant velocity
   * coefficient. Edge lengths, square roots in the source, are inputs.
   */
  class Rkvr {
    const mesh: MeshDim2.Mesh
    const manager: Boundary.Manager
    const coefficient: Point
    var duration: real
    var nSteps: int
    var stepSize: real
    var refreshRate: int

    /** What a time step reads and writes. */
    function State(): SolverState
      reads mesh, manager
    {
      SolverState(mesh.cells, mesh.edges, manager.ghosts)
    }

    /** ReadMesh after the reader succeeded: the solver takes the mesh and preprocesses its edges. */
    constructor ReadMesh(mesh: MeshDim2.Mesh, coefficient: Point, lengths: seq<real>)
      requires Preprocessable(mesh.edges, lengths, |mesh.cells|, 0)
      modifies mesh
      ensures this.mesh == mesh && this.coefficient == coefficient && fresh(manager)
      ensures mesh.edges == PreparedAll(old(mesh.edges), lengths, coefficient, old(mesh.cells), [])
      ensures mesh.cells == old(mesh.cells) && mesh.nodes == old(mesh.nodes) && mesh.pairToEdge == old(mesh.pairToEdge)
      ensures manager.interiorEdges == ListOf(old(mesh.edges), |old(mesh.edges)|, true)
      ensures manager.boundaryEdges == ListOf(old(mesh.edges), |old(mesh.edges)|, false)
      ensures manager.ghosts == [] && manager.parts == map[] && manager.periodicPairs == []
    {
      this.mesh := mesh;
      this.coefficient := coefficient;
      manager := new Boundary.Manager();
      duration, nSteps, stepSize, refreshRate := 0.0, 0, 0.0, 0;
      new;
      Preprocess(lengths);
    }

    /** SetTimeSteps: the step size is the duration over the number of steps. */
    method SetTimeSteps(duration: real, nSteps: int, refreshRate: int)
      requires nSteps != 0
      modifies this
      ensures this.duration == duration && this.nSteps == nSteps && this.refreshRate == refreshRate
      ensures stepSize * (nSteps as real) == duration
    {
      this.duration := duration;
      this.nSteps := nSteps;
      stepSize := duration / nSteps as real;
      this.refreshRate := refreshRate;
    }

    /**
     * Preprocess: every edge's solver is rotated to the edge normal; an edge
     * with two sides is listed as interior and gets the distance between
     * its cell centres, any other edge is listed as boundary.
     */
    method Preprocess(lengths: seq<real>)
      requires Preprocessable(mesh.edges, lengths, |mesh.cells|, |manager.ghosts|)
      modifies mesh, manager
      ensures mesh.edges == PreparedAll(old(mesh.edges), lengths, coefficient, old(mesh.cells), old(manager.ghosts))
      ensures mesh.cells == old(mesh.cells) && mesh.nodes == old(mesh.nodes) && mesh.pairToEdge == old(mesh.pairToEdge)
      ensures manager.interiorEdges == old(manager.interiorEdges) + ListOf(old(mesh.edges), |old(mesh.edges)|, true)
      ensures manager.boundaryEdges == old(manager.boundaryEdges) + ListOf(old(mesh.edges), |old(mesh.edges)|, false)
      ensures manager.ghosts == old(manager.ghosts) && manager.parts == old(manager.parts)
      ensures manager.periodicPairs == old(manager.periodicPairs)
    {
      ghost var prepared := PreparedAll(mesh.edges, lengths, coefficient, mesh.cells, manager.ghosts);
      var edges := mesh.edges;
      var i := 0;
      while i < |edges|
        invariant 0 <= i <= |edges| == |mesh.edges|
        invariant forall j :: 0 <= j < i ==> edges[j] == prepared[j]
        invariant forall j :: i <= j < |edges| ==> edges[j] == mesh.edges[j]
        invariant manager.interiorEdges == old(manager.interiorEdges) + ListOf(mesh.edges, i, true)
        invariant manager.boundaryEdges == old(manager.boundaryEdges) + ListOf(mesh.edges, i, false)
        invariant manager.ghosts == old(manager.ghosts) && manager.parts == old(manager.parts)
        invariant manager.periodicPairs == old(manager.periodicPairs)
        modifies manager
      {
        var edge := edges[i];
        edges := edges[i := Prepared(edge, lengths[i], coefficient, mesh.cells, manager.ghosts)];
        ListEdge(mesh.edges, i, old(manager.interiorEdges), old(manager.boundaryEdges));
        i := i + 1;
      }
      assert edges == prepared;
      mesh.edges := edges;
    }

    /** Preprocess's listing of edge i: the interior list when it has both sides, the boundary list otherwise. */
    method ListEdge(edges: seq<MeshEdge.Edge>, i: nat, ghost interior0: seq<nat>, ghost boundary0: seq<nat>)
      requires i < |edges|
      requires manager.interiorEdges == interior0 + ListOf(edges, i, true)
      requires manager.boundaryEdges == boundary0 + ListOf(edges, i, false)
      modifies manager
      ensures manager.interiorEdges == interior0 + ListOf(edges, i + 1, true)
      ensures manager.boundaryEdges == boundary0 + ListOf(edges, i + 1, false)
      ensures manager.ghosts == old(manager.ghosts) && manager.parts == old(manager.parts)
      ensures manager.periodicPairs == old(manager.periodicPairs)
    {
      var edge := edges[i];
      ListOfStep(edges, i);
      if edge.positive.Some? && edge.negative.Some? {
        AppendAssociates(interior0, ListOf(edges, i, true), [i]);
        manager.AddInteriorEdge(i);
      } else {
        AppendAssociates(boundary0, ListOf(edges, i, false), [i]);
        manager.AddBoundaryEdge(i);
      }
    }

    /** GetFluxOnEachEdge(k): every edge gets the upwind flux of its two sides' stage-k values times its length. */
    method GetFluxOnEachEdge(k: nat, lengths: seq<real>)
      requires k < 3 && Closed(mesh.edges, |mesh.cells|, |manager.ghosts|) && LengthsOf(mesh.edges, lengths)
      modifies mesh
      ensures mesh.edges == WithFluxes(old(mesh.edges), old(mesh.cells), manager.ghosts, k, lengths)
      ensures mesh.cells == old(mesh.cells) && mesh.nodes == old(mesh.nodes) && mesh.pairToEdge == old(mesh.pairToEdge)
    {
      ghost var edges0 := mesh.edges;
      ghost var fluxed := WithFluxes(edges0, mesh.cells, manager.ghosts, k, lengths);
      var i := 0;
      while i < |mesh.edges|
        invariant 0 <= i <= |mesh.edges| == |edges0|
        invariant forall j :: 0 <= j < i ==> mesh.edges[j] == fluxed[j]
        invariant forall j :: i <= j < |edges0| ==> mesh.edges[j] == edges0[j]
        invariant mesh.cells == old(mesh.cells) && mesh.nodes == old(mesh.nodes) && mesh.pairToEdge == old(mesh.pairToEdge)
      {
        var edge := mesh.edges[i];
        var left := SideValue(edge.positive.value, mesh.cells, manager.ghosts, k);
        var right := SideValue(edge.negative.value, mesh.cells, manager.ghosts, k);
        var flux := RiemannLinear.GetFlux(left, right, edge.data.speed);
        flux := flux * lengths[i];
        mesh.edges := mesh.edges[i := edge.(data := edge.data.(flux := flux))];
        i := i + 1;
      }
      assert mesh.edges == fluxed;
    }

    /** GetRHS(cell c): minus the flux of each of its edges it is the positive side of, plus the others'. */
    method GetRHS(c: nat) returns (rhs: real)
      requires c < |mesh.cells| && EdgesIn(mesh.cells, |mesh.edges|)
      ensures rhs == Rhs(c, mesh.cells, mesh.edges)
    {
      var cell := mesh.cells[c];
      var incident := MeshTriangle.ForEachEdge(cell);
      ghost var incs := CellIncidences(c, cell);
      rhs := 0.0;
      var j := 0;
      while j < 3
        invariant 0 <= j <= 3
        invariant rhs + SumTerms(incs[j..], mesh.edges) == SumTerms(incs, mesh.edges)
      {
        var edge := mesh.edges[incident[j]];
        assert incs[j..][0] == incs[j] && incs[j..][1..] == incs[j + 1..];
        if edge.positive == Some(MeshEdge.Real(c)) {
          rhs := rhs - edge.data.flux;
        } else {
          rhs := rhs + edge.data.flux;
        }
        j := j + 1;
      }
    }

    /** The cell loop of stage k: every cell advances the stage slot Next(k) from its right-hand side. */
    method AdvanceCells(k: nat)
      requires k < 3 && Measurable(mesh.cells) && EdgesIn(mesh.cells, |mesh.edges|)
      modifies mesh
      ensures mesh.cells == Advanced(old(mesh.cells), mesh.edges, k, stepSize)
      ensures mesh.edges == old(mesh.edges) && mesh.nodes == old(mesh.nodes) && mesh.pairToEdge == old(mesh.pairToEdge)
    {
      ghost var advanced := Advanced(mesh.cells, mesh.edges, k, stepSize);
      ghost var cells0 := mesh.cells;
      var i := 0;
      while i < |mesh.cells|
        invariant 0 <= i <= |mesh.cells| == |cells0|
        invariant forall j :: 0 <= j < i ==> mesh.cells[j] == advanced[j]
        invariant forall j :: i <= j < |cells0| ==> mesh.cells[j] == cells0[j]
        invariant mesh.edges == old(mesh.edges) && mesh.nodes == old(mesh.nodes) && mesh.pairToEdge == old(mesh.pairToEdge)
      {
        var rhs := GetRHS(i);
        var cell := mesh.cells[i];
        var u := AdvanceCell(cell.data, rhs, stepSize, cell.tri.Measure(), k);
        assert rhs == Rhs(i, cells0, mesh.edges);
        mesh.cells := mesh.cells[i := cell.(data := u)];
        i := i + 1;
      }
      assert mesh.cells == advanced;
    }

    /**
     * Stage k of RungeKutta3Stepper as written: the fluxes of stage k, then
     * the cell loop. The ghosts are not refreshed, so a periodic edge reads
     * whatever data its ghost holds.
     */
    method Stage(k: nat, lengths: seq<real>)
      requires k < 3 && Steppable(State(), lengths) && LengthsOf(mesh.edges, lengths) && EdgesIn(mesh.cells, |mesh.edges|)
      modifies mesh
      ensures State() == Phase(old(State()), k, stepSize, lengths, false)
      ensures LengthsOf(mesh.edges, lengths) && EdgesIn(mesh.cells, |mesh.edges|)
      ensures mesh.nodes == old(mesh.nodes) && mesh.pairToEdge == old(mesh.pairToEdge)
    {
      GetFluxOnEachEdge(k, lengths);
      AdvanceCells(k);
      LengthsKept(old(mesh.edges), mesh.edges, lengths);
    }

    /** RungeKutta3Stepper: the three stages of the strong-stability-preserving third-order scheme, ghosts untouched. */
    method RungeKutta3Stepper(lengths: seq<real>)
      requires Steppable(State(), lengths) && LengthsOf(mesh.edges, lengths) && EdgesIn(mesh.cells, |mesh.edges|)
      modifies mesh
      ensures State() == Step(old(State()), stepSize, lengths, false)
      ensures LengthsOf(mesh.edges, lengths) && EdgesIn(mesh.cells, |mesh.edges|)
      ensures mesh.nodes == old(mesh.nodes) && mesh.pairToEdge == old(mesh.pairToEdge)
    {
      Stage(0, lengths);
      Stage(1, lengths);
      Stage(2, lengths);
    }

    /** The corrected stage k: the ghosts copy their parents' data (UpdatePeriodCells) before the fluxes. */
    method RefreshedStage(k: nat, lengths: seq<real>)
      requires k < 3 && Steppable(State(), lengths) && LengthsOf(mesh.edges, lengths) && EdgesIn(mesh.cells, |mesh.edges|)
      modifies mesh, manager
      ensures State() == Phase(old(State()), k, stepSize, lengths, true)
      ensures LengthsOf(mesh.edges, lengths) && EdgesIn(mesh.cells, |mesh.edges|)
      ensures mesh.nodes == old(mesh.nodes) && mesh.pairToEdge == old(mesh.pairToEdge)
      ensures manager.interiorEdges == old(manager.interiorEdges) && manager.boundaryEdges == old(manager.boundaryEdges)
      ensures manager.periodicPairs == old(manager.periodicPairs) && manager.parts == old(manager.parts)
    {
      manager.UpdatePeriodCells(mesh);
      GetFluxOnEachEdge(k, lengths);
      AdvanceCells(k);
      LengthsKept(old(mesh.edges), mesh.edges, lengths);
    }

    /** The corrected stepper: three refreshed stages, so every periodic edge sees the cells across the period. */
    method RefreshedRungeKutta3Stepper(lengths: seq<real>)
      requires Steppable(State(), lengths) && LengthsOf(mesh.edges, lengths) && EdgesIn(mesh.cells, |mesh.edges|)
      modifies mesh, manager
      ensures State() == Step(old(State()), stepSize, lengths, true)
      ensures LengthsOf(mesh.edges, lengths) && EdgesIn(mesh.cells, |mesh.edges|)
      ensures mesh.nodes == old(mesh.nodes) && mesh.pairToEdge == old(mesh.pairToEdge)
      ensures manager.interiorEdges == old(manager.interiorEdges) && manager.boundaryEdges == old(manager.boundaryEdges)
      ensures manager.periodicPairs == old(manager.periodicPairs) && manager.parts == old(manager.parts)
    {
      RefreshedStage(0, lengths);
      RefreshedStage(1, lengths);
      RefreshedStage(2, lengths);
    }

    /**
     * Calculate: check and clear the boundary conditions, write the initial
     * frame, then step until nSteps or until a due frame fails to be
     * written. written(i) is whether the frame after step i (0: the
     * initial state) is written.
     */
    method Calculate(lengths: seq<real>, written: nat -> bool) returns (r: Result<nat, Boundary.ManagerError>)
      requires Boundary.TotalSize(manager.parts) == |manager.boundaryEdges| ==>
        Steppable(State(), lengths) && LengthsOf(mesh.edges, lengths) && EdgesIn(mesh.cells, |mesh.edges|)
      requires refreshRate != 0
      modifies mesh, manager
      ensures r.Ok? <==> old(Boundary.TotalSize(manager.parts)) == old(|manager.boundaryEdges|)
      ensures r.Ok? ==> manager.boundaryEdges == []
      ensures r.Ok? ==> r.value == StepsTaken(nSteps, refreshRate, written)
      ensures r.Ok? ==> State() == Steps(old(State()), r.value, stepSize, lengths, false)
      ensures r.Ok? && old(ClosedMesh(mesh.cells, mesh.edges)) ==> Mass(mesh.cells, 0) == old(Mass(mesh.cells, 0))
      ensures r.Err? ==> State() == old(State()) && manager.boundaryEdges == old(manager.boundaryEdges)
      ensures manager.ghosts == old(manager.ghosts)
      ensures mesh.nodes == old(mesh.nodes) && mesh.pairToEdge == old(mesh.pairToEdge)
      ensures manager.interiorEdges == old(manager.interiorEdges)
      ensures manager.periodicPairs == old(manager.periodicPairs) && manager.parts == old(manager.parts)
    {
      var cleared := manager.ClearBoundaryCondition();
      if cleared.Err? {
        return Err(cleared.error);
      }
      ghost var s0 := State();
      assert s0 == old(State());
      ghost var target := StepsTaken(nSteps, refreshRate, written);
      var pass := written(0);
      var i := 1;
      ghost var trace := [s0];
      while i <= nSteps && pass
        invariant 1 <= i
        invariant Steppable(State(), lengths) && LengthsOf(mesh.edges, lengths) && EdgesIn(mesh.cells, |mesh.edges|)
        invariant |State().cells| == |s0.cells| && |State().edges| == |s0.edges| && |State().ghosts| == |s0.ghosts|
        invariant |trace| == i && trace[0] == s0 && trace[i - 1] == State() && Traced(trace, stepSize, lengths, false)
        invariant pass ==> target == LastStep(i, nSteps, refreshRate, written)
        invariant !pass ==> target == i - 1
        invariant manager.boundaryEdges == []
        invariant mesh.nodes == old(mesh.nodes) && mesh.pairToEdge == old(mesh.pairToEdge)
        invariant manager.interiorEdges == old(manager.interiorEdges)
        invariant manager.periodicPairs == old(manager.periodicPairs) && manager.parts == old(manager.parts)
        decreases if i <= nSteps then nSteps - i + 1 else 0
      {
        ghost var before := State();
        RungeKutta3Stepper(lengths);
        TracedSnoc(trace, State(), stepSize, lengths, false);
        trace := trace + [State()];
        if i % refreshRate == 0 {
          pass := written(i);
        }
        i := i + 1;
      }
      var steps: nat := i - 1;
      assert State() == Steps(old(State()), steps, stepSize, lengths, false) by {
        TracedSteps(trace, stepSize, lengths, false);
      }
      if ClosedMesh(s0.cells, s0.edges) {
        TracedConservesMass(trace, stepSize, lengths, false);
      }
      r := Ok(steps);
      assert r.value == steps;
    }
  }
}
