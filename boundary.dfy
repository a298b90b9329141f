/**
 * The boundary manager of solver/boundary.hpp.  It sorts the mesh edges
 * into interior and boundary lists, groups boundary edges into named parts,
 * and joins pairs of parts periodically: matching edges are "sewn" by
 * giving each one, on its missing side, a translated copy (a ghost) of the
 * cell next to the other edge.
 *
 * Edges and cells are referred to by index; ghosts live in the manager's
 * own list and are referred to as MeshEdge.Ghost(j).
 */
module Boundary {
  import opened Geometry
  import opened Wrappers
  import ElementTriangle
  import ElementEdge
  import MeshEdge
  import MeshTriangle
  import MeshDim2

  /** A ghost cell: a translated copy of its parent cell's triangle, with data of its own. */
  datatype GhostCell = GhostCell(tri: ElementTriangle.Triangle, data: MeshTriangle.CellData, parent: MeshEdge.CellRef)

  predicate RefIn(r: MeshEdge.CellRef, numCells: nat, numGhosts: nat) {
    match r
    case Real(i) => i < numCells
    case Ghost(j) => j < numGhosts
  }

  predicate SideRefIn(side: Option<MeshEdge.CellRef>, numCells: nat, numGhosts: nat) {
    side.Some? ==> RefIn(side.value, numCells, numGhosts)
  }

  /** Every side of every edge refers to an existing cell or ghost. */
  predicate SidesIn(edges: seq<MeshEdge.Edge>, numCells: nat, numGhosts: nat) {
    forall e :: 0 <= e < |edges| ==>
      SideRefIn(edges[e].positive, numCells, numGhosts) && SideRefIn(edges[e].negative, numCells, numGhosts)
  }

  /**
   * Every ghost's parent exists and was there before it: a real cell, or an
   * earlier ghost.
   */
  predicate ParentsEarlier(ghosts: seq<GhostCell>, numCells: nat) {
    forall j :: 0 <= j < |ghosts| ==> RefIn(ghosts[j].parent, numCells, j)
  }

  predicate HasSide(e: MeshEdge.Edge) {
    e.positive.Some? || e.negative.Some?
  }

  function TriangleOf(r: MeshEdge.CellRef, cells: seq<MeshTriangle.Cell>, ghosts: seq<GhostCell>): ElementTriangle.Triangle
    requires RefIn(r, |cells|, |ghosts|)
  {
    match r
    case Real(i) => cells[i].tri
    case Ghost(j) => ghosts[j].tri
  }

  function DataOf(r: MeshEdge.CellRef, cells: seq<MeshTriangle.Cell>, ghosts: seq<GhostCell>): MeshTriangle.CellData
    requires RefIn(r, |cells|, |ghosts|)
  {
    match r
    case Real(i) => cells[i].data
    case Ghost(j) => ghosts[j].data
  }

  function EdgeCenter(e: MeshEdge.Edge): Point {
    ElementEdge.Center(e.geo.head, e.geo.tail)
  }

  function MoveNode(n: Node, v: Point): (m: Node)
    ensures m.id == n.id && m.Pos() == n.Pos().Add(v)
  {
    Node(n.id, n.x + v.x, n.y + v.y)
  }

  /**
   * MoveCell: the triangle with every vertex translated by v and the same
   * id; its centre moves by v and its area does not change.
   */
  function MoveCell(t: ElementTriangle.Triangle, v: Point): (g: ElementTriangle.Triangle)
    ensures g.id == t.id && g.a.id == t.a.id && g.b.id == t.b.id && g.c.id == t.c.id
    ensures g.Center() == t.Center().Add(v)
    ensures g.Measure() == t.Measure()
  {
    var g := ElementTriangle.Triangle(t.id, MoveNode(t.a, v), MoveNode(t.b, v), MoveNode(t.c, v));
    assert Cross(g.a.Pos(), g.b.Pos(), g.c.Pos()) == Cross(t.a.Pos(), t.b.Pos(), t.c.Pos());
    g
  }

  /**
   * The data a fresh ghost starts with: MoveCell constructs the ghost
   * without writing its data, which is indeterminate; the model uses the
   * same zero stand-in as MeshTriangle.NewCell.
   */
  const NoData := MeshTriangle.CellData(0.0, 0.0, 0.0)

  /** The side of an edge a ghost is copied from: the positive one if set, else the negative one. */
  function ParentSide(e: MeshEdge.Edge): MeshEdge.CellRef
    requires HasSide(e)
  {
    if e.positive.None? then e.negative.value else e.positive.value
  }

  /** Fill the side of e that was empty (positive if it was null, otherwise negative) with g. */
  function Attach(e: MeshEdge.Edge, positiveWasNull: bool, g: MeshEdge.CellRef): MeshEdge.Edge {
    if positiveWasNull then MeshEdge.SetPositiveSide(e, Some(g)) else MeshEdge.SetNegativeSide(e, Some(g))
  }

  /** Record the squared distance between the centres of the two sides of edge e. */
  function SetDistance(edges: seq<MeshEdge.Edge>, e: nat, cells: seq<MeshTriangle.Cell>, ghosts: seq<GhostCell>): (r: seq<MeshEdge.Edge>)
    requires e < |edges| && edges[e].positive.Some? && edges[e].negative.Some?
    requires RefIn(edges[e].positive.value, |cells|, |ghosts|) && RefIn(edges[e].negative.value, |cells|, |ghosts|)
    ensures |r| == |edges| && forall i :: 0 <= i < |edges| && i != e ==> r[i] == edges[i]
    ensures r[e] == edges[e].(data := r[e].data)
    ensures r[e].data.distanceSq == SquaredDistance(TriangleOf(edges[e].positive.value, cells, ghosts).Center(),
                                                    TriangleOf(edges[e].negative.value, cells, ghosts).Center())
  {
    var pos := TriangleOf(edges[e].positive.value, cells, ghosts).Center();
    var neg := TriangleOf(edges[e].negative.value, cells, ghosts).Center();
    edges[e := edges[e].(data := edges[e].data.(distanceSq := SquaredDistance(pos, neg)))]
  }

  /**
   * SewMatchingEdges(a, b): the sides are read first; a ghost of a's cell
   * moved by centre(b) - centre(a) and a ghost of b's cell moved the other
   * way are appended; each edge gets the other's ghost on its empty side
   * (or on its negative side if the positive one was set); then the
   * distances between side centres are recorded.
   */
  function Sew(edges: seq<MeshEdge.Edge>, cells: seq<MeshTriangle.Cell>, ghosts: seq<GhostCell>, a: nat, b: nat):
    (r: (seq<MeshEdge.Edge>, seq<GhostCell>))
    requires a < |edges| && b < |edges| && SidesIn(edges, |cells|, |ghosts|)
    requires HasSide(edges[a]) && HasSide(edges[b])
    ensures |r.0| == |edges| && |r.1| == |ghosts| + 2 && r.1[..|ghosts|] == ghosts
    ensures SidesIn(r.0, |cells|, |r.1|)
  {
    var ea := edges[a];
    var eb := edges[b];
    var parentA := ParentSide(ea);
    var parentB := ParentSide(eb);
    var ghostA := GhostCell(MoveCell(TriangleOf(parentA, cells, ghosts), EdgeCenter(eb).Sub(EdgeCenter(ea))), NoData, parentA);
    var ghostB := GhostCell(MoveCell(TriangleOf(parentB, cells, ghosts), EdgeCenter(ea).Sub(EdgeCenter(eb))), NoData, parentB);
    var ghosts' := ghosts + [ghostA, ghostB];
    var e2 := AttachBoth(edges, |cells|, a, b, |ghosts|);
    var e3 := SetDistance(e2, a, cells, ghosts');
    var e4 := SetDistance(e3, b, cells, ghosts');
    (e4, ghosts')
  }

  /**
   * What Sew does to the edges.  Sewing two different edges: a set positive
   * side is kept (and the negative side overwritten), otherwise the positive
   * side is filled; the filled side holds the ghost of the other edge's
   * cell.  Both edges then record the squared distance between the centres
   * of their two sides; no other edge changes, and no edge's geometry or
   * node pair changes.
   */
  lemma SewSides(edges: seq<MeshEdge.Edge>, cells: seq<MeshTriangle.Cell>, ghosts: seq<GhostCell>, a: nat, b: nat)
    requires a < |edges| && b < |edges| && SidesIn(edges, |cells|, |ghosts|)
    requires HasSide(edges[a]) && HasSide(edges[b])
    ensures var r := Sew(edges, cells, ghosts, a, b);
      && r.0[a].positive.Some? && r.0[a].negative.Some? && r.0[b].positive.Some? && r.0[b].negative.Some?
      && (a != b ==>
        && (edges[a].positive.None? ==> r.0[a].positive == Some(MeshEdge.Ghost(|ghosts| + 1)) && r.0[a].negative == edges[a].negative)
        && (edges[a].positive.Some? ==> r.0[a].positive == edges[a].positive && r.0[a].negative == Some(MeshEdge.Ghost(|ghosts| + 1)))
        && (edges[b].positive.None? ==> r.0[b].positive == Some(MeshEdge.Ghost(|ghosts|)) && r.0[b].negative == edges[b].negative)
        && (edges[b].positive.Some? ==> r.0[b].positive == edges[b].positive && r.0[b].negative == Some(MeshEdge.Ghost(|ghosts|))))
      && RefIn(r.0[a].positive.value, |cells|, |r.1|) && RefIn(r.0[a].negative.value, |cells|, |r.1|)
      && RefIn(r.0[b].positive.value, |cells|, |r.1|) && RefIn(r.0[b].negative.value, |cells|, |r.1|)
      && r.0[a].data.distanceSq == SquaredDistance(CenterOf(r.0[a].positive.value, cells, r.1), CenterOf(r.0[a].negative.value, cells, r.1))
      && r.0[b].data.distanceSq == SquaredDistance(CenterOf(r.0[b].positive.value, cells, r.1), CenterOf(r.0[b].negative.value, cells, r.1))
      && (forall i :: 0 <= i < |edges| && i != a && i != b ==> r.0[i] == edges[i])
      && (forall i :: 0 <= i < |edges| ==> r.0[i].geo == edges[i].geo && MeshDim2.KeyOf(r.0[i]) == MeshDim2.KeyOf(edges[i]))
  {
  }

  /**
   * The side updates of SewMatchingEdges: edge a receives Ghost(n + 1) (the
   * copy of b's cell) and then edge b receives Ghost(n) (the copy of a's
   * cell), each on the side chosen from the sides read before any update.
   */
  function AttachBoth(edges: seq<MeshEdge.Edge>, numCells: nat, a: nat, b: nat, n: nat): (r: seq<MeshEdge.Edge>)
    requires a < |edges| && b < |edges| && SidesIn(edges, numCells, n)
    requires HasSide(edges[a]) && HasSide(edges[b])
    ensures |r| == |edges| && SidesIn(r, numCells, n + 2)
    ensures r[a].positive.Some? && r[a].negative.Some? && r[b].positive.Some? && r[b].negative.Some?
    ensures a != b ==>
      && (edges[a].positive.None? ==> r[a].positive == Some(MeshEdge.Ghost(n + 1)) && r[a].negative == edges[a].negative)
      && (edges[a].positive.Some? ==> r[a].positive == edges[a].positive && r[a].negative == Some(MeshEdge.Ghost(n + 1)))
      && (edges[b].positive.None? ==> r[b].positive == Some(MeshEdge.Ghost(n)) && r[b].negative == edges[b].negative)
      && (edges[b].positive.Some? ==> r[b].positive == edges[b].positive && r[b].negative == Some(MeshEdge.Ghost(n)))
    ensures forall i :: 0 <= i < |edges| && i != a && i != b ==> r[i] == edges[i]
    ensures forall i :: 0 <= i < |edges| ==> r[i].geo == edges[i].geo && MeshDim2.KeyOf(r[i]) == MeshDim2.KeyOf(edges[i])
  {
    var e1 := edges[a := Attach(edges[a], edges[a].positive.None?, MeshEdge.Ghost(n + 1))];
    e1[b := Attach(e1[b], edges[b].positive.None?, MeshEdge.Ghost(n))]
  }

  function CenterOf(r: MeshEdge.CellRef, cells: seq<MeshTriangle.Cell>, ghosts: seq<GhostCell>): Point
    requires RefIn(r, |cells|, |ghosts|)
  {
    TriangleOf(r, cells, ghosts).Center()
  }

  /**
   * Each sew appends exactly two ghosts: the first copies a's cell, keeps
   * its id and area and is moved by centre(b) - centre(a); the second
   * copies b's cell and is moved by the opposite vector.  Parents stay
   * earlier than their ghosts.
   */
  lemma SewGhosts(edges: seq<MeshEdge.Edge>, cells: seq<MeshTriangle.Cell>, ghosts: seq<GhostCell>, a: nat, b: nat)
    requires a < |edges| && b < |edges| && SidesIn(edges, |cells|, |ghosts|)
    requires HasSide(edges[a]) && HasSide(edges[b])
    ensures var g := Sew(edges, cells, ghosts, a, b).1;
            var n := |ghosts|;
            var pa := ParentSide(edges[a]);
            var pb := ParentSide(edges[b]);
            && g[n].parent == pa && g[n + 1].parent == pb
            && g[n].tri.id == TriangleOf(pa, cells, ghosts).id
            && g[n + 1].tri.id == TriangleOf(pb, cells, ghosts).id
            && g[n].tri.Center() == CenterOf(pa, cells, ghosts).Add(EdgeCenter(edges[b]).Sub(EdgeCenter(edges[a])))
            && g[n + 1].tri.Center() == CenterOf(pb, cells, ghosts).Add(EdgeCenter(edges[a]).Sub(EdgeCenter(edges[b])))
            && g[n].tri.Measure() == TriangleOf(pa, cells, ghosts).Measure()
            && g[n + 1].tri.Measure() == TriangleOf(pb, cells, ghosts).Measure()
            && (ParentsEarlier(ghosts, |cells|) ==> ParentsEarlier(g, |cells|))
  {
    var g := Sew(edges, cells, ghosts, a, b).1;
    if ParentsEarlier(ghosts, |cells|) {
      forall j | 0 <= j < |g|
        ensures RefIn(g[j].parent, |cells|, j)
      {
        if j < |ghosts| {
          assert g[j] == ghosts[j];
        }
      }
    }
  }


  /** The comparator of SetPeriodicBoundary: by centre y, ties broken by centre x. */
  predicate CenterLess(p: Point, q: Point) {
    if p.y != q.y then p.y < q.y else p.x < q.x
  }

  predicate InRange(part: seq<nat>, n: nat) {
    forall i :: 0 <= i < |part| ==> part[i] < n
  }

  /** No edge of the part comes before an edge whose centre is smaller. */
  predicate SortedByCenter(part: seq<nat>, edges: seq<MeshEdge.Edge>)
    requires InRange(part, |edges|)
  {
    forall i, j :: 0 <= i < j < |part| ==> !CenterLess(EdgeCenter(edges[part[j]]), EdgeCenter(edges[part[i]]))
  }

  /** Putting x after the prefix of keys not above it and before the rest keeps a part sorted. */
  lemma InsertKeepsSorted(sorted: seq<nat>, x: nat, j: nat, edges: seq<MeshEdge.Edge>)
    requires InRange(sorted, |edges|) && x < |edges| && SortedByCenter(sorted, edges) && j <= |sorted|
    requires forall k :: 0 <= k < j ==> !CenterLess(EdgeCenter(edges[x]), EdgeCenter(edges[sorted[k]]))
    requires j < |sorted| ==> CenterLess(EdgeCenter(edges[x]), EdgeCenter(edges[sorted[j]]))
    ensures InRange(sorted[..j] + [x] + sorted[j..], |edges|)
    ensures SortedByCenter(sorted[..j] + [x] + sorted[j..], edges)
  {
    var r := sorted[..j] + [x] + sorted[j..];
    assert InRange(r, |edges|) by {
      forall k | 0 <= k < |r| ensures r[k] < |edges| {
        if k > j { assert r[k] == sorted[k - 1]; }
      }
    }
    forall p, q | 0 <= p < q < |r|
      ensures !CenterLess(EdgeCenter(edges[r[q]]), EdgeCenter(edges[r[p]]))
    {
      if q == j {
        assert r[p] == sorted[p];
      } else if p == j {
        assert r[q] == sorted[q - 1];
        if q - 1 > j {
          assert !CenterLess(EdgeCenter(edges[sorted[q - 1]]), EdgeCenter(edges[sorted[j]]));
        }
      } else {
        var p' := if p < j then p else p - 1;
        var q' := if q < j then q else q - 1;
        assert r[p] == sorted[p'] && r[q] == sorted[q'];
      }
    }
  }

  /**
   * The std::sort of SetPeriodicBoundary, as an insertion sort: the result
   * is a permutation of the part, ordered by edge centre (y, then x).
   * Edges with equal centres may end up in any order, as with std::sort.
   */
  method SortByCenter(part: seq<nat>, edges: seq<MeshEdge.Edge>) returns (sorted: seq<nat>)
    requires InRange(part, |edges|)
    ensures InRange(sorted, |edges|) && SortedByCenter(sorted, edges)
    ensures multiset(sorted) == multiset(part)
  {
    sorted := [];
    var i := 0;
    while i < |part|
      invariant 0 <= i <= |part|
      invariant InRange(sorted, |edges|) && SortedByCenter(sorted, edges)
      invariant multiset(sorted) == multiset(part[..i])
    {
      var x := part[i];
      var c := EdgeCenter(edges[x]);
      var j := 0;
      while j < |sorted| && !CenterLess(c, EdgeCenter(edges[sorted[j]]))
        invariant 0 <= j <= |sorted|
        invariant forall k :: 0 <= k < j ==> !CenterLess(c, EdgeCenter(edges[sorted[k]]))
      {
        j := j + 1;
      }
      InsertKeepsSorted(sorted, x, j, edges);
      assert sorted == sorted[..j] + sorted[j..];
      sorted := sorted[..j] + [x] + sorted[j..];
      assert part[..i + 1] == part[..i] + [x];
      i := i + 1;
    }
    assert part[..|part|] == part;
  }

  /** Every edge of the part is a mesh edge with at least one cell beside it. */
  predicate Attached(part: seq<nat>, edges: seq<MeshEdge.Edge>) {
    forall i :: 0 <= i < |part| ==> part[i] < |edges| && HasSide(edges[part[i]])
  }

  lemma AttachedPermutation(p: seq<nat>, q: seq<nat>, edges: seq<MeshEdge.Edge>)
    requires Attached(p, edges) && multiset(p) == multiset(q)
    ensures Attached(q, edges) && InRange(q, |edges|)
  {
    forall i | 0 <= i < |q|
      ensures q[i] < |edges| && HasSide(edges[q[i]])
    {
      assert q[i] in multiset(q);
      assert q[i] in p;
    }
  }

  /** Sewing moves no edge, so a part sorted before is sorted after. */
  lemma SortedKeepsOrder(part: seq<nat>, edges: seq<MeshEdge.Edge>, e': seq<MeshEdge.Edge>)
    requires InRange(part, |edges|) && SortedByCenter(part, edges) && Evolved(edges, e')
    ensures InRange(part, |e'|) && SortedByCenter(part, e')
  {
    forall i | 0 <= i < |part|
      ensures EdgeCenter(e'[part[i]]) == EdgeCenter(edges[part[i]])
    {
    }
  }

  /** No side of e that was set is null in e'. */
  predicate Filled(e: MeshEdge.Edge, e': MeshEdge.Edge) {
    (e.positive.Some? ==> e'.positive.Some?) && (e.negative.Some? ==> e'.negative.Some?)
  }

  /** Re-sorting two parts keeps every part within the edge range. */
  lemma PartsStayIn(before: map<string, seq<nat>>, after: map<string, seq<nat>>, head: string, tail: string, n: nat)
    requires forall name :: name in before ==> InRange(before[name], n)
    requires after.Keys == before.Keys && head in after && tail in after
    requires forall name :: name in after && name != head && name != tail ==> after[name] == before[name]
    requires InRange(after[head], n) && InRange(after[tail], n)
    ensures forall name :: name in after ==> InRange(after[name], n)
  {
  }

  /**
   * e' is edges after sewing: the same edges with the same geometry and
   * node pair, no side that was set cleared.
   */
  predicate Evolved(edges: seq<MeshEdge.Edge>, e': seq<MeshEdge.Edge>) {
    && |e'| == |edges|
    && forall i :: 0 <= i < |edges| ==>
      && Filled(edges[i], e'[i])
      && e'[i].geo == edges[i].geo && MeshDim2.KeyOf(e'[i]) == MeshDim2.KeyOf(edges[i])
  }

  lemma EvolvedTransitive(e1: seq<MeshEdge.Edge>, e2: seq<MeshEdge.Edge>, e3: seq<MeshEdge.Edge>)
    requires Evolved(e1, e2) && Evolved(e2, e3)
    ensures Evolved(e1, e3)
  {
  }

  predicate Sewable(edges: seq<MeshEdge.Edge>, head: seq<nat>, tail: seq<nat>) {
    && |head| == |tail| && InRange(head, |edges|) && InRange(tail, |edges|)
    && (forall i :: 0 <= i < |head| ==> HasSide(edges[head[i]]) && HasSide(edges[tail[i]]))
  }

  /** The body of SewMatchingEdges on the mesh's edges and cells and the manager's ghosts. */
  method SewEdges(edges: seq<MeshEdge.Edge>, cells: seq<MeshTriangle.Cell>, ghosts: seq<GhostCell>, a: nat, b: nat)
    returns (r: (seq<MeshEdge.Edge>, seq<GhostCell>))
    requires a < |edges| && b < |edges| && SidesIn(edges, |cells|, |ghosts|)
    requires HasSide(edges[a]) && HasSide(edges[b])
    ensures r == Sew(edges, cells, ghosts, a, b)
  {
    var aPositive, aNegative := edges[a].positive, edges[a].negative;
    var bPositive, bNegative := edges[b].positive, edges[b].negative;
    var vab := EdgeCenter(edges[b]).Sub(EdgeCenter(edges[a]));
    var vba := EdgeCenter(edges[a]).Sub(EdgeCenter(edges[b]));
    var n := |ghosts|;
    var parentA := if aPositive.None? then aNegative.value else aPositive.value;
    var ghostA := GhostCell(MoveCell(TriangleOf(parentA, cells, ghosts), vab), NoData, parentA);
    var parentB := if bPositive.None? then bNegative.value else bPositive.value;
    var ghostB := GhostCell(MoveCell(TriangleOf(parentB, cells, ghosts), vba), NoData, parentB);
    var sewn := ghosts + [ghostA, ghostB];
    ghost var attached := AttachBoth(edges, |cells|, a, b, n);
    var e := edges[a := Attach(edges[a], aPositive.None?, MeshEdge.Ghost(n + 1))];
    e := e[b := Attach(e[b], bPositive.None?, MeshEdge.Ghost(n))];
    assert e == attached;
    e := SetDistance(e, a, cells, sewn);
    e := SetDistance(e, b, cells, sewn);
    r := (e, sewn);
  }

  /** Sew, with only what the loop over many pairs relies on. */
  function SewStep(edges: seq<MeshEdge.Edge>, cells: seq<MeshTriangle.Cell>, ghosts: seq<GhostCell>, a: nat, b: nat):
    (r: (seq<MeshEdge.Edge>, seq<GhostCell>))
    requires a < |edges| && b < |edges| && SidesIn(edges, |cells|, |ghosts|)
    requires HasSide(edges[a]) && HasSide(edges[b])
    ensures |r.1| == |ghosts| + 2 && r.1[..|ghosts|] == ghosts
    ensures SidesIn(r.0, |cells|, |r.1|) && Evolved(edges, r.0)
    ensures TwoSided(r.0[a]) && TwoSided(r.0[b])
  {
    SewSides(edges, cells, ghosts, a, b);
    Sew(edges, cells, ghosts, a, b)
  }

  /** The loop of SetPeriodicBoundary: sew head[i] to tail[i] for every i, in order. */
  function SewPairs(edges: seq<MeshEdge.Edge>, cells: seq<MeshTriangle.Cell>, ghosts: seq<GhostCell>, head: seq<nat>, tail: seq<nat>):
    (r: (seq<MeshEdge.Edge>, seq<GhostCell>))
    requires Sewable(edges, head, tail) && SidesIn(edges, |cells|, |ghosts|)
    ensures |r.0| == |edges| && |r.1| == |ghosts| + 2 * |head| && r.1[..|ghosts|] == ghosts
    ensures SidesIn(r.0, |cells|, |r.1|)
    ensures Evolved(edges, r.0)
    decreases |head|
  {
    if |head| == 0 then (edges, ghosts)
    else
      var n := |head| - 1;
      var (e, g) := SewPairs(edges, cells, ghosts, head[..n], tail[..n]);
      var r := SewStep(e, cells, g, head[n], tail[n]);
      assert r.1[..|ghosts|] == g[..|ghosts|];
      EvolvedTransitive(edges, e, r.0);
      r
  }

  predicate TwoSided(e: MeshEdge.Edge) {
    e.positive.Some? && e.negative.Some?
  }

  predicate AllTwoSided(edges: seq<MeshEdge.Edge>, head: seq<nat>, tail: seq<nat>)
    requires |head| <= |tail| && InRange(head, |edges|) && InRange(tail, |edges|)
  {
    forall i :: 0 <= i < |head| ==> TwoSided(edges[head[i]]) && TwoSided(edges[tail[i]])
  }

  lemma SewablePrefix(edges: seq<MeshEdge.Edge>, head: seq<nat>, tail: seq<nat>, i: nat)
    requires Sewable(edges, head, tail) && i <= |head|
    ensures Sewable(edges, head[..i], tail[..i])
  {
    forall k | 0 <= k < i
      ensures head[..i][k] == head[k] && tail[..i][k] == tail[k]
    {
    }
  }

  /** One more pair sewn on top of the first i. */
  lemma SewPairsSnoc(edges: seq<MeshEdge.Edge>, cells: seq<MeshTriangle.Cell>, ghosts: seq<GhostCell>, head: seq<nat>, tail: seq<nat>, i: nat)
    requires Sewable(edges, head, tail) && SidesIn(edges, |cells|, |ghosts|) && i < |head|
    requires Sewable(edges, head[..i], tail[..i]) && Sewable(edges, head[..i + 1], tail[..i + 1])
    ensures var p := SewPairs(edges, cells, ghosts, head[..i], tail[..i]);
      && HasSide(p.0[head[i]]) && HasSide(p.0[tail[i]])
      && SewPairs(edges, cells, ghosts, head[..i + 1], tail[..i + 1]) == SewStep(p.0, cells, p.1, head[i], tail[i])
  {
    assert head[..i + 1][..i] == head[..i] && tail[..i + 1][..i] == tail[..i];
    var p := SewPairs(edges, cells, ghosts, head[..i], tail[..i]);
    assert Filled(edges[head[i]], p.0[head[i]]) && Filled(edges[tail[i]], p.0[tail[i]]) by {
      assert Evolved(edges, p.0);
    }
  }

  /** After SewPairs every edge of both lists has a cell on each side. */
  lemma {:induction false} SewPairsTwoSided(edges: seq<MeshEdge.Edge>, cells: seq<MeshTriangle.Cell>, ghosts: seq<GhostCell>, head: seq<nat>, tail: seq<nat>)
    requires Sewable(edges, head, tail) && SidesIn(edges, |cells|, |ghosts|)
    ensures AllTwoSided(SewPairs(edges, cells, ghosts, head, tail).0, head, tail)
    decreases |head|
  {
    if |head| > 0 {
      var n := |head| - 1;
      var h', t' := head[..n], tail[..n];
      assert Sewable(edges, h', t');
      SewPairsTwoSided(edges, cells, ghosts, h', t');
      var p := SewPairs(edges, cells, ghosts, h', t');
      var r := SewStep(p.0, cells, p.1, head[n], tail[n]);
      assert r == SewPairs(edges, cells, ghosts, head, tail);
      EvolvedKeepsTwoSided(p.0, r.0, h', t');
      AllTwoSidedExtend(r.0, head, tail);
    }
  }

  lemma EvolvedKeepsTwoSided(e: seq<MeshEdge.Edge>, e': seq<MeshEdge.Edge>, head: seq<nat>, tail: seq<nat>)
    requires |head| <= |tail| && InRange(head, |e|) && InRange(tail, |e|)
    requires Evolved(e, e') && AllTwoSided(e, head, tail)
    ensures AllTwoSided(e', head, tail)
  {
    forall i | 0 <= i < |head|
      ensures TwoSided(e'[head[i]]) && TwoSided(e'[tail[i]])
    {
      assert Filled(e[head[i]], e'[head[i]]) && Filled(e[tail[i]], e'[tail[i]]);
    }
  }

  lemma AllTwoSidedExtend(e: seq<MeshEdge.Edge>, head: seq<nat>, tail: seq<nat>)
    requires 0 < |head| <= |tail| && InRange(head, |e|) && InRange(tail, |e|)
    requires AllTwoSided(e, head[..|head| - 1], tail[..|head| - 1])
    requires TwoSided(e[head[|head| - 1]]) && TwoSided(e[tail[|head| - 1]])
    ensures AllTwoSided(e, head, tail)
  {
    var n := |head| - 1;
    forall i | 0 <= i < n
      ensures TwoSided(e[head[i]]) && TwoSided(e[tail[i]])
    {
      assert head[..n][i] == head[i] && tail[..n][i] == tail[i];
    }
  }

  /** Every sew of the loop keeps each ghost's parent earlier than the ghost. */
  lemma {:induction false} SewPairsParents(edges: seq<MeshEdge.Edge>, cells: seq<MeshTriangle.Cell>, ghosts: seq<GhostCell>, head: seq<nat>, tail: seq<nat>)
    requires Sewable(edges, head, tail) && SidesIn(edges, |cells|, |ghosts|) && ParentsEarlier(ghosts, |cells|)
    ensures ParentsEarlier(SewPairs(edges, cells, ghosts, head, tail).1, |cells|)
    decreases |head|
  {
    if |head| > 0 {
      var n := |head| - 1;
      SewablePrefix(edges, head, tail, n);
      SewablePrefix(edges, head, tail, n + 1);
      assert head[..n + 1] == head && tail[..n + 1] == tail;
      SewPairsParents(edges, cells, ghosts, head[..n], tail[..n]);
      var p := SewPairs(edges, cells, ghosts, head[..n], tail[..n]);
      SewPairsSnoc(edges, cells, ghosts, head, tail, n);
      SewGhosts(p.0, cells, p.1, head[n], tail[n]);
    }
  }

  /**
   * Sewing keeps the mesh containers consistent: node pairs, cells and the
   * map are untouched, and every real side still names an existing cell.
   */
  lemma SewKeepsMesh(s: MeshDim2.MeshState, edges: seq<MeshEdge.Edge>, numGhosts: nat)
    requires MeshDim2.Consistent(s) && Evolved(s.edges, edges) && SidesIn(edges, |s.cells|, numGhosts)
    ensures MeshDim2.Consistent(s.(edges := edges))
  {
    var r := s.(edges := edges);
    forall i | 0 <= i < |edges|
      ensures MeshDim2.SideIn(edges[i].positive, |s.cells|) && MeshDim2.SideIn(edges[i].negative, |s.cells|)
    {
      assert SideRefIn(edges[i].positive, |s.cells|, numGhosts) && SideRefIn(edges[i].negative, |s.cells|, numGhosts);
    }
    forall i | 0 <= i < |edges|
      ensures MeshDim2.KeyOf(edges[i]) == MeshDim2.KeyOf(s.edges[i])
    {
    }
  }

  /** Some name of a non-empty set of part names. */
  ghost function Pick(names: set<string>): (k: string)
    requires names != {}
    ensures k in names
  {
    var k :| k in names; k
  }

  /** The number of edge entries in the named parts, duplicates included. */
  ghost function SizeOf(parts: map<string, seq<nat>>, names: set<string>): nat
    requires names <= parts.Keys
    decreases names
  {
    if names == {} then 0
    else
      var k := Pick(names);
      |parts[k]| + SizeOf(parts, names - {k})
  }

  ghost function TotalSize(parts: map<string, seq<nat>>): nat {
    SizeOf(parts, parts.Keys)
  }

  /** The size sum does not depend on the order the names are taken in. */
  lemma {:induction false} SizeOfRemove(parts: map<string, seq<nat>>, names: set<string>, k: string)
    requires names <= parts.Keys && k in names
    ensures SizeOf(parts, names) == |parts[k]| + SizeOf(parts, names - {k})
    decreases names
  {
    var p := Pick(names);
    if p != k {
      SizeOfRemove(parts, names - {p}, k);
      SizeOfRemove(parts, names - {k}, p);
      assert names - {p} - {k} == names - {k} - {p};
    }
  }

  /**
   * The boundary check counts entries only: a part listing one boundary
   * edge twice passes it even though another boundary edge is in no part.
   */
  lemma CheckCountsOnly()
    ensures TotalSize(map["inlet" := [0, 0]]) == |[0, 1]|
  {
    var parts := map["inlet" := [0, 0]];
    assert parts.Keys == {"inlet"};
    SizeOfRemove(parts, parts.Keys, "inlet");
    assert parts.Keys - {"inlet"} == {};
  }

  /** The boundary edges, in list order, that the visitor accepts. */
  function Select(boundary: seq<nat>, edges: seq<MeshEdge.Edge>, accept: MeshEdge.Edge -> bool): (r: seq<nat>)
    requires InRange(boundary, |edges|)
    ensures |r| <= |boundary| && InRange(r, |edges|)
    decreases |boundary|
  {
    if boundary == [] then []
    else
      var n := |boundary| - 1;
      Select(boundary[..n], edges, accept) + (if accept(edges[boundary[n]]) then [boundary[n]] else [])
  }

  /** Selecting from one more boundary edge adds that edge when it is accepted. */
  lemma SelectSnoc(boundary: seq<nat>, i: nat, edges: seq<MeshEdge.Edge>, accept: MeshEdge.Edge -> bool)
    requires i < |boundary| && InRange(boundary, |edges|)
    ensures InRange(boundary[..i], |edges|) && InRange(boundary[..i + 1], |edges|)
    ensures Select(boundary[..i + 1], edges, accept)
      == Select(boundary[..i], edges, accept) + (if accept(edges[boundary[i]]) then [boundary[i]] else [])
  {
    assert boundary[..i + 1][..i] == boundary[..i];
  }

  /** The loop of SetBoundaryName: appends to part, in order, each boundary edge the visitor accepts. */
  method AppendAccepted(part: seq<nat>, boundary: seq<nat>, edges: seq<MeshEdge.Edge>, accept: MeshEdge.Edge -> bool)
    returns (r: seq<nat>)
    requires InRange(boundary, |edges|)
    ensures r == part + Select(boundary, edges, accept)
  {
    r := part;
    var i := 0;
    while i < |boundary|
      invariant 0 <= i <= |boundary|
      invariant r == part + Select(boundary[..i], edges, accept)
    {
      SelectSnoc(boundary, i, edges, accept);
      if accept(edges[boundary[i]]) {
        r := r + [boundary[i]];
      }
      i := i + 1;
    }
    assert boundary[..i] == boundary;
  }

  /** Select keeps each accepted edge as often as it is listed, and no other edge. */
  lemma {:induction false} SelectCounts(boundary: seq<nat>, edges: seq<MeshEdge.Edge>, accept: MeshEdge.Edge -> bool)
    requires InRange(boundary, |edges|)
    ensures forall x: nat :: x < |edges| ==>
      multiset(Select(boundary, edges, accept))[x] == if accept(edges[x]) then multiset(boundary)[x] else 0
    ensures forall x :: x in Select(boundary, edges, accept) ==> x in boundary && accept(edges[x])
    decreases |boundary|
  {
    if boundary != [] {
      var n := |boundary| - 1;
      assert boundary == boundary[..n] + [boundary[n]];
      SelectCounts(boundary[..n], edges, accept);
    }
  }

  /**
   * UpdatePeriodCells on the first k ghosts, in list order: each one takes
   * the data its parent has at that moment.
   */
  function Refresh(ghosts: seq<GhostCell>, cells: seq<MeshTriangle.Cell>, k: nat): (r: seq<GhostCell>)
    requires k <= |ghosts| && ParentsEarlier(ghosts, |cells|)
    ensures |r| == |ghosts| && ParentsEarlier(r, |cells|)
    ensures forall j :: 0 <= j < |ghosts| ==> r[j].tri == ghosts[j].tri && r[j].parent == ghosts[j].parent
    ensures forall j :: k <= j < |ghosts| ==> r[j] == ghosts[j]
    decreases k
  {
    if k == 0 then ghosts
    else
      var g := Refresh(ghosts, cells, k - 1);
      g[k - 1 := g[k - 1].(data := DataOf(g[k - 1].parent, cells, g))]
  }

  /** The loop of UpdatePeriodCells: each ghost in turn takes the current data of its parent. */
  method RefreshAll(ghosts: seq<GhostCell>, cells: seq<MeshTriangle.Cell>) returns (r: seq<GhostCell>)
    requires ParentsEarlier(ghosts, |cells|)
    ensures r == Refresh(ghosts, cells, |ghosts|)
  {
    r := ghosts;
    var k := 0;
    while k < |r|
      invariant 0 <= k <= |r| == |ghosts|
      invariant r == Refresh(ghosts, cells, k)
    {
      r := r[k := r[k].(data := DataOf(r[k].parent, cells, r))];
      k := k + 1;
    }
  }

  /**
   * Because a ghost's parent comes before it, copying in list order leaves
   * every refreshed ghost holding exactly its parent's data.
   */
  lemma {:induction false} RefreshCopiesParents(ghosts: seq<GhostCell>, cells: seq<MeshTriangle.Cell>, k: nat)
    requires k <= |ghosts| && ParentsEarlier(ghosts, |cells|)
    ensures CopiesParents(Refresh(ghosts, cells, k), cells, k)
    decreases k
  {
    if k > 0 {
      RefreshCopiesParents(ghosts, cells, k - 1);
      var g := Refresh(ghosts, cells, k - 1);
      var r := Refresh(ghosts, cells, k);
      forall j | 0 <= j < k
        ensures r[j].data == DataOf(r[j].parent, cells, r)
      {
        assert RefIn(r[j].parent, |cells|, j);
        if j < k - 1 {
          assert r[j] == g[j];
          assert CopiesParents(g, cells, k - 1);
        }
        if r[j].parent.Ghost? {
          assert r[r[j].parent.index] == g[r[j].parent.index];
        }
      }
    }
  }

  /** Each of the first k ghosts holds its parent's data. */
  predicate CopiesParents(ghosts: seq<GhostCell>, cells: seq<MeshTriangle.Cell>, k: nat)
    requires k <= |ghosts| && ParentsEarlier(ghosts, |cells|)
  {
    forall j :: 0 <= j < k ==> ghosts[j].data == DataOf(ghosts[j].parent, cells, ghosts)
  }

  /** The mesh cell a side stands for: itself, or, for a ghost, the mesh cell its chain of parents starts from. */
  function Root(r: MeshEdge.CellRef, numCells: nat, ghosts: seq<GhostCell>): (c: nat)
    requires ParentsEarlier(ghosts, numCells) && RefIn(r, numCells, |ghosts|)
    ensures c < numCells
    decreases if r.Ghost? then r.index + 1 else 0
  {
    match r
    case Real(i) => i
    case Ghost(j) => Root(ghosts[j].parent, numCells, ghosts)
  }

  /** After UpdatePeriodCells every side holds the data of the mesh cell it stands for. */
  lemma {:induction false} RefreshSeesRoot(ghosts: seq<GhostCell>, cells: seq<MeshTriangle.Cell>, r: MeshEdge.CellRef)
    requires ParentsEarlier(ghosts, |cells|) && RefIn(r, |cells|, |ghosts|)
    ensures DataOf(r, cells, Refresh(ghosts, cells, |ghosts|)) == cells[Root(r, |cells|, ghosts)].data
    decreases if r.Ghost? then r.index + 1 else 0
  {
    if r.Ghost? {
      var g := Refresh(ghosts, cells, |ghosts|);
      RefreshCopiesParents(ghosts, cells, |ghosts|);
      assert g[r.index].data == DataOf(ghosts[r.index].parent, cells, g);
      RefreshSeesRoot(ghosts, cells, ghosts[r.index].parent);
    }
  }

  /**
   * The ghosts after UpdatePeriodCells, in closed form: each holds the data
   * of the mesh cell its chain of parents starts from.
   */
  function Refreshed(ghosts: seq<GhostCell>, cells: seq<MeshTriangle.Cell>): (r: seq<GhostCell>)
    requires ParentsEarlier(ghosts, |cells|)
    ensures |r| == |ghosts| && ParentsEarlier(r, |cells|)
    ensures forall j :: 0 <= j < |ghosts| ==> r[j] == ghosts[j].(data := r[j].data)
  {
    seq(|ghosts|, j requires 0 <= j < |ghosts| => ghosts[j].(data := cells[Root(MeshEdge.Ghost(j), |cells|, ghosts)].data))
  }

  /** In the closed form too, every side holds the data of the mesh cell it stands for. */
  lemma RefreshedSeesRoot(ghosts: seq<GhostCell>, cells: seq<MeshTriangle.Cell>, r: MeshEdge.CellRef)
    requires ParentsEarlier(ghosts, |cells|) && RefIn(r, |cells|, |ghosts|)
    ensures DataOf(r, cells, Refreshed(ghosts, cells)) == cells[Root(r, |cells|, ghosts)].data
  {
  }

  /** Copying in list order, UpdatePeriodCells ends where the closed form says: every ghost holds its root cell's data. */
  lemma RefreshIsRefreshed(ghosts: seq<GhostCell>, cells: seq<MeshTriangle.Cell>)
    requires ParentsEarlier(ghosts, |cells|)
    ensures Refresh(ghosts, cells, |ghosts|) == Refreshed(ghosts, cells)
  {
    var g := Refresh(ghosts, cells, |ghosts|);
    var h := Refreshed(ghosts, cells);
    forall j | 0 <= j < |ghosts|
      ensures g[j] == h[j]
    {
      RefreshSeesRoot(ghosts, cells, MeshEdge.Ghost(j));
    }
  }

  datatype ManagerError = LengthError | OutOfRange

  function Zip(left: seq<nat>, right: seq<nat>): (r: seq<(nat, nat)>)
    requires |left| <= |right|
    ensures |r| == |left|
  {
    seq(|left|, i requires 0 <= i < |left| => (left[i], right[i]))
  }

  /** The pairs (left[i], right[i]) of every part pair in turn, when no right part is shorter than its left part. */
  function Zipped(pairs: seq<(string, string)>, parts: map<string, seq<nat>>): seq<(nat, nat)>
    requires forall p :: p in pairs ==> p.0 in parts && p.1 in parts && |parts[p.0]| <= |parts[p.1]|
    decreases |pairs|
  {
    if pairs == [] then []
    else
      var n := |pairs| - 1;
      assert forall p :: p in pairs[..n] ==> p in pairs;
      Zipped(pairs[..n], parts) + Zip(parts[pairs[n].0], parts[pairs[n].1])
  }

  /** The visits ForEachPeriodicEdge makes, and the error that ends the walk, if any. */
  datatype PeriodicWalk = PeriodicWalk(visited: seq<(nat, nat)>, error: Option<ManagerError>)

  /** Part pair k is the first whose right part is shorter than its left part. */
  predicate FirstShort(pairs: seq<(string, string)>, parts: map<string, seq<nat>>, k: nat)
    requires forall p :: p in pairs ==> p.0 in parts && p.1 in parts
  {
    && k < |pairs| && |parts[pairs[k].1]| < |parts[pairs[k].0]|
    && forall j :: 0 <= j < k ==> |parts[pairs[j].0]| <= |parts[pairs[j].1]|
  }

  /**
   * What ForEachPeriodicEdge visits: pair by pair in registration order,
   * (left[i], right[i]) for every i below the left part's size.  A right
   * part shorter than its left part makes right->at(i) throw out-of-range;
   * the visits made before the throw stand (see StopsAtFirstShort).
   */
  function PeriodicEdges(pairs: seq<(string, string)>, parts: map<string, seq<nat>>): (r: PeriodicWalk)
    requires forall p :: p in pairs ==> p.0 in parts && p.1 in parts
    ensures r.error.None? <==> forall p :: p in pairs ==> |parts[p.0]| <= |parts[p.1]|
    ensures r.error.None? ==> r.visited == Zipped(pairs, parts)
    ensures r.error.Some? ==> r.error.value == OutOfRange
    decreases |pairs|
  {
    if pairs == [] then PeriodicWalk([], None)
    else
      var n := |pairs| - 1;
      assert pairs == pairs[..n] + [pairs[n]];
      var prefix := PeriodicEdges(pairs[..n], parts);
      var left := parts[pairs[n].0];
      var right := parts[pairs[n].1];
      if prefix.error.Some? then prefix
      else if |left| <= |right| then PeriodicWalk(prefix.visited + Zip(left, right), None)
      else PeriodicWalk(prefix.visited + Zip(left[..|right|], right), Some(OutOfRange))
  }

  /** The part pairs before the first short one all fit. */
  lemma PrefixFits(pairs: seq<(string, string)>, parts: map<string, seq<nat>>, k: nat)
    requires forall p :: p in pairs ==> p.0 in parts && p.1 in parts
    requires FirstShort(pairs, parts, k)
    ensures forall p :: p in pairs[..k] ==> p.0 in parts && p.1 in parts && |parts[p.0]| <= |parts[p.1]|
  {
    forall p | p in pairs[..k]
      ensures p in pairs && |parts[p.0]| <= |parts[p.1]|
    {
      var j :| 0 <= j < k && pairs[..k][j] == p;
      assert pairs[j] == p;
    }
  }

  /**
   * The walk stops at the first short part pair k: it has visited every
   * pair of the part pairs before k and the first |right| pairs of k.
   */
  lemma {:induction false} StopsAtFirstShort(pairs: seq<(string, string)>, parts: map<string, seq<nat>>, k: nat)
    requires forall p :: p in pairs ==> p.0 in parts && p.1 in parts
    requires FirstShort(pairs, parts, k)
    ensures forall p :: p in pairs[..k] ==> p.0 in parts && p.1 in parts && |parts[p.0]| <= |parts[p.1]|
    ensures PeriodicEdges(pairs, parts)
      == PeriodicWalk(Zipped(pairs[..k], parts) + Zip(parts[pairs[k].0][..|parts[pairs[k].1]|], parts[pairs[k].1]), Some(OutOfRange))
    decreases |pairs|
  {
    PrefixFits(pairs, parts, k);
    var n := |pairs| - 1;
    if k < n {
      assert pairs[..n][k] == pairs[k] && pairs[..n][..k] == pairs[..k];
      assert FirstShort(pairs[..n], parts, k) by {
        assert forall j :: 0 <= j < k ==> pairs[..n][j] == pairs[j];
      }
      StopsAtFirstShort(pairs[..n], parts, k);
      ErrorPersists(pairs, parts);
    } else {
      assert pairs[..n] == pairs[..k];
      ShortLast(pairs, parts);
    }
  }

  /**
   * Parts "a" = [1, 2, 3] and "b" = [4, 5]: the walk over the pair (a, b)
   * visits (1, 4) and (2, 5) before right->at(2) throws.
   */
  lemma ShortRightPartVisits()
    ensures PeriodicEdges([("a", "b")], map["a" := [1, 2, 3], "b" := [4, 5]])
      == PeriodicWalk([(1, 4), (2, 5)], Some(OutOfRange))
  {
    var pairs := [("a", "b")];
    var parts := map["a" := [1, 2, 3], "b" := [4, 5]];
    assert FirstShort(pairs, parts, 0);
    StopsAtFirstShort(pairs, parts, 0);
    assert pairs[..0] == [];
    assert Zip([1, 2, 3][..2], [4, 5]) == [(1, 4), (2, 5)];
  }

  /** An error in the walk over all but the last part pair is the walk's error. */
  lemma ErrorPersists(pairs: seq<(string, string)>, parts: map<string, seq<nat>>)
    requires |pairs| > 0 && forall p :: p in pairs ==> p.0 in parts && p.1 in parts
    ensures forall p :: p in pairs[..|pairs| - 1] ==> p.0 in parts && p.1 in parts
    ensures PeriodicEdges(pairs[..|pairs| - 1], parts).error.Some? ==> PeriodicEdges(pairs, parts) == PeriodicEdges(pairs[..|pairs| - 1], parts)
  {
    assert forall p :: p in pairs[..|pairs| - 1] ==> p in pairs;
  }

  /** After a walk without error, a short last part pair adds its first |right| pairs and the error. */
  lemma ShortLast(pairs: seq<(string, string)>, parts: map<string, seq<nat>>)
    requires |pairs| > 0 && forall p :: p in pairs ==> p.0 in parts && p.1 in parts
    ensures forall p :: p in pairs[..|pairs| - 1] ==> p.0 in parts && p.1 in parts
    ensures var n := |pairs| - 1; var left := parts[pairs[n].0]; var right := parts[pairs[n].1];
      PeriodicEdges(pairs[..n], parts).error.None? && |right| < |left| ==>
      PeriodicEdges(pairs, parts) == PeriodicWalk(PeriodicEdges(pairs[..n], parts).visited + Zip(left[..|right|], right), Some(OutOfRange))
  {
    assert forall p :: p in pairs[..|pairs| - 1] ==> p in pairs;
  }

  /**
   * The manager: interior and boundary edge lists, named boundary parts,
   * the registered periodic part pairs, and the ghost cells made by sewing,
   * each with its parent.
   */
  class Manager {
    var interiorEdges: seq<nat>
    var boundaryEdges: seq<nat>
    var periodicPairs: seq<(string, string)>
    var parts: map<string, seq<nat>>
    var ghosts: seq<GhostCell>

    /** Every registered pair names two existing parts. */
    predicate PairsNamed()
      reads this
    {
      forall p :: p in periodicPairs ==> p.0 in parts && p.1 in parts
    }

    predicate PartsIn(numEdges: nat)
      reads this
    {
      forall name :: name in parts ==> InRange(parts[name], numEdges)
    }

    /**
     * Every edge the manager lists is a mesh edge, every side refers to a
     * mesh cell or a ghost, and every ghost's parent comes before it.
     */
    ghost predicate Valid(mesh: MeshDim2.Mesh)
      reads this, mesh
    {
      && InRange(interiorEdges, |mesh.edges|) && InRange(boundaryEdges, |mesh.edges|)
      && PartsIn(|mesh.edges|) && PairsNamed()
      && SidesIn(mesh.edges, |mesh.cells|, |ghosts|)
      && ParentsEarlier(ghosts, |mesh.cells|)
    }

    constructor()
      ensures interiorEdges == [] && boundaryEdges == [] && periodicPairs == []
      ensures parts == map[] && ghosts == []
    {
      interiorEdges := [];
      boundaryEdges := [];
      periodicPairs := [];
      parts := map[];
      ghosts := [];
    }

    method AddInteriorEdge(e: nat)
      modifies this
      ensures interiorEdges == old(interiorEdges) + [e]
      ensures boundaryEdges == old(boundaryEdges) && periodicPairs == old(periodicPairs)
      ensures parts == old(parts) && ghosts == old(ghosts)
    {
      interiorEdges := interiorEdges + [e];
    }

    method AddBoundaryEdge(e: nat)
      modifies this
      ensures boundaryEdges == old(boundaryEdges) + [e]
      ensures interiorEdges == old(interiorEdges) && periodicPairs == old(periodicPairs)
      ensures parts == old(parts) && ghosts == old(ghosts)
    {
      boundaryEdges := boundaryEdges + [e];
    }

    /**
     * SetBoundaryName: the boundary edges the visitor accepts are appended,
     * in list order, to the part of that name.  A part that already exists
     * is extended, not replaced.
     */
    method SetBoundaryName(mesh: MeshDim2.Mesh, name: string, accept: MeshEdge.Edge -> bool)
      requires InRange(boundaryEdges, |mesh.edges|)
      modifies this
      ensures interiorEdges == old(interiorEdges) && boundaryEdges == old(boundaryEdges)
      ensures periodicPairs == old(periodicPairs) && ghosts == old(ghosts)
      ensures parts == old(parts)[name := (if name in old(parts) then old(parts)[name] else []) + Select(boundaryEdges, mesh.edges, accept)]
    {
      var part := if name in parts then parts[name] else [];
      part := AppendAccepted(part, boundaryEdges, mesh.edges, accept);
      parts := parts[name := part];
    }

    /** True iff the parts hold as many entries as there are boundary edges. */
    method CheckBoundaryConditions() returns (ok: bool)
      ensures ok <==> TotalSize(parts) == |boundaryEdges|
    {
      var n := 0;
      var rest := parts.Keys;
      while rest != {}
        invariant rest <= parts.Keys
        invariant n + SizeOf(parts, rest) == TotalSize(parts)
        decreases rest
      {
        var name :| name in rest;
        SizeOfRemove(parts, rest, name);
        n := n + |parts[name]|;
        rest := rest - {name};
      }
      ok := n == |boundaryEdges|;
    }

    /**
     * ClearBoundaryCondition: when the check holds the boundary list is
     * emptied; otherwise a length error and nothing changes.
     */
    method ClearBoundaryCondition() returns (r: Result<(), ManagerError>)
      modifies this
      ensures r.Ok? <==> old(TotalSize(parts) == |boundaryEdges|)
      ensures r.Ok? ==> boundaryEdges == []
      ensures r.Err? ==> r.error == LengthError && boundaryEdges == old(boundaryEdges)
      ensures interiorEdges == old(interiorEdges) && periodicPairs == old(periodicPairs)
      ensures parts == old(parts) && ghosts == old(ghosts)
    {
      var ok := CheckBoundaryConditions();
      if ok {
        boundaryEdges := [];
        r := Ok(());
      } else {
        r := Err(LengthError);
      }
    }

    /** The interior edges, in the order they were added. */
    method ForEachInteriorEdge() returns (visited: seq<nat>)
      ensures visited == interiorEdges
    {
      visited := MeshDim2.Visit(interiorEdges);
    }

    /** The edge pairs ForEachPeriodicEdge hands to its visitor, and its out-of-range error if a right part runs out. */
    method ForEachPeriodicEdge() returns (r: PeriodicWalk)
      requires PairsNamed()
      ensures r == PeriodicEdges(periodicPairs, parts)
    {
      var visited := [];
      var k := 0;
      while k < |periodicPairs|
        invariant 0 <= k <= |periodicPairs|
        invariant PeriodicEdges(periodicPairs[..k], parts) == PeriodicWalk(visited, None)
      {
        var left := parts[periodicPairs[k].0];
        var right := parts[periodicPairs[k].1];
        ghost var before := visited;
        assert periodicPairs[..k + 1][..k] == periodicPairs[..k];
        var i := 0;
        while i < |left|
          invariant 0 <= i <= |left| && i <= |right|
          invariant visited == before + Zip(left[..i], right[..i])
        {
          if |right| <= i {
            assert left[..i] == left[..|right|] && right[..i] == right;
            assert FirstShort(periodicPairs, parts, k) by {
              forall j | 0 <= j < k ensures |parts[periodicPairs[j].0]| <= |parts[periodicPairs[j].1]| {
                assert periodicPairs[j] in periodicPairs[..k];
              }
            }
            StopsAtFirstShort(periodicPairs, parts, k);
            return PeriodicWalk(visited, Some(OutOfRange));
          }
          assert Zip(left[..i + 1], right[..i + 1]) == Zip(left[..i], right[..i]) + [(left[i], right[i])];
          visited := visited + [(left[i], right[i])];
          i := i + 1;
        }
        assert Zip(left[..i], right[..i]) == Zip(left, right);
        k := k + 1;
      }
      assert periodicPairs[..k] == periodicPairs;
      r := PeriodicWalk(visited, None);
    }

    /**
     * UpdatePeriodCells: every ghost, in list order, takes its parent's
     * data; afterwards each ghost holds exactly its parent's data.  The
     * mesh cells are only read.
     */
    method UpdatePeriodCells(mesh: MeshDim2.Mesh)
      requires ParentsEarlier(ghosts, |mesh.cells|)
      modifies this
      ensures ghosts == Refresh(old(ghosts), mesh.cells, |old(ghosts)|) == Refreshed(old(ghosts), mesh.cells)
      ensures ParentsEarlier(ghosts, |mesh.cells|) && CopiesParents(ghosts, mesh.cells, |ghosts|)
      ensures interiorEdges == old(interiorEdges) && boundaryEdges == old(boundaryEdges)
      ensures periodicPairs == old(periodicPairs) && parts == old(parts)
    {
      ghosts := RefreshAll(ghosts, mesh.cells);
      RefreshCopiesParents(old(ghosts), mesh.cells, |ghosts|);
      RefreshIsRefreshed(old(ghosts), mesh.cells);
    }
  
    /**
     * SewMatchingEdges(a, b): both edges' sides are read first; the ghost of
     * a's cell is appended, then the ghost of b's cell; each edge receives
     * the other edge's ghost; the two distances are recorded last.
     */
    method SewMatchingEdges(mesh: MeshDim2.Mesh, a: nat, b: nat)
      requires a < |mesh.edges| && b < |mesh.edges| && SidesIn(mesh.edges, |mesh.cells|, |ghosts|)
      requires HasSide(mesh.edges[a]) && HasSide(mesh.edges[b])
      modifies this, mesh
      ensures (mesh.edges, ghosts) == SewStep(old(mesh.edges), old(mesh.cells), old(ghosts), a, b)
      ensures mesh.nodes == old(mesh.nodes) && mesh.cells == old(mesh.cells) && mesh.pairToEdge == old(mesh.pairToEdge)
      ensures interiorEdges == old(interiorEdges) && boundaryEdges == old(boundaryEdges)
      ensures periodicPairs == old(periodicPairs) && parts == old(parts)
    {
      var sewn := SewEdges(mesh.edges, mesh.cells, ghosts, a, b);
      ghosts := sewn.1;
      mesh.edges := sewn.0;
    }
  
    /** The loop of SetPeriodicBoundary: sew head[i] to tail[i] for each i in turn. */
    method SewParts(mesh: MeshDim2.Mesh, head: seq<nat>, tail: seq<nat>)
      requires Sewable(mesh.edges, head, tail) && SidesIn(mesh.edges, |mesh.cells|, |ghosts|)
      modifies this, mesh
      ensures (mesh.edges, ghosts) == SewPairs(old(mesh.edges), old(mesh.cells), old(ghosts), head, tail)
      ensures mesh.nodes == old(mesh.nodes) && mesh.cells == old(mesh.cells) && mesh.pairToEdge == old(mesh.pairToEdge)
      ensures interiorEdges == old(interiorEdges) && boundaryEdges == old(boundaryEdges)
      ensures periodicPairs == old(periodicPairs) && parts == old(parts)
    {
      ghost var edges0, ghosts0 := mesh.edges, ghosts;
      var i := 0;
      while i < |head|
        invariant 0 <= i <= |head|
        invariant mesh.nodes == old(mesh.nodes) && mesh.cells == old(mesh.cells) && mesh.pairToEdge == old(mesh.pairToEdge)
        invariant interiorEdges == old(interiorEdges) && boundaryEdges == old(boundaryEdges)
        invariant periodicPairs == old(periodicPairs) && parts == old(parts)
        invariant (mesh.edges, ghosts) == SewPairs(edges0, mesh.cells, ghosts0, head[..i], tail[..i])
      {
        SewablePrefix(edges0, head, tail, i);
        SewablePrefix(edges0, head, tail, i + 1);
        SewPairsSnoc(edges0, mesh.cells, ghosts0, head, tail, i);
        SewMatchingEdges(mesh, head[i], tail[i]);
        i := i + 1;
      }
      assert head[..i] == head && tail[..i] == tail;
    }
  
    /**
     * SetPeriodicBoundary(head, tail) by part name: the pair is recorded,
     * then the two parts are sorted and sewn.  The manager's invariant is
     * kept: sides still refer to cells or ghosts, parents still come first.
     */
    method SetPeriodicBoundary(mesh: MeshDim2.Mesh, head: string, tail: string)
      requires Valid(mesh)
      requires head in parts && tail in parts && |parts[head]| == |parts[tail]|
      requires Attached(parts[head], mesh.edges) && Attached(parts[tail], mesh.edges)
      modifies this, mesh
      ensures Valid(mesh)
      ensures periodicPairs == old(periodicPairs) + [(head, tail)]
      ensures parts.Keys == old(parts).Keys
      ensures forall name :: name in parts && name != head && name != tail ==> parts[name] == old(parts)[name]
      ensures multiset(parts[head]) == multiset(old(parts)[head]) && multiset(parts[tail]) == multiset(old(parts)[tail])
      ensures SortedByCenter(parts[head], mesh.edges) && SortedByCenter(parts[tail], mesh.edges)
      ensures Sewable(old(mesh.edges), parts[head], parts[tail])
      ensures (mesh.edges, ghosts) == SewPairs(old(mesh.edges), old(mesh.cells), old(ghosts), parts[head], parts[tail])
      ensures mesh.nodes == old(mesh.nodes) && mesh.cells == old(mesh.cells) && mesh.pairToEdge == old(mesh.pairToEdge)
      ensures interiorEdges == old(interiorEdges) && boundaryEdges == old(boundaryEdges)
    {
      ghost var edges0, cells0, ghosts0 := mesh.edges, mesh.cells, ghosts;
      periodicPairs := periodicPairs + [(head, tail)];
      SortAndSew(mesh, head, tail);
      ghost var h, t := parts[head], parts[tail];
      SewPairsParents(edges0, cells0, ghosts0, h, t);
      SortedKeepsOrder(h, edges0, mesh.edges);
      SortedKeepsOrder(t, edges0, mesh.edges);
      PartsStayIn(old(parts), parts, head, tail, |edges0|);
    }

    /**
     * SetPeriodicBoundary on two parts: each is sorted by edge centre (y,
     * then x), then the i-th edges of the two are sewn together, for every i.
     */
    method SortAndSew(mesh: MeshDim2.Mesh, head: string, tail: string)
      requires head in parts && tail in parts && |parts[head]| == |parts[tail]|
      requires Attached(parts[head], mesh.edges) && Attached(parts[tail], mesh.edges)
      requires SidesIn(mesh.edges, |mesh.cells|, |ghosts|)
      modifies this, mesh
      ensures parts.Keys == old(parts).Keys
      ensures forall name :: name in parts && name != head && name != tail ==> parts[name] == old(parts)[name]
      ensures multiset(parts[head]) == multiset(old(parts)[head]) && multiset(parts[tail]) == multiset(old(parts)[tail])
      ensures InRange(parts[head], |old(mesh.edges)|) && SortedByCenter(parts[head], old(mesh.edges))
      ensures InRange(parts[tail], |old(mesh.edges)|) && SortedByCenter(parts[tail], old(mesh.edges))
      ensures Sewable(old(mesh.edges), parts[head], parts[tail])
      ensures (mesh.edges, ghosts) == SewPairs(old(mesh.edges), old(mesh.cells), old(ghosts), parts[head], parts[tail])
      ensures mesh.nodes == old(mesh.nodes) && mesh.cells == old(mesh.cells) && mesh.pairToEdge == old(mesh.pairToEdge)
      ensures interiorEdges == old(interiorEdges) && boundaryEdges == old(boundaryEdges)
      ensures periodicPairs == old(periodicPairs)
    {
      SortPart(mesh, head);
      SortPart(mesh, tail);
      assert |parts[head]| == |multiset(parts[head])| == |multiset(parts[tail])| == |parts[tail]|;
      SewParts(mesh, parts[head], parts[tail]);
    }

    /** std::sort of one part by edge centre. */
    method SortPart(mesh: MeshDim2.Mesh, name: string)
      requires name in parts && Attached(parts[name], mesh.edges)
      modifies this
      ensures parts.Keys == old(parts).Keys
      ensures forall n :: n in parts && n != name ==> parts[n] == old(parts)[n]
      ensures multiset(parts[name]) == multiset(old(parts)[name])
      ensures Attached(parts[name], mesh.edges)
      ensures InRange(parts[name], |mesh.edges|) && SortedByCenter(parts[name], mesh.edges)
      ensures interiorEdges == old(interiorEdges) && boundaryEdges == old(boundaryEdges)
      ensures periodicPairs == old(periodicPairs) && ghosts == old(ghosts)
    {
      var sorted := SortByCenter(parts[name], mesh.edges);
      AttachedPermutation(parts[name], sorted, mesh.edges);
      parts := parts[name := sorted];
    }
  }
}
