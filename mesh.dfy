/**
 * The 2-D triangular mesh of mesh/dim2.hpp.  Nodes, edges and cells live in
 * dense arrays; an edge is found again through a map keyed by the ordered
 * pair of its node indices, and each cell is linked into its three edges as
 * their positive or negative side.
 *
 * The pure functions on MeshState say what every mutating operation does;
 * the class Mesh holds the same four containers and each of its methods is
 * proved to leave exactly the state its specification function computes.
 */
module MeshDim2 {
  import opened Geometry
  import opened Wrappers
  import ElementTriangle
  import MeshEdge
  import MeshTriangle

  /** The only failure: a node index beyond the node array (std::vector::at). */
  datatype MeshError = NodeOutOfRange

  datatype MeshState = MeshState(nodes: seq<Node>, edges: seq<MeshEdge.Edge>,
                                 cells: seq<MeshTriangle.Cell>, pairToEdge: map<(nat, nat), nat>)

  /** std::minmax on two node indices. */
  function MinMax(h: nat, t: nat): (k: (nat, nat))
    ensures k.0 <= k.1
    ensures (k.0 == h && k.1 == t) || (k.0 == t && k.1 == h)
  {
    if h <= t then (h, t) else (t, h)
  }

  function KeyOf(e: MeshEdge.Edge): (nat, nat) {
    (e.headIndex, e.tailIndex)
  }

  /** Every map entry points at an existing edge. */
  predicate IndexInRange(s: MeshState) {
    forall k :: k in s.pairToEdge ==> s.pairToEdge[k] < |s.edges|
  }

  predicate SideIn(side: Option<MeshEdge.CellRef>, numCells: nat) {
    side.Some? && side.value.Real? ==> side.value.index < numCells
  }

  /**
   * What the containers keep true between operations: the map and the edge
   * array are in one-to-one correspondence through the edges' node pairs
   * (so they have the same size), every stored pair is ordered, and cell and
   * side references point into the arrays.
   */
  ghost predicate Consistent(s: MeshState) {
    && IndexInRange(s)
    && |s.pairToEdge| == |s.edges|
    && (forall k :: k in s.pairToEdge ==> KeyOf(s.edges[s.pairToEdge[k]]) == k)
    && (forall i :: 0 <= i < |s.edges| ==> KeyOf(s.edges[i]) in s.pairToEdge && s.pairToEdge[KeyOf(s.edges[i])] == i)
    && (forall i :: 0 <= i < |s.edges| ==> s.edges[i].headIndex <= s.edges[i].tailIndex)
    && (forall i :: 0 <= i < |s.edges| ==> SideIn(s.edges[i].positive, |s.cells|) && SideIn(s.edges[i].negative, |s.cells|))
    && (forall i :: 0 <= i < |s.cells| ==>
          s.cells[i].ab < |s.edges| && s.cells[i].bc < |s.edges| && s.cells[i].ca < |s.edges|)
  }

  /** EmplaceNode: the new node is inserted at position i, later nodes move up by one. */
  function InsertNode(nodes: seq<Node>, i: nat, x: real, y: real): (r: seq<Node>)
    requires i <= |nodes|
    ensures |r| == |nodes| + 1 && r[i] == Node(i, x, y)
    ensures forall k :: 0 <= k < i ==> r[k] == nodes[k]
    ensures forall k :: i < k < |r| ==> r[k] == nodes[k - 1]
  {
    nodes[..i] + [Node(i, x, y)] + nodes[i..]
  }

  /** Emplacing node |nodes| keeps node k at position k for every k. */
  lemma InsertNodeInOrder(nodes: seq<Node>, x: real, y: real)
    requires forall k :: 0 <= k < |nodes| ==> nodes[k].id == k
    ensures var r := InsertNode(nodes, |nodes|, x, y);
            forall k :: 0 <= k < |r| ==> r[k].id == k
  {
  }

  /**
   * The edge for the unordered pair {h, t}: the stored one when the pair is
   * known, otherwise a new edge from the lower to the higher index, appended
   * and entered in the map.
   */
  function InsertEdge(s: MeshState, h: nat, t: nat, degree: nat): (r: (MeshState, nat))
    requires degree <= 3 && IndexInRange(s)
    requires MinMax(h, t) in s.pairToEdge || (h < |s.nodes| && t < |s.nodes|)
    ensures IndexInRange(r.0) && r.1 < |r.0.edges|
    ensures r.0.nodes == s.nodes && r.0.cells == s.cells
    ensures |s.edges| <= |r.0.edges| <= |s.edges| + 1
    ensures forall i :: 0 <= i < |s.edges| ==> r.0.edges[i] == s.edges[i]
    ensures forall i :: |s.edges| <= i < |r.0.edges| ==> r.0.edges[i].positive == None && r.0.edges[i].negative == None
    ensures MinMax(h, t) in r.0.pairToEdge && r.0.pairToEdge[MinMax(h, t)] == r.1
    ensures forall q :: q in s.pairToEdge ==> q in r.0.pairToEdge && r.0.pairToEdge[q] == s.pairToEdge[q]
  {
    var k := MinMax(h, t);
    if k in s.pairToEdge then (s, s.pairToEdge[k])
    else
      var e := MeshEdge.NewEdge(s.nodes[k.0], s.nodes[k.1], k.0, k.1, degree);
      (s.(edges := s.edges + [e], pairToEdge := s.pairToEdge[k := |s.edges|]), |s.edges|)
  }

  /** EmplaceEdge: out of range only when the pair is new and a node index is not stored. */
  function EmplaceEdgeSpec(s: MeshState, h: nat, t: nat, degree: nat): (r: Result<(MeshState, nat), MeshError>)
    requires degree <= 3 && IndexInRange(s)
    ensures r.Err? <==> MinMax(h, t) !in s.pairToEdge && (h >= |s.nodes| || t >= |s.nodes|)
  {
    if MinMax(h, t) !in s.pairToEdge && (h >= |s.nodes| || t >= |s.nodes|) then Err(NodeOutOfRange)
    else Ok(InsertEdge(s, h, t, degree))
  }

  /** EmplaceEdge(h, t) and EmplaceEdge(t, h) do the same thing. */
  lemma EmplaceEdgeOrderFree(s: MeshState, h: nat, t: nat, degree: nat)
    requires degree <= 3 && IndexInRange(s)
    ensures EmplaceEdgeSpec(s, h, t, degree) == EmplaceEdgeSpec(s, t, h, degree)
  {
    assert MinMax(h, t) == MinMax(t, h);
  }

  /**
   * The edge returned carries the ordered pair of {h, t}; the edge count
   * grows by one exactly when the pair is new; earlier edges are untouched;
   * the containers stay consistent.
   */
  lemma InsertEdgeFacts(s: MeshState, h: nat, t: nat, degree: nat)
    requires degree <= 3 && Consistent(s)
    requires MinMax(h, t) in s.pairToEdge || (h < |s.nodes| && t < |s.nodes|)
    ensures var (r, i) := InsertEdge(s, h, t, degree);
            && Consistent(r)
            && KeyOf(r.edges[i]) == MinMax(h, t)
            && r.pairToEdge[MinMax(h, t)] == i
            && |r.edges| == |s.edges| + (if MinMax(h, t) in s.pairToEdge then 0 else 1)
  {
    var k := MinMax(h, t);
    if k !in s.pairToEdge {
      var e := MeshEdge.NewEdge(s.nodes[k.0], s.nodes[k.1], k.0, k.1, degree);
      AppendEdgeConsistent(s, e);
    }
  }

  /** Appending an unlinked edge under a new ordered pair keeps the containers consistent. */
  lemma AppendEdgeConsistent(s: MeshState, e: MeshEdge.Edge)
    requires Consistent(s) && KeyOf(e) !in s.pairToEdge && e.headIndex <= e.tailIndex
    requires e.positive == None && e.negative == None
    ensures Consistent(s.(edges := s.edges + [e], pairToEdge := s.pairToEdge[KeyOf(e) := |s.edges|]))
  {
    var r := s.(edges := s.edges + [e], pairToEdge := s.pairToEdge[KeyOf(e) := |s.edges|]);
    assert |r.pairToEdge| == |s.pairToEdge| + 1;
    AppendedKeysFound(s, e);
    AppendedEdgesIndexed(s, e);
  }

  /** After the append, every map entry still names an edge carrying its key. */
  lemma AppendedKeysFound(s: MeshState, e: MeshEdge.Edge)
    requires Consistent(s) && KeyOf(e) !in s.pairToEdge
    ensures var r := s.(edges := s.edges + [e], pairToEdge := s.pairToEdge[KeyOf(e) := |s.edges|]);
            IndexInRange(r) && forall q :: q in r.pairToEdge ==> KeyOf(r.edges[r.pairToEdge[q]]) == q
  {
    var k := KeyOf(e);
    var r := s.(edges := s.edges + [e], pairToEdge := s.pairToEdge[k := |s.edges|]);
    forall q | q in r.pairToEdge
      ensures r.pairToEdge[q] < |r.edges| && KeyOf(r.edges[r.pairToEdge[q]]) == q
    {
      if q != k {
        assert r.edges[s.pairToEdge[q]] == s.edges[s.pairToEdge[q]];
      }
    }
  }

  /** After the append, every edge is found under its own key, ordered, with sides in range. */
  lemma AppendedEdgesIndexed(s: MeshState, e: MeshEdge.Edge)
    requires Consistent(s) && KeyOf(e) !in s.pairToEdge && e.headIndex <= e.tailIndex
    requires e.positive == None && e.negative == None
    ensures var r := s.(edges := s.edges + [e], pairToEdge := s.pairToEdge[KeyOf(e) := |s.edges|]);
            forall j :: 0 <= j < |r.edges| ==>
              && KeyOf(r.edges[j]) in r.pairToEdge && r.pairToEdge[KeyOf(r.edges[j])] == j
              && r.edges[j].headIndex <= r.edges[j].tailIndex
              && SideIn(r.edges[j].positive, |r.cells|) && SideIn(r.edges[j].negative, |r.cells|)
  {
    var k := KeyOf(e);
    var r := s.(edges := s.edges + [e], pairToEdge := s.pairToEdge[k := |s.edges|]);
    forall j | 0 <= j < |r.edges|
      ensures KeyOf(r.edges[j]) in r.pairToEdge && r.pairToEdge[KeyOf(r.edges[j])] == j
      ensures r.edges[j].headIndex <= r.edges[j].tailIndex
      ensures SideIn(r.edges[j].positive, |r.cells|) && SideIn(r.edges[j].negative, |r.cells|)
    {
      if j < |s.edges| {
        assert r.edges[j] == s.edges[j];
        assert KeyOf(s.edges[j]) != k;
      }
    }
  }

  /** IsClockWise: the cross product (b - a) x (c - a) is negative. */
  predicate IsClockWise(a: Node, b: Node, c: Node) {
    Cross(a.Pos(), b.Pos(), c.Pos()) < 0.0
  }

  /** EmplaceCell's vertex order: a clockwise triple has its first and third vertex swapped. */
  function Orient(a: Node, b: Node, c: Node): (r: (Node, Node, Node))
    ensures Cross(r.0.Pos(), r.1.Pos(), r.2.Pos()) >= 0.0
    ensures !IsClockWise(a, b, c) ==> r == (a, b, c)
    ensures IsClockWise(a, b, c) ==> r == (c, b, a)
  {
    if IsClockWise(a, b, c) then
      CrossSwapFirstThird(a.Pos(), b.Pos(), c.Pos());
      (c, b, a)
    else (a, b, c)
  }

  /**
   * LinkCellToEdge: the cell becomes the positive side of edge e when the
   * traversal h -> t goes up in index, its negative side otherwise; no other
   * edge and no other field changes.
   */
  function Link(s: MeshState, cell: nat, h: nat, t: nat, e: nat): (r: MeshState)
    requires e < |s.edges|
    ensures r.nodes == s.nodes && r.cells == s.cells && r.pairToEdge == s.pairToEdge
    ensures |r.edges| == |s.edges|
    ensures forall i :: 0 <= i < |s.edges| && i != e ==> r.edges[i] == s.edges[i]
    ensures h < t ==> r.edges[e].positive == Some(MeshEdge.Real(cell)) && r.edges[e].negative == s.edges[e].negative
    ensures t <= h ==> r.edges[e].negative == Some(MeshEdge.Real(cell)) && r.edges[e].positive == s.edges[e].positive
    ensures KeyOf(r.edges[e]) == KeyOf(s.edges[e]) && r.edges[e].geo == s.edges[e].geo && r.edges[e].data == s.edges[e].data
  {
    var side := Some(MeshEdge.Real(cell));
    if h < t then s.(edges := s.edges[e := MeshEdge.SetPositiveSide(s.edges[e], side)])
    else s.(edges := s.edges[e := MeshEdge.SetNegativeSide(s.edges[e], side)])
  }

  /**
   * EmplaceCell: every node index must be stored; the (possibly reoriented)
   * triangle is appended with the edges of the input order p0 -> p1,
   * p1 -> p2, p2 -> p0, and linked into each of them.
   */
  function EmplaceCellSpec(s: MeshState, id: nat, p0: nat, p1: nat, p2: nat, degree: nat): (r: Result<MeshState, MeshError>)
    requires degree <= 3 && IndexInRange(s)
    ensures r.Err? <==> !(p0 < |s.nodes| && p1 < |s.nodes| && p2 < |s.nodes|)
    ensures r.Ok? ==> IndexInRange(r.value) && r.value.nodes == s.nodes
    ensures r.Ok? ==> |r.value.cells| == |s.cells| + 1 && r.value.cells[..|s.cells|] == s.cells
    ensures r.Ok? ==>
      var t := r.value.cells[|s.cells|].tri;
      && t.id == id
      && Cross(t.a.Pos(), t.b.Pos(), t.c.Pos()) >= 0.0
      && ((t.a, t.b, t.c) == (s.nodes[p0], s.nodes[p1], s.nodes[p2]) || (t.a, t.b, t.c) == (s.nodes[p2], s.nodes[p1], s.nodes[p0]))
  {
    if !(p0 < |s.nodes| && p1 < |s.nodes| && p2 < |s.nodes|) then Err(NodeOutOfRange)
    else
      var (a, b, c) := Orient(s.nodes[p0], s.nodes[p1], s.nodes[p2]);
      var (s3, ab, bc, ca) := CellEdges(s, p0, p1, p2, degree);
      var n := |s3.cells|;
      var cell := MeshTriangle.NewCell(ElementTriangle.Triangle(id, a, b, c), ab, bc, ca, degree);
      Ok(LinkCell(s3.(cells := s3.cells + [cell]), n, p0, p1, p2, ab, bc, ca))
  }

  /** The edges of the input order p0 -> p1, p1 -> p2, p2 -> p0, emplaced one after another. */
  function CellEdges(s: MeshState, p0: nat, p1: nat, p2: nat, degree: nat): (r: (MeshState, nat, nat, nat))
    requires degree <= 3 && IndexInRange(s)
    requires p0 < |s.nodes| && p1 < |s.nodes| && p2 < |s.nodes|
    ensures IndexInRange(r.0) && r.0.nodes == s.nodes && r.0.cells == s.cells
    ensures |s.edges| <= |r.0.edges| <= |s.edges| + 3
    ensures forall i :: 0 <= i < |s.edges| ==> r.0.edges[i] == s.edges[i]
    ensures forall i :: |s.edges| <= i < |r.0.edges| ==> r.0.edges[i].positive == None && r.0.edges[i].negative == None
    ensures r.1 < |r.0.edges| && r.2 < |r.0.edges| && r.3 < |r.0.edges|
    ensures MinMax(p0, p1) in r.0.pairToEdge && r.0.pairToEdge[MinMax(p0, p1)] == r.1
    ensures MinMax(p1, p2) in r.0.pairToEdge && r.0.pairToEdge[MinMax(p1, p2)] == r.2
    ensures MinMax(p2, p0) in r.0.pairToEdge && r.0.pairToEdge[MinMax(p2, p0)] == r.3
  {
    var (s1, ab) := InsertEdge(s, p0, p1, degree);
    var (s2, bc) := InsertEdge(s1, p1, p2, degree);
    var (s3, ca) := InsertEdge(s2, p2, p0, degree);
    (s3, ab, bc, ca)
  }

  /** LinkCellToEdge for the three edges of cell n, in the order ab, bc, ca. */
  function LinkCell(s: MeshState, n: nat, p0: nat, p1: nat, p2: nat, ab: nat, bc: nat, ca: nat): (r: MeshState)
    requires ab < |s.edges| && bc < |s.edges| && ca < |s.edges|
    ensures r.nodes == s.nodes && r.cells == s.cells && r.pairToEdge == s.pairToEdge && |r.edges| == |s.edges|
  {
    Link(Link(Link(s, n, p0, p1, ab), n, p1, p2, bc), n, p2, p0, ca)
  }

  /** EmplaceCellSpec on stored nodes, with the oriented vertices and the three edges named. */
  lemma EmplaceCellUnfolds(s: MeshState, id: nat, p0: nat, p1: nat, p2: nat, degree: nat, a: Node, b: Node, c: Node)
    requires degree <= 3 && IndexInRange(s) && p0 < |s.nodes| && p1 < |s.nodes| && p2 < |s.nodes|
    requires (a, b, c) == Orient(s.nodes[p0], s.nodes[p1], s.nodes[p2])
    ensures var (s3, ab, bc, ca) := CellEdges(s, p0, p1, p2, degree);
            var cell := MeshTriangle.NewCell(ElementTriangle.Triangle(id, a, b, c), ab, bc, ca, degree);
            EmplaceCellSpec(s, id, p0, p1, p2, degree) == Ok(LinkCell(s3.(cells := s3.cells + [cell]), |s3.cells|, p0, p1, p2, ab, bc, ca))
  {
  }

  /** Linking a stored cell into an edge keeps the containers consistent. */
  lemma LinkConsistent(s: MeshState, cell: nat, h: nat, t: nat, e: nat)
    requires Consistent(s) && e < |s.edges| && cell < |s.cells|
    ensures Consistent(Link(s, cell, h, t, e))
  {
    var r := Link(s, cell, h, t, e);
    forall i | 0 <= i < |r.edges|
      ensures KeyOf(r.edges[i]) == KeyOf(s.edges[i])
      ensures r.edges[i].headIndex <= r.edges[i].tailIndex
      ensures SideIn(r.edges[i].positive, |r.cells|) && SideIn(r.edges[i].negative, |r.cells|)
    {
    }
  }

  /** Appending a cell whose edges are stored keeps the containers consistent. */
  lemma AppendCellConsistent(s: MeshState, c: MeshTriangle.Cell)
    requires Consistent(s) && c.ab < |s.edges| && c.bc < |s.edges| && c.ca < |s.edges|
    ensures Consistent(s.(cells := s.cells + [c]))
  {
    var r := s.(cells := s.cells + [c]);
    forall i | 0 <= i < |r.edges|
      ensures SideIn(r.edges[i].positive, |r.cells|) && SideIn(r.edges[i].negative, |r.cells|)
    {
      assert SideIn(s.edges[i].positive, |s.cells|) && SideIn(s.edges[i].negative, |s.cells|);
    }
  }

  /** Emplacing the three edges keeps the containers consistent. */
  lemma CellEdgesConsistent(s: MeshState, p0: nat, p1: nat, p2: nat, degree: nat)
    requires degree <= 3 && Consistent(s)
    requires p0 < |s.nodes| && p1 < |s.nodes| && p2 < |s.nodes|
    ensures Consistent(CellEdges(s, p0, p1, p2, degree).0)
  {
    var (s1, ab) := InsertEdge(s, p0, p1, degree);
    InsertEdgeFacts(s, p0, p1, degree);
    var (s2, bc) := InsertEdge(s1, p1, p2, degree);
    InsertEdgeFacts(s1, p1, p2, degree);
    InsertEdgeFacts(s2, p2, p0, degree);
  }

  /** Linking a stored cell into three stored edges keeps the containers consistent. */
  lemma LinkCellConsistent(s: MeshState, n: nat, p0: nat, p1: nat, p2: nat, ab: nat, bc: nat, ca: nat)
    requires Consistent(s) && n < |s.cells|
    requires ab < |s.edges| && bc < |s.edges| && ca < |s.edges|
    ensures Consistent(LinkCell(s, n, p0, p1, p2, ab, bc, ca))
  {
    var s5 := Link(s, n, p0, p1, ab);
    LinkConsistent(s, n, p0, p1, ab);
    var s6 := Link(s5, n, p1, p2, bc);
    LinkConsistent(s5, n, p1, p2, bc);
    LinkConsistent(s6, n, p2, p0, ca);
  }

  /**
   * After EmplaceCell the containers are still consistent and the new
   * cell's three edges are the stored edges of the pairs {p0, p1},
   * {p1, p2} and {p2, p0}; at most three edges were added.
   */
  lemma EmplaceCellConsistent(s: MeshState, id: nat, p0: nat, p1: nat, p2: nat, degree: nat)
    requires degree <= 3 && Consistent(s)
    requires p0 < |s.nodes| && p1 < |s.nodes| && p2 < |s.nodes|
    ensures var r := EmplaceCellSpec(s, id, p0, p1, p2, degree).value;
            var c := r.cells[|s.cells|];
            && Consistent(r)
            && r.pairToEdge[MinMax(p0, p1)] == c.ab
            && r.pairToEdge[MinMax(p1, p2)] == c.bc
            && r.pairToEdge[MinMax(p2, p0)] == c.ca
            && |s.edges| <= |r.edges| <= |s.edges| + 3
  {
    var (s3, ab, bc, ca) := CellEdges(s, p0, p1, p2, degree);
    CellEdgesConsistent(s, p0, p1, p2, degree);
    var (a, b, c) := Orient(s.nodes[p0], s.nodes[p1], s.nodes[p2]);
    var cell := MeshTriangle.NewCell(ElementTriangle.Triangle(id, a, b, c), ab, bc, ca, degree);
    var s4 := s3.(cells := s3.cells + [cell]);
    AppendCellConsistent(s3, cell);
    LinkCellConsistent(s4, |s3.cells|, p0, p1, p2, ab, bc, ca);
    assert EmplaceCellSpec(s, id, p0, p1, p2, degree) == Ok(LinkCell(s4, |s3.cells|, p0, p1, p2, ab, bc, ca));
    assert s4.cells[|s.cells|] == cell;
  }

  /** A side of edge e before an operation: an edge not yet stored has none. */
  function SideBefore(s: MeshState, e: nat, positive: bool): Option<MeshEdge.CellRef> {
    if e >= |s.edges| then None
    else if positive then s.edges[e].positive
    else s.edges[e].negative
  }

  /**
   * Edge e of r holds cell n on the side the traversal h -> t selects
   * (positive when it goes up in index) and its other side as it was in s.
   */
  predicate LinkedEdge(s: MeshState, r: MeshState, n: nat, h: nat, t: nat, e: nat) {
    && e < |r.edges|
    && (h < t ==> r.edges[e].positive == Some(MeshEdge.Real(n)) && r.edges[e].negative == SideBefore(s, e, false))
    && (t < h ==> r.edges[e].negative == Some(MeshEdge.Real(n)) && r.edges[e].positive == SideBefore(s, e, true))
  }

  /**
   * Each of three distinct edges receives the cell on the side its traversal
   * direction selects, keeps its other side, and every other edge is unchanged.
   */
  lemma LinkCellSides(s: MeshState, n: nat, p0: nat, p1: nat, p2: nat, ab: nat, bc: nat, ca: nat)
    requires ab < |s.edges| && bc < |s.edges| && ca < |s.edges|
    requires ab != bc && bc != ca && ca != ab
    ensures var r := LinkCell(s, n, p0, p1, p2, ab, bc, ca);
            && (p0 < p1 ==> r.edges[ab].positive == Some(MeshEdge.Real(n)) && r.edges[ab].negative == s.edges[ab].negative)
            && (p1 <= p0 ==> r.edges[ab].negative == Some(MeshEdge.Real(n)) && r.edges[ab].positive == s.edges[ab].positive)
            && (p1 < p2 ==> r.edges[bc].positive == Some(MeshEdge.Real(n)) && r.edges[bc].negative == s.edges[bc].negative)
            && (p2 <= p1 ==> r.edges[bc].negative == Some(MeshEdge.Real(n)) && r.edges[bc].positive == s.edges[bc].positive)
            && (p2 < p0 ==> r.edges[ca].positive == Some(MeshEdge.Real(n)) && r.edges[ca].negative == s.edges[ca].negative)
            && (p0 <= p2 ==> r.edges[ca].negative == Some(MeshEdge.Real(n)) && r.edges[ca].positive == s.edges[ca].positive)
            && (forall i :: 0 <= i < |s.edges| && i != ab && i != bc && i != ca ==> r.edges[i] == s.edges[i])
  {
    var s5 := Link(s, n, p0, p1, ab);
    var s6 := Link(s5, n, p1, p2, bc);
    assert s6.edges[ab] == s5.edges[ab];
  }

  /** Three distinct node indices give three distinct edges. */
  lemma CellEdgesDistinct(s: MeshState, p0: nat, p1: nat, p2: nat, degree: nat)
    requires degree <= 3 && Consistent(s)
    requires p0 < |s.nodes| && p1 < |s.nodes| && p2 < |s.nodes|
    requires p0 != p1 && p1 != p2 && p2 != p0
    ensures var (_, ab, bc, ca) := CellEdges(s, p0, p1, p2, degree);
            ab != bc && bc != ca && ca != ab
  {
    var (s3, ab, bc, ca) := CellEdges(s, p0, p1, p2, degree);
    CellEdgesConsistent(s, p0, p1, p2, degree);
    assert KeyOf(s3.edges[ab]) == MinMax(p0, p1) && KeyOf(s3.edges[bc]) == MinMax(p1, p2);
    assert KeyOf(s3.edges[ca]) == MinMax(p2, p0);
  }

  /**
   * For three distinct node indices, EmplaceCell makes cell n the positive
   * side of each edge whose input traversal goes from the lower to the
   * higher index and the negative side of the others; the other side of
   * each of its edges is what it was (none for a new edge), and no other
   * edge changes.
   */
  lemma EmplaceCellLinks(s: MeshState, id: nat, p0: nat, p1: nat, p2: nat, degree: nat)
    requires degree <= 3 && Consistent(s)
    requires p0 < |s.nodes| && p1 < |s.nodes| && p2 < |s.nodes|
    requires p0 != p1 && p1 != p2 && p2 != p0
    ensures var r := EmplaceCellSpec(s, id, p0, p1, p2, degree).value;
            var c := r.cells[|s.cells|];
            && LinkedEdge(s, r, |s.cells|, p0, p1, c.ab)
            && LinkedEdge(s, r, |s.cells|, p1, p2, c.bc)
            && LinkedEdge(s, r, |s.cells|, p2, p0, c.ca)
            && (forall i :: 0 <= i < |s.edges| && i != c.ab && i != c.bc && i != c.ca ==> r.edges[i] == s.edges[i])
  {
    CellEdgesDistinct(s, p0, p1, p2, degree);
    EmplaceCellLinksOf(s, id, p0, p1, p2, degree);
  }

  /** EmplaceCellLinks, given that the three edges are distinct. */
  lemma EmplaceCellLinksOf(s: MeshState, id: nat, p0: nat, p1: nat, p2: nat, degree: nat)
    requires degree <= 3 && IndexInRange(s)
    requires p0 < |s.nodes| && p1 < |s.nodes| && p2 < |s.nodes|
    requires var (_, ab, bc, ca) := CellEdges(s, p0, p1, p2, degree);
             ab != bc && bc != ca && ca != ab
    ensures var r := EmplaceCellSpec(s, id, p0, p1, p2, degree).value;
            var c := r.cells[|s.cells|];
            && LinkedEdge(s, r, |s.cells|, p0, p1, c.ab)
            && LinkedEdge(s, r, |s.cells|, p1, p2, c.bc)
            && LinkedEdge(s, r, |s.cells|, p2, p0, c.ca)
            && (forall i :: 0 <= i < |s.edges| && i != c.ab && i != c.bc && i != c.ca ==> r.edges[i] == s.edges[i])
  {
    var (s3, ab, bc, ca) := CellEdges(s, p0, p1, p2, degree);
    var (a, b, c) := Orient(s.nodes[p0], s.nodes[p1], s.nodes[p2]);
    var cell := MeshTriangle.NewCell(ElementTriangle.Triangle(id, a, b, c), ab, bc, ca, degree);
    var s4 := s3.(cells := s3.cells + [cell]);
    LinkCellSides(s4, |s3.cells|, p0, p1, p2, ab, bc, ca);
    assert EmplaceCellSpec(s, id, p0, p1, p2, degree) == Ok(LinkCell(s4, |s3.cells|, p0, p1, p2, ab, bc, ca));
    assert s4.cells[|s.cells|] == cell;
    CellEdgesSidesBefore(s, p0, p1, p2, degree, ab);
    CellEdgesSidesBefore(s, p0, p1, p2, degree, bc);
    CellEdgesSidesBefore(s, p0, p1, p2, degree, ca);
  }

  /** The sides of an edge after CellEdges are those it had before (none, for a new edge). */
  lemma CellEdgesSidesBefore(s: MeshState, p0: nat, p1: nat, p2: nat, degree: nat, e: nat)
    requires degree <= 3 && IndexInRange(s)
    requires p0 < |s.nodes| && p1 < |s.nodes| && p2 < |s.nodes|
    requires e < |CellEdges(s, p0, p1, p2, degree).0.edges|
    ensures var s3 := CellEdges(s, p0, p1, p2, degree).0;
      SideBefore(s, e, true) == s3.edges[e].positive && SideBefore(s, e, false) == s3.edges[e].negative
  {
  }

  /** The first triangle (0, 1, 2) of an empty mesh stores the pairs {0, 1}, {1, 2}, {0, 2}, in that order. */
  lemma FirstCellOfSquare(nodes: seq<Node>, degree: nat)
    requires degree <= 3 && |nodes| >= 4
    ensures var s1 := EmplaceCellSpec(MeshState(nodes, [], [], map[]), 0, 0, 1, 2, degree).value;
            && Consistent(s1) && |s1.cells| == 1 && |s1.edges| == 3
            && s1.pairToEdge == map[(0, 1) := 0, (1, 2) := 1, (0, 2) := 2]
            && s1.edges[2].negative == Some(MeshEdge.Real(0))
  {
    var s0 := MeshState(nodes, [], [], map[]);
    assert Consistent(s0);
    FirstCellEdges(nodes, degree);
    EmplaceCellConsistent(s0, 0, 0, 1, 2, degree);
    EmplaceCellLinks(s0, 0, 0, 1, 2, degree);
  }

  /** The edges of (0, 1, 2) on an empty mesh: three new ones, numbered in emplacement order. */
  lemma FirstCellEdges(nodes: seq<Node>, degree: nat)
    requires degree <= 3 && |nodes| >= 4
    ensures var (t3, ab, bc, ca) := CellEdges(MeshState(nodes, [], [], map[]), 0, 1, 2, degree);
            && t3.pairToEdge == map[(0, 1) := 0, (1, 2) := 1, (0, 2) := 2] && |t3.edges| == 3
            && ab == 0 && bc == 1 && ca == 2
  {
    var s0 := MeshState(nodes, [], [], map[]);
    InsertNewPair(s0, 0, 1, degree);
    var t1 := InsertEdge(s0, 0, 1, degree).0;
    InsertNewPair(t1, 1, 2, degree);
    var t2 := InsertEdge(t1, 1, 2, degree).0;
    InsertNewPair(t2, 2, 0, degree);
  }

  /**
   * The second triangle (0, 2, 3) after the first: {0, 2} is found again and
   * only {2, 3} and {0, 3} are added; the diagonal gains the positive side.
   */
  lemma SecondCellOfSquare(s1: MeshState, degree: nat)
    requires degree <= 3 && |s1.nodes| >= 4 && Consistent(s1)
    requires |s1.cells| == 1 && |s1.edges| == 3
    requires s1.pairToEdge == map[(0, 1) := 0, (1, 2) := 1, (0, 2) := 2]
    requires s1.edges[2].negative == Some(MeshEdge.Real(0))
    ensures var s2 := EmplaceCellSpec(s1, 1, 0, 2, 3, degree).value;
            && |s2.cells| == 2 && |s2.edges| == 5 && s2.pairToEdge[(0, 2)] == 2
            && s2.edges[2].positive == Some(MeshEdge.Real(1))
            && s2.edges[2].negative == Some(MeshEdge.Real(0))
  {
    SecondCellEdges(s1, degree);
    EmplaceCellLinks(s1, 1, 0, 2, 3, degree);
    assert SideBefore(s1, 2, false) == Some(MeshEdge.Real(0));
  }

  /** The edges of (0, 2, 3) after the first triangle: {0, 2} is edge 2 again, two edges are new. */
  lemma SecondCellEdges(s1: MeshState, degree: nat)
    requires degree <= 3 && |s1.nodes| >= 4 && Consistent(s1) && |s1.edges| == 3
    requires s1.pairToEdge == map[(0, 1) := 0, (1, 2) := 1, (0, 2) := 2]
    ensures var (t3, ab, _, _) := CellEdges(s1, 0, 2, 3, degree);
            |t3.edges| == 5 && ab == 2 && t3.pairToEdge[(0, 2)] == 2
  {
    assert InsertEdge(s1, 0, 2, degree) == (s1, 2);
    InsertNewPair(s1, 2, 3, degree);
    var u2 := InsertEdge(s1, 2, 3, degree).0;
    assert u2.pairToEdge == map[(0, 1) := 0, (1, 2) := 1, (0, 2) := 2, (2, 3) := 3];
    InsertNewPair(u2, 3, 0, degree);
  }

  /** A pair not yet stored is entered under the next edge number. */
  lemma InsertNewPair(s: MeshState, h: nat, t: nat, degree: nat)
    requires degree <= 3 && IndexInRange(s) && h < |s.nodes| && t < |s.nodes| && MinMax(h, t) !in s.pairToEdge
    ensures var (r, e) := InsertEdge(s, h, t, degree);
            && e == |s.edges| && |r.edges| == |s.edges| + 1
            && r.pairToEdge == s.pairToEdge[MinMax(h, t) := |s.edges|]
  {
  }

  /**
   * Two triangles sharing the diagonal {0, 2} of a square: emplacing
   * (0, 1, 2) and then (0, 2, 3) stores five edges, not six, and the
   * diagonal has the second cell on its positive side and the first cell
   * on its negative side.
   */
  lemma SharedDiagonal(nodes: seq<Node>, degree: nat)
    requires degree <= 3 && |nodes| >= 4
    ensures var s0 := MeshState(nodes, [], [], map[]);
            var s1 := EmplaceCellSpec(s0, 0, 0, 1, 2, degree).value;
            var s2 := EmplaceCellSpec(s1, 1, 0, 2, 3, degree).value;
            && |s2.cells| == 2 && |s2.edges| == 5
            && (0, 2) in s2.pairToEdge && s2.pairToEdge[(0, 2)] < 5
            && s2.edges[s2.pairToEdge[(0, 2)]].positive == Some(MeshEdge.Real(1))
            && s2.edges[s2.pairToEdge[(0, 2)]].negative == Some(MeshEdge.Real(0))
  {
    FirstCellOfSquare(nodes, degree);
    SecondCellOfSquare(EmplaceCellSpec(MeshState(nodes, [], [], map[]), 0, 0, 1, 2, degree).value, degree);
  }

  /** Visits the elements of a container front to back. */
  method Visit<T>(items: seq<T>) returns (visited: seq<T>)
    ensures visited == items
  {
    visited := [];
    var i := 0;
    while i < |items|
      invariant 0 <= i <= |items| && visited == items[..i]
    {
      visited := visited + [items[i]];
      i := i + 1;
    }
  }

  /** The mesh: the containers of dim2.hpp and the edge degree its elements are built with. */
  class Mesh {
    const degree: nat
    var nodes: seq<Node>
    var edges: seq<MeshEdge.Edge>
    var cells: seq<MeshTriangle.Cell>
    var pairToEdge: map<(nat, nat), nat>

    function State(): MeshState
      reads this
    {
      MeshState(nodes, edges, cells, pairToEdge)
    }

    ghost predicate Valid()
      reads this
    {
      degree <= 3 && Consistent(State())
    }

    /** What the specification functions need: a supported degree and map entries in range. */
    predicate Ready()
      reads this
    {
      degree <= 3 && IndexInRange(State())
    }

    constructor (degree: nat)
      requires degree <= 3
      ensures Valid() && this.degree == degree
      ensures State() == MeshState([], [], [], map[])
    {
      this.degree := degree;
      nodes := [];
      edges := [];
      cells := [];
      pairToEdge := map[];
    }

    function CountNodes(): nat
      reads this
    {
      |nodes|
    }

    function CountEdges(): nat
      reads this
    {
      |edges|
    }

    function CountCells(): nat
      reads this
    {
      |cells|
    }

    method ForEachNode() returns (visited: seq<Node>)
      ensures visited == nodes
    {
      visited := Visit(nodes);
    }

    method ForEachEdge() returns (visited: seq<MeshEdge.Edge>)
      ensures visited == edges
    {
      visited := Visit(edges);
    }

    /** Cells are visited in the order they were emplaced. */
    method ForEachCell() returns (visited: seq<MeshTriangle.Cell>)
      ensures visited == cells
    {
      visited := Visit(cells);
    }

    /** EmplaceNode: i may be at most the current count (an insert position of the vector). */
    method EmplaceNode(i: nat, x: real, y: real) returns (node: Node)
      requires Valid() && i <= |nodes|
      modifies this
      ensures Valid() && node == Node(i, x, y)
      ensures nodes == InsertNode(old(nodes), i, x, y)
      ensures edges == old(edges) && cells == old(cells) && pairToEdge == old(pairToEdge)
      ensures CountNodes() == old(CountNodes()) + 1
    {
      node := Node(i, x, y);
      nodes := nodes[..i] + [node] + nodes[i..];
    }

    /**
     * EmplaceEdge: the stored edge of {h, t}, or a new one; fails only when
     * the pair is new and a node index is not stored.
     */
    method EmplaceEdge(h: nat, t: nat) returns (r: Result<nat, MeshError>)
      requires Valid()
      modifies this
      ensures Valid() && CountEdges() == |pairToEdge|
      ensures var spec := EmplaceEdgeSpec(old(State()), h, t, degree);
              && r.Ok? == spec.Ok?
              && (r.Ok? ==> State() == spec.value.0 && r.value == spec.value.1)
              && (r.Err? ==> State() == old(State()))
    {
      if MinMax(h, t) !in pairToEdge && (h >= |nodes| || t >= |nodes|) {
        return Err(NodeOutOfRange);
      }
      InsertEdgeFacts(State(), h, t, degree);
      var e := FindOrAddEdge(h, t);
      r := Ok(e);
    }

    /** The non-failing part of EmplaceEdge: look the pair up, or append a new edge and record it. */
    method FindOrAddEdge(h: nat, t: nat) returns (e: nat)
      requires Ready()
      requires MinMax(h, t) in pairToEdge || (h < |nodes| && t < |nodes|)
      modifies this
      ensures Ready() && (State(), e) == InsertEdge(old(State()), h, t, degree)
    {
      var k := MinMax(h, t);
      if k in pairToEdge {
        return pairToEdge[k];
      }
      var edge := MeshEdge.NewEdge(nodes[k.0], nodes[k.1], k.0, k.1, degree);
      pairToEdge := pairToEdge[k := |edges|];
      edges := edges + [edge];
      e := |edges| - 1;
    }

    /** GetNode: the node at position i, or out of range. */
    function GetNode(i: nat): (r: Result<Node, MeshError>)
      reads this
      ensures r.Ok? <==> i < |nodes|
      ensures r.Ok? ==> r.value == nodes[i]
    {
      if i < |nodes| then Ok(nodes[i]) else Err(NodeOutOfRange)
    }

    method LinkCellToEdge(cell: nat, h: nat, t: nat, e: nat)
      requires e < |edges|
      modifies this
      ensures State() == Link(old(State()), cell, h, t, e)
    {
      if h < t {
        edges := edges[e := MeshEdge.SetPositiveSide(edges[e], Some(MeshEdge.Real(cell)))];
      } else {
        edges := edges[e := MeshEdge.SetNegativeSide(edges[e], Some(MeshEdge.Real(cell)))];
      }
    }

    /** EmplaceCell: returns the position of the new cell in the cell array. */
    method EmplaceCell(id: nat, p0: nat, p1: nat, p2: nat) returns (r: Result<nat, MeshError>)
      requires Valid()
      modifies this
      ensures Valid()
      ensures var spec := EmplaceCellSpec(old(State()), id, p0, p1, p2, degree);
              && r.Ok? == spec.Ok?
              && (r.Ok? ==> State() == spec.value && r.value == old(|cells|))
              && (r.Err? ==> State() == old(State()))
    {
      var a :- GetNode(p0);
      var b :- GetNode(p1);
      var c :- GetNode(p2);
      if IsClockWise(a, b, c) {
        a, c := c, a;
      }
      EmplaceCellConsistent(State(), id, p0, p1, p2, degree);
      var n := AddCell(id, a, b, c, p0, p1, p2);
      r := Ok(n);
    }

    /** The part of EmplaceCell after the vertices are fetched and oriented. */
    method AddCell(id: nat, a: Node, b: Node, c: Node, p0: nat, p1: nat, p2: nat) returns (n: nat)
      requires Ready() && p0 < |nodes| && p1 < |nodes| && p2 < |nodes|
      requires (a, b, c) == Orient(nodes[p0], nodes[p1], nodes[p2])
      modifies this
      ensures Ready() && n == old(|cells|)
      ensures EmplaceCellSpec(old(State()), id, p0, p1, p2, degree) == Ok(State())
    {
      ghost var s := State();
      var ab, bc, ca := AddCellEdges(p0, p1, p2);
      n := |cells|;
      var cell := MeshTriangle.NewCell(ElementTriangle.Triangle(id, a, b, c), ab, bc, ca, degree);
      cells := cells + [cell];
      ghost var s4 := State();
      LinkCellToEdges(n, p0, p1, p2, ab, bc, ca);
      assert State() == LinkCell(s4, n, p0, p1, p2, ab, bc, ca);
      EmplaceCellUnfolds(s, id, p0, p1, p2, degree, a, b, c);
    }

    /** The three EmplaceEdge calls of EmplaceCell, on stored nodes. */
    method AddCellEdges(p0: nat, p1: nat, p2: nat) returns (ab: nat, bc: nat, ca: nat)
      requires Ready() && p0 < |nodes| && p1 < |nodes| && p2 < |nodes|
      modifies this
      ensures Ready() && (State(), ab, bc, ca) == CellEdges(old(State()), p0, p1, p2, degree)
    {
      ab := FindOrAddEdge(p0, p1);
      bc := FindOrAddEdge(p1, p2);
      ca := FindOrAddEdge(p2, p0);
    }

    /** The three LinkCellToEdge calls at the end of EmplaceCell. */
    method LinkCellToEdges(n: nat, p0: nat, p1: nat, p2: nat, ab: nat, bc: nat, ca: nat)
      requires ab < |edges| && bc < |edges| && ca < |edges|
      modifies this
      ensures State() == LinkCell(old(State()), n, p0, p1, p2, ab, bc, ca)
    {
      LinkCellToEdge(n, p0, p1, ab);
      LinkCellToEdge(n, p1, p2, bc);
      LinkCellToEdge(n, p2, p0, ca);
    }

    method Clear()
      requires degree <= 3
      modifies this
      ensures Valid() && State() == MeshState([], [], [], map[])
      ensures CountNodes() == 0 && CountEdges() == 0 && CountCells() == 0
    {
      nodes := [];
      edges := [];
      cells := [];
      pairToEdge := map[];
    }
  }
}
