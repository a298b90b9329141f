# buaaCFD core in Dafny

This project models the core of buaaCFD, a two-dimensional finite-volume CFD
library for unstructured triangular meshes. The modelled core is:

- **Elements** (`element/`):
  - the Gauss rules on a segment;
  - a straight edge with its quadrature points;
  - a triangle with its area, centroid, barycentric map and four-point rule;
  - the polynomial basis of orders 1 to 3 written on a triangle.
- **The mesh** (`mesh/`):
  - the mesh edge, which knows the cell on its positive and negative side;
  - the mesh cell, which knows its three edges;
  - the basis of a mesh cell;
  - the `Mesh` container (`dim2.hpp`). It stores nodes, edges and cells. It finds
    or creates the edge of a node pair, orients each new triangle
    counter-clockwise and links the cell into its edges.
- **The Riemann layer** (`riemann/`):
  - the scalar linear-advection flux;
  - the conservative/primitive tuple algebra of an ideal gas and its converters;
  - the rotated solvers. `Simple` projects an advection speed on an edge
    normal. `RotatedEuler` turns velocities into the normal frame and back.
- **The solver** (`solver/`):
  - the boundary `Manager`. It lists interior and boundary edges and names
    boundary parts. It sews two periodic parts together: it sorts them by edge
    centre and gives each edge a translated ghost copy of the cell across the
    period. It also refreshes the ghosts from their parent cells.
  - the `Rkvr` solver. It preprocesses edge normals, computes upwind fluxes,
    sums them into each cell's right-hand side and advances every cell with
    the three-stage strong-stability-preserving Runge-Kutta scheme. As written, it never asks the manager
    to refresh the ghosts (see Findings).

**How the model works**
- **Indices instead of addresses.** The mesh stores its nodes, edges and cells
  in sequences. A `Cell*` becomes an index: an edge side is `Real(i)` for a
  mesh cell, or `Ghost(j)` for a ghost cell owned by the manager.
- **State.** `Mesh`, `Manager`, `Rkvr` and the two rotated solvers are classes
  whose methods update their fields. Each such method is proved against a
  specification function of the old state (`EmplaceCellSpec`, `SewPairs`,
  `Refresh`, `Step`, ...). The properties are proved about those functions.
- **Numbers.** Coordinates and states are exact reals.
- **Square roots** (edge lengths, distances) are inputs that satisfy their
  defining equation (`Geometry.IsLength`). The solver's methods take one
  length per edge and require each to be that edge's length
  (`Rkvr.LengthsOf`). Distances are stored squared.
- **The solver** is modelled for the `Simple<Linear>` instantiation: a scalar
  advected at a constant velocity.

## Model

| member | source | states |
|---|---|---|
| Gauss.GaussRule | include/buaa/element/gauss.hpp:15-29 | the n-point rule has n points and n weights |
| Gauss.CountPoint | include/buaa/element/gauss.hpp:18-26 | the point count is the length of the point and weight tables |
| Gauss.WeightsSumToTwo | include/buaa/element/gauss.hpp:15-29 | both rules integrate a constant exactly over [-1, 1]: the weights sum to 2 |
| Gauss.PointsSymmetric | include/buaa/element/gauss.hpp:23-29 | the points are symmetric about 0 and mirrored points have equal weights |
| Geometry.CrossSwapFirstThird | include/buaa/mesh/dim2.hpp:97-99 | swapping the first and third vertex negates the orientation cross product, so the swap turns a clockwise triple counter-clockwise |
| Geometry.LengthUnique | include/buaa/element/edge.hpp:36 | a length is determined by its defining equation: the non-negative square root is unique |
| Geometry.LengthSymmetric | include/buaa/element/edge.hpp:36 | an edge has the same length whichever end it is measured from |
| ElementEdge.NumQuadPoints | include/buaa/element/edge.hpp:16 | an edge of degree d has d/2 + 1 quadrature points, 1 or 2 for the supported degrees |
| ElementEdge.Center | include/buaa/element/edge.hpp:37 | the centre is the midpoint of head and tail |
| ElementEdge.LocalToGlobalEnds | include/buaa/element/edge.hpp:52-55 | the reference points -1, 1 and 0 map to head, tail and centre |
| ElementEdge.LocalToGlobalAffine | include/buaa/element/edge.hpp:52-55 | the reference-to-global map is affine along head to tail |
| ElementEdge.BuildQuadPoints | include/buaa/element/edge.hpp:24-28 | quadrature point i is the image of Gauss point i, and there are NumQuadPoints of them |
| ElementEdge.NewEdge | include/buaa/element/edge.hpp:24-31 | the constructor keeps the nodes and degree and builds a well-formed point table |
| ElementEdge.MakeEdge | include/buaa/element/edge.hpp:24-28 | the edge the constructor builds is well formed |
| ElementEdge.Integrate | include/buaa/element/edge.hpp:43-49 | given the edge's length, the integral is the Gauss-weighted sum over the quadrature points times half that length |
| ElementEdge.IntegrateConstant | include/buaa/element/edge.hpp:43-49 | given the edge's length, a constant c integrates to c times that length |
| ElementEdge.TestEdgeLength | test/element/edge.cpp:12-24 | the edge (0.3, 0) to (0, 0.4) has length 0.5 |
| ElementTriangle.MeasureOrientationFree | include/buaa/element/triangle.hpp:74-78 | the area is non-negative and does not depend on vertex orientation |
| ElementTriangle.CenterIsAverage | include/buaa/element/triangle.hpp:25-30 | the centre is the vertex average |
| ElementTriangle.UnitTriangleMeasure | test/element/triangle.cpp:13-27 | the unit right triangle has area one half |
| ElementTriangle.GetNode | include/buaa/element/triangle.hpp:37-48 | indices 0, 1, 2 give vertices A, B, C; every other index is out of range |
| ElementTriangle.GlobalXYReproducesVertices | include/buaa/element/triangle.hpp:51-55 | the barycentric map sends the unit weights to the vertices and equal weights to the centroid |
| ElementTriangle.Integrate | include/buaa/element/triangle.hpp:57-63 | the accumulator plus the weighted sum over the four points, all times the area |
| ElementTriangle.WeightsSum | include/buaa/element/triangle.hpp:80-86 | the four weights as written sum to 0.9999999999999998, not 1 |
| ElementTriangle.IntegrateConstant | include/buaa/element/triangle.hpp:57-63 | a constant c integrates to c times the area times that weight sum |
| ElementTriangle.QuadSumShift | include/buaa/element/triangle.hpp:57-63 | shifting the integrand by c shifts the weighted sum by c times the weights used |
| ElementTriangle.Factorial | include/buaa/element/triangle.hpp:68-72 | the loop computes p! (1 for p <= 0) |
| ElementTriangle.FactBound | include/buaa/element/triangle.hpp:68-72 | for p <= 12 every product the loop forms fits in a 32-bit signed int |
| ElementTriangle.GetDelta | include/buaa/element/triangle.hpp:132-135 | the result is positive and is 2 over the extent of the three coordinates |
| ElementTriangle.PositiveAreaHasExtent | include/buaa/element/triangle.hpp:103-107 | a triangle of positive area has positive x and y extents, so both GetDelta calls are defined |
| ElementTriangle.FlatHasNoArea | include/buaa/element/triangle.hpp:74-78 | three points on one horizontal or one vertical line span no area |
| Basis.CountCoefficients | include/buaa/mesh/basis.hpp:24-27 | orders 1, 2 and 3 have 2, 5 and 9 basis functions |
| Basis.CountCoefficientsStep | include/buaa/mesh/basis.hpp:56-64 | going up one order adds order + 2 functions |
| Basis.PowerDerivativeTable | include/buaa/mesh/basis.hpp:108-130 | the general power-rule derivative in closed form for the exponents the basis uses |
| Basis.SourceDerivativeCorrect | include/buaa/mesh/basis.hpp:35-38 | every hand-written derivative F_k_i_j equals the (i, j)-th partial derivative of basis k (orders 1 to 3: basis.hpp:69-80 and 108-130; triangle.hpp:113-119, 167-187 and 235-273) |
| Basis.SourceNormalCorrect | include/buaa/element/triangle.hpp:235-273 | every hand-written normal derivative F_k_N_m equals the m-th directional derivative of basis k along n |
| Basis.RefNormalBeyondOrder | include/buaa/element/triangle.hpp:280-295 | directional derivatives above a basis function's order vanish |
| Basis.SourceValueCorrect | include/buaa/mesh/basis.hpp:69-80 | F_k_0_0 is the scaled monomial minus its stored cell average |
| Basis.ValueAtCenter | include/buaa/mesh/basis.hpp:35-38 | at the cell centre every basis function equals minus its average (0 for the linear ones) |
| Basis.Functions | include/buaa/element/triangle.hpp:274-279 | the values of the first CountCoefficients(degree) basis functions, each the monomial minus its average |
| Basis.GetFuncTable | include/buaa/element/triangle.hpp:280-295 | row k holds basis k's value and its normal derivatives of orders 1 to degree; entries above basis k's order are 0 |
| Basis.SameFrameSameIntegral | include/buaa/mesh/basis.hpp:92-102 | the monomials depend only on centre and scales, so their averages can be computed before they are stored |
| Basis.CellAverage | include/buaa/mesh/basis.hpp:56-64 | the stored average is the four-point weighted sum of the monomial |
| Basis.NewBasis | include/buaa/mesh/basis.hpp:92-102 | the constructor stores the centroid, GetDelta of the vertex extents, and the cell averages of the second- and third-order monomials |
| Basis.BasisMeanNearZero | include/buaa/mesh/basis.hpp:92-102 | each stored average is the monomial's quadrature mean, and the basis function's quadrature mean is off zero only by the weight defect |
| Basis.TestCellGeometry | test/mesh/basis.cpp:17-27 | the test cell (0,0), (1,0), (0,2) has area 1 and centre (1/3, 2/3) |
| Basis.TestCellScales | test/mesh/basis.cpp:28-29 | its inverse half-extents are 2 and 1 |
| Basis.TestCellConstantDerivatives | test/mesh/basis.cpp:32-35 | with those scales, the constant derivatives of the nine functions are 2, 1, 8, 2, 2, 48, 8, 4, 6 |
| Basis.MeshBasisDegree | include/buaa/mesh/basis.hpp:28 | mesh::Basis reports degree 1 for every order |
| MeshEdge.NewEdge | include/buaa/mesh/edge.hpp:39-40 | a new mesh edge keeps its nodes, degree and node indices, has no cell on either side, and leaves its own quad_points_ unwritten |
| MeshEdge.Unfilled | include/buaa/mesh/edge.hpp:62 | the mesh edge's own array holds CountQuadPoints unwritten points |
| MeshEdge.SetPositiveSide | include/buaa/mesh/edge.hpp:48 | only the positive side changes |
| MeshEdge.SetNegativeSide | include/buaa/mesh/edge.hpp:49 | only the negative side changes |
| MeshEdge.SettersCommute | include/buaa/mesh/edge.hpp:48-49 | the two setters commute |
| MeshEdge.CountCoefficients | include/buaa/mesh/edge.hpp:28 | the edge's coefficient count is the basis count: 2, 5, 9 |
| MeshEdge.CountQuadPoints | include/buaa/mesh/edge.hpp:29 | the quadrature point count is 1, 2, 2 for orders 1, 2, 3, the element edge's count |
| MeshEdge.ForEachQuadPoint | include/buaa/mesh/edge.hpp:56-59 | visits the mesh edge's own quad_points_ in array order, CountQuadPoints of them |
| MeshEdge.UnfilledQuadPoints | include/buaa/mesh/edge.hpp:39-40 | on a new edge those points do not depend on the end nodes, so for one of two edges with different centres they are not its quadrature points |
| MeshEdge.ForEachBaseQuadPoint | include/buaa/element/edge.hpp:38-41 | the intended visit: point i is the image of Gauss point i on the edge, CountQuadPoints of them |
| MeshTriangle.Zeros | include/buaa/mesh/triangle.hpp:41-43 | a zero vector of the requested length |
| MeshTriangle.NewCell | include/buaa/mesh/triangle.hpp:41-43 | the cell keeps its triangle and edges ab, bc, ca, and sizes a_matrix and b_vector by the coefficient count; their values, and the data's, are indeterminate in the source and zero in the model |
| MeshTriangle.Degree | include/buaa/mesh/triangle.hpp:45 | the cell reports its template degree, which differs from mesh::Basis for orders 2 and 3 |
| MeshTriangle.CountCoefficients | include/buaa/mesh/triangle.hpp:46 | the same count as the edge and the basis |
| MeshTriangle.ForEachEdge | include/buaa/mesh/triangle.hpp:50 | visits the constructor edges in the order ab, bc, ca |
| RiemannLinear.UpwindFlux | include/buaa/riemann/linear.hpp:12-20 | the two-state flux is the single-state flux of the upwind side, and is zero at zero speed |
| RiemannLinear.FluxConsistent | include/buaa/riemann/linear.hpp:12-20 | with equal states the two-state flux is the physical flux |
| RiemannLinear.FluxMirror | include/buaa/riemann/linear.hpp:12-16 | swapping the sides and reversing the speed negates the flux |
| RiemannTypes.Equal | include/buaa/riemann/types.hpp:63-66 | two tuples compare equal exactly when they are the same tuple |
| RiemannTypes.SubUndoesAdd | include/buaa/riemann/types.hpp:38-61 | subtracting b undoes adding b |
| RiemannTypes.DivUndoesScale | include/buaa/riemann/types.hpp:38-71 | dividing by s undoes scaling by s |
| RiemannTypes.AddScaledCopy | test/riemann/types.cpp:26-31 | x plus x times s is x times 1 + s; the test's case is s = 2 |
| RiemannTypes.TupleVar.constructor | include/buaa/riemann/types.hpp:38-61 | a tuple variable holds the tuple it was built from |
| RiemannTypes.TupleVar.AddAssign | include/buaa/riemann/types.hpp:38-61 | += replaces the value with the componentwise sum |
| RiemannTypes.TupleVar.SubAssign | include/buaa/riemann/types.hpp:38-61 | -= replaces the value with the componentwise difference |
| RiemannTypes.TupleVar.ScaleAssign | include/buaa/riemann/types.hpp:38-61 | *= scales every component |
| RiemannTypes.TupleVar.DivAssign | include/buaa/riemann/types.hpp:38-61 | /= divides every component |
| RiemannTypes.TupleVar.ToPrimitive | include/buaa/riemann/types.hpp:151-170 | the in-place conversion leaves the value-returning conversion's result |
| RiemannTypes.TupleVar.ToConservative | include/buaa/riemann/types.hpp:179-188 | the in-place conversion leaves the value-returning conversion's result |
| RiemannTypes.GasConstants | include/buaa/riemann/types.hpp:113-144 | the derived constants are those of gamma = 1.4 and agree with one another |
| RiemannTypes.ConservativeToPrimitive | include/buaa/riemann/types.hpp:151-177 | fails exactly for negative density or a pressure at or below -1e-4; otherwise keeps density, divides momentum by density, and clamps the pressure at 0, so a pressure in (-1e-4, 0) becomes exactly 0; zero density gives the zero state |
| RiemannTypes.PrimitiveToConservative | include/buaa/riemann/types.hpp:179-195 | keeps the density |
| RiemannTypes.PrimitiveRoundTrip | include/buaa/riemann/types.hpp:151-195 | for positive density and non-negative pressure, conservative then primitive gives back the primitive state |
| RiemannTypes.ConservativeRoundTrip | include/buaa/riemann/types.hpp:151-195 | for positive density and non-negative recovered pressure, primitive then conservative gives back the conservative state |
| RiemannTypes.TestConverters | test/riemann/types.cpp:14-20 | (0.1, 0.2, -0.2, 0.3) converts to (0.1, 0.02, -0.02, 0.754) |
| RiemannRotated.Simple.constructor | include/buaa/riemann/rotated.hpp:42 | a fresh solver has speed 0 |
| RiemannRotated.Simple.Rotate | include/buaa/riemann/rotated.hpp:21-28 | the stored speed is the global coefficient projected on the normal |
| RiemannRotated.Simple.GetFluxOnTimeAxis | include/buaa/riemann/rotated.hpp:29-32 | the upwind flux at the stored normal speed |
| RiemannRotated.Simple.GetFluxOnSolidWall | include/buaa/riemann/rotated.hpp:33-35 | a solid wall passes no flux |
| RiemannRotated.Simple.GetFluxOnFreeWall | include/buaa/riemann/rotated.hpp:36-38 | the flux of the state on both sides |
| RiemannRotated.NormalSpeedOdd | include/buaa/riemann/rotated.hpp:24-28 | reversing the normal reverses the speed |
| RiemannRotated.GlobalToNormal | include/buaa/riemann/rotated.hpp:90-101 | the result holds the components of v along n and along t = (-n1, n0) |
| RiemannRotated.NormalToGlobal | include/buaa/riemann/rotated.hpp:102-107 | the result is vn n + vt t |
| RiemannRotated.RotationRoundTrip | include/buaa/riemann/rotated.hpp:90-107 | for a unit normal the two rotations are inverse to each other, in both orders |
| RiemannRotated.TestVectorConverter | test/riemann/rotated.cpp:19-28 | n = (0.6, 0.8) sends (3, 4) to (5, 0) and back |
| RiemannRotated.RotatedEuler.constructor | include/buaa/riemann/rotated.hpp:48-63 | a fresh solver has a zero normal |
| RiemannRotated.RotatedEuler.Rotate | include/buaa/riemann/rotated.hpp:60-63 | stores (n1, n2) as the normal |
| RiemannRotated.RotatedEuler.RotateVector | include/buaa/riemann/rotated.hpp:59 | stores the vector as the normal |
| RiemannRotated.RotatedEuler.GetFluxOnSolidWall | include/buaa/riemann/rotated.hpp:76-82 | fails exactly when the conversion fails; otherwise the mass and energy fluxes are zero and the momentum flux is the pressure along the normal |
| MeshDim2.MinMax | include/buaa/mesh/dim2.hpp:76-77 | the ordered pair of the two indices |
| MeshDim2.InsertNode | include/buaa/mesh/dim2.hpp:69-74 | the node is inserted at position i and later nodes move up by one |
| MeshDim2.InsertNodeInOrder | include/buaa/mesh/dim2.hpp:69-74 | emplacing nodes in index order keeps node k at position k |
| MeshDim2.InsertEdge | include/buaa/mesh/dim2.hpp:75-90 | a stored pair returns its edge unchanged; a new pair appends one side-less edge and records it; nothing else changes |
| MeshDim2.EmplaceEdgeSpec | include/buaa/mesh/dim2.hpp:75-90 | fails exactly when the pair is new and a node index is not stored |
| MeshDim2.EmplaceEdgeOrderFree | include/buaa/mesh/dim2.hpp:76-77 | EmplaceEdge(h, t) and EmplaceEdge(t, h) are the same operation |
| MeshDim2.InsertEdgeFacts | include/buaa/mesh/dim2.hpp:75-90 | the edge count equals the map size afterwards, and the returned edge carries the ordered pair |
| MeshDim2.AppendEdgeConsistent | include/buaa/mesh/dim2.hpp:82-87 | appending a side-less edge under a new pair keeps every edge findable under its own key |
| MeshDim2.Orient | include/buaa/mesh/dim2.hpp:97-99 | a clockwise triple has its first and third vertices swapped; the result is never clockwise |
| MeshDim2.Link | include/buaa/mesh/dim2.hpp:121-128 | the cell becomes the positive side when head < tail, the negative side otherwise; nothing else changes |
| MeshDim2.EmplaceCellSpec | include/buaa/mesh/dim2.hpp:92-111 | fails exactly on an unstored vertex index; otherwise appends one cell with the oriented vertices and links it into its three edges |
| MeshDim2.CellEdges | include/buaa/mesh/dim2.hpp:100-102 | the three edges of the input order are found or added, with no other change |
| MeshDim2.LinkCell | include/buaa/mesh/dim2.hpp:107-109 | linking changes only edge sides |
| MeshDim2.EmplaceCellConsistent | include/buaa/mesh/dim2.hpp:92-111 | EmplaceCell keeps the containers consistent: map and edges agree, and every side names a stored cell |
| MeshDim2.EmplaceCellLinks | include/buaa/mesh/dim2.hpp:107-109 | on three distinct vertices, each edge of the new cell has the cell on the side given by its input direction |
| MeshDim2.FirstCellOfSquare | test/mesh/dim2.cpp:87-105 | the first triangle of the test square stores three edges under pairs {0,1}, {1,2}, {0,2} |
| MeshDim2.SecondCellOfSquare | test/mesh/dim2.cpp:105-108 | the second triangle reuses edge {0,2} and puts itself on that edge's other side |
| MeshDim2.SharedDiagonal | test/mesh/dim2.cpp:87-108 | two triangles of the square leave 5 edges, the diagonal two-sided |
| MeshDim2.Visit | include/buaa/mesh/dim2.hpp:56-67 | visits a container front to back |
| MeshDim2.Mesh.constructor | include/buaa/mesh/dim2.hpp:47 | an empty mesh is consistent |
| MeshDim2.Mesh.ForEachNode | include/buaa/mesh/dim2.hpp:56-59 | visits the nodes in order |
| MeshDim2.Mesh.ForEachEdge | include/buaa/mesh/dim2.hpp:60-63 | visits the edges in order |
| MeshDim2.Mesh.ForEachCell | include/buaa/mesh/dim2.hpp:64-67 | visits the cells in order |
| MeshDim2.Mesh.EmplaceNode | include/buaa/mesh/dim2.hpp:69-74 | inserts the node at i, keeps the mesh consistent, and grows the node count by one |
| MeshDim2.Mesh.EmplaceEdge | include/buaa/mesh/dim2.hpp:75-90 | the new state is EmplaceEdgeSpec's; edge count equals map size |
| MeshDim2.Mesh.FindOrAddEdge | include/buaa/mesh/dim2.hpp:77-88 | the new state and edge are InsertEdge's |
| MeshDim2.Mesh.GetNode | include/buaa/mesh/dim2.hpp:91 | the node at i, or out of range exactly when i is not stored |
| MeshDim2.Mesh.LinkCellToEdge | include/buaa/mesh/dim2.hpp:121-128 | the new state is Link's |
| MeshDim2.Mesh.EmplaceCell | include/buaa/mesh/dim2.hpp:92-111 | the new state is EmplaceCellSpec's, and the mesh stays consistent |
| MeshDim2.Mesh.AddCell | include/buaa/mesh/dim2.hpp:100-110 | the steps after orientation produce EmplaceCellSpec's state |
| MeshDim2.Mesh.AddCellEdges | include/buaa/mesh/dim2.hpp:100-102 | the three EmplaceEdge calls produce CellEdges' state |
| MeshDim2.Mesh.LinkCellToEdges | include/buaa/mesh/dim2.hpp:107-109 | the three links produce LinkCell's state |
| MeshDim2.Mesh.Clear | include/buaa/mesh/dim2.hpp:112-117 | all four containers are empty |
| Boundary.MoveNode | include/buaa/solver/boundary.hpp:134-136 | a node translated by v keeps its index |
| Boundary.MoveCell | include/buaa/solver/boundary.hpp:133-141 | the ghost keeps the cell's id, its centre moves by v and its area is unchanged |
| Boundary.SetDistance | include/buaa/solver/boundary.hpp:130-131 | records the squared distance between the centres of the edge's two sides, changing nothing else |
| Boundary.Sew | include/buaa/solver/boundary.hpp:99-132 | appends the ghost of a's cell, then of b's; gives each edge the other's ghost on its empty side; records both distances |
| Boundary.SewSides | include/buaa/solver/boundary.hpp:126-129 | after sewing both edges are two-sided and every side still refers to a cell or ghost |
| Boundary.AttachBoth | include/buaa/solver/boundary.hpp:126-129 | each edge's empty side gets the other edge's ghost |
| Boundary.SewGhosts | include/buaa/solver/boundary.hpp:108-125 | each new ghost's parent is the present side of its edge and comes before it |
| Boundary.InsertKeepsSorted | include/buaa/solver/boundary.hpp:84-94 | inserting before the first larger centre keeps a part sorted |
| Boundary.SortByCenter | include/buaa/solver/boundary.hpp:84-94 | the result is a permutation of the part, ordered by centre y, then x |
| Boundary.AttachedPermutation | include/buaa/solver/boundary.hpp:93-94 | sorting keeps every edge of the part attached to a cell |
| Boundary.SortedKeepsOrder | include/buaa/solver/boundary.hpp:95-97 | sewing moves no edge, so a sorted part stays sorted |
| Boundary.SewEdges | include/buaa/solver/boundary.hpp:99-132 | the step-by-step body computes Sew |
| Boundary.SewStep | include/buaa/solver/boundary.hpp:99-132 | sewing appends two ghosts, keeps the old ones, makes both edges two-sided, and alters no edge geometry or key |
| Boundary.SewPairs | include/buaa/solver/boundary.hpp:95-97 | sewing every pair adds two ghosts per pair and keeps every side in range |
| Boundary.SewPairsTwoSided | include/buaa/solver/boundary.hpp:95-97 | after the loop every edge of both parts is two-sided |
| Boundary.SewPairsParents | include/buaa/solver/boundary.hpp:95-97 | after the loop every ghost's parent still comes before it |
| Boundary.SewKeepsMesh | include/buaa/solver/boundary.hpp:99-132 | sewing keeps the mesh containers consistent |
| Boundary.CheckCountsOnly | include/buaa/solver/boundary.hpp:142-148 | a part listing one boundary edge twice passes the check while another boundary edge is in no part |
| Boundary.Select | include/buaa/solver/boundary.hpp:34-38 | the accepted edges are a sub-list of the boundary list |
| Boundary.AppendAccepted | include/buaa/solver/boundary.hpp:34-38 | appends the accepted boundary edges, in list order |
| Boundary.SelectCounts | include/buaa/solver/boundary.hpp:34-38 | each accepted edge is kept as often as it is listed; no other edge is kept |
| Boundary.Refresh | include/buaa/solver/boundary.hpp:67-71 | the refresh changes only ghost data, and ghosts not yet reached keep theirs |
| Boundary.RefreshAll | include/buaa/solver/boundary.hpp:67-71 | the loop computes Refresh over all ghosts |
| Boundary.RefreshCopiesParents | include/buaa/solver/boundary.hpp:67-71 | since parents come first, every refreshed ghost holds exactly its parent's data |
| Boundary.Root | include/buaa/solver/boundary.hpp:108-125 | following parents from any side ends at a mesh cell |
| Boundary.RefreshSeesRoot | include/buaa/solver/boundary.hpp:67-71 | after the refresh every side holds the data of the mesh cell it stands for |
| Boundary.Refreshed | include/buaa/solver/boundary.hpp:67-71 | the refreshed ghosts in closed form |
| Boundary.RefreshIsRefreshed | include/buaa/solver/boundary.hpp:67-71 | the in-order loop equals the closed form |
| Boundary.PeriodicEdges | include/buaa/solver/boundary.hpp:60-66 | the walk ends in out-of-range exactly when some right part is shorter than its left part; without the error it visits every pair of every part pair in order |
| Boundary.StopsAtFirstShort | include/buaa/solver/boundary.hpp:60-66 | at the first short part pair, the visits made before the throw are all pairs of the part pairs before it and the first pairs of it, as many as the right part holds |
| Boundary.ShortRightPartVisits | include/buaa/solver/boundary.hpp:60-66 | parts [1, 2, 3] and [4, 5] visit (1, 4) and (2, 5), then throw |
| Boundary.Manager.constructor | include/buaa/solver/boundary.hpp:22 | all lists and maps start empty |
| Boundary.Manager.AddInteriorEdge | include/buaa/solver/boundary.hpp:24-26 | appends to the interior list only |
| Boundary.Manager.AddBoundaryEdge | include/buaa/solver/boundary.hpp:27-29 | appends to the boundary list only |
| Boundary.Manager.SetBoundaryName | include/buaa/solver/boundary.hpp:31-39 | appends the accepted boundary edges to the named part, extending an existing part rather than replacing it |
| Boundary.Manager.CheckBoundaryConditions | include/buaa/solver/boundary.hpp:142-148 | true exactly when the parts' sizes add up to the number of boundary edges |
| Boundary.Manager.ClearBoundaryCondition | include/buaa/solver/boundary.hpp:45-51 | empties the boundary list when the check holds; otherwise a length error and no change |
| Boundary.Manager.ForEachInteriorEdge | include/buaa/solver/boundary.hpp:54-58 | visits the interior edges in insertion order |
| Boundary.Manager.ForEachPeriodicEdge | include/buaa/solver/boundary.hpp:60-66 | visits PeriodicEdges' pairs, and reports its error after the visits made before the throw |
| Boundary.Manager.UpdatePeriodCells | include/buaa/solver/boundary.hpp:67-71 | every ghost ends up holding its parent's data; nothing else changes |
| Boundary.Manager.SewMatchingEdges | include/buaa/solver/boundary.hpp:99-132 | mesh edges and ghosts become Sew's result; nodes, cells and map are unchanged |
| Boundary.Manager.SewParts | include/buaa/solver/boundary.hpp:95-97 | the loop's result is SewPairs over the two parts |
| Boundary.Manager.SortPart | include/buaa/solver/boundary.hpp:93-94 | the named part becomes a centre-sorted permutation of itself |
| Boundary.Manager.SortAndSew | include/buaa/solver/boundary.hpp:82-98 | both parts are sorted permutations and the mesh is SewPairs of them |
| Boundary.Manager.SetPeriodicBoundary | include/buaa/solver/boundary.hpp:40-44 | records the pair, sorts and sews the parts, and keeps the manager valid |
| Rkvr.NormalIsUnit | include/buaa/solver/rkvr.hpp:93-95 | the normal built from an edge and its length is a unit vector |
| Rkvr.Prepared | include/buaa/solver/rkvr.hpp:92-105 | the edge gets the normal speed of its rotated solver and, when two-sided, the squared distance between the side centres; nothing else changes |
| Rkvr.PartitionMembers | include/buaa/solver/rkvr.hpp:97-104 | the interior list holds exactly the two-sided edges; the boundary list holds the others |
| Rkvr.PartitionOrdered | include/buaa/solver/rkvr.hpp:92-105 | both lists are in mesh order, without repeats |
| Rkvr.PartitionSizes | include/buaa/solver/rkvr.hpp:97-104 | every edge goes into exactly one of the two lists |
| Rkvr.EdgeFlux | include/buaa/solver/rkvr.hpp:132-138 | the flux is the upwind flux between the sides' stage values, times the edge length |
| Rkvr.WithFluxes | include/buaa/solver/rkvr.hpp:129-140 | every edge gets its EdgeFlux; nothing else changes |
| Rkvr.SumTermsPermutation | include/buaa/solver/rkvr.hpp:142-152 | a sum of incidence terms does not depend on their order |
| Rkvr.TotalRhsIsSum | include/buaa/solver/rkvr.hpp:142-152 | the sum of all cells' right-hand sides is the sum over all cell-edge incidences |
| Rkvr.EdgeSumsCancel | include/buaa/solver/rkvr.hpp:145-149 | each interior edge is subtracted by its positive cell and added by its negative cell |
| Rkvr.Conservation | include/buaa/solver/rkvr.hpp:142-152 | on a closed mesh the right-hand sides sum to zero |
| Rkvr.AdvanceCell | include/buaa/solver/rkvr.hpp:109-127 | one stage's update of a cell is Advance |
| Rkvr.AdvanceWritesOneSlot | include/buaa/solver/rkvr.hpp:109-127 | stages 0, 1, 2 write u1, u2, u0 respectively |
| Rkvr.SteadyCell | include/buaa/solver/rkvr.hpp:107-128 | with zero right-hand sides all three stages reproduce u0 |
| Rkvr.ConstantForcing | include/buaa/solver/rkvr.hpp:107-128 | a constant right-hand side r advances u0 by r dt / area, as an exact integrator would |
| Rkvr.StagesStayInBounds | include/buaa/solver/rkvr.hpp:117-126 | if each Euler substep stays within [lo, hi], so does the convex combination |
| Rkvr.ShuOsherForm | include/buaa/solver/rkvr.hpp:117-126 | each stage is a convex combination of u0 and an Euler step |
| Rkvr.Advanced | include/buaa/solver/rkvr.hpp:109-127 | a stage changes only cell data |
| Rkvr.AdvancedMass | include/buaa/solver/rkvr.hpp:109-127 | the area-weighted mass after a stage is the stage's combination of the masses and the total right-hand side |
| Rkvr.AdvancedMassKept | include/buaa/solver/rkvr.hpp:109-127 | a stage leaves the masses of the slots it does not write unchanged |
| Rkvr.Phase | include/buaa/solver/rkvr.hpp:107-140 | a stage changes only data; without a refresh the ghosts stay as they are |
| Rkvr.Step | include/buaa/solver/rkvr.hpp:107-128 | a step keeps the sizes and the steppable shape of the state |
| Rkvr.LengthsKept | include/buaa/solver/rkvr.hpp:107-140 | a stage never moves an edge, so the given lengths stay the lengths of the edges |
| Rkvr.PhaseMass | include/buaa/solver/rkvr.hpp:107-128 | on a closed mesh each stage's mass is its combination of the previous masses |
| Rkvr.StepConservesMass | include/buaa/solver/rkvr.hpp:107-128 | on a closed mesh one step conserves the area-weighted total of u0 |
| Rkvr.RefreshedFluxSeesRoots | include/buaa/solver/boundary.hpp:67-71 | after refreshing, a periodic edge's flux is the flux between the mesh cells its sides stand for |
| Rkvr.StaleExampleLengths | include/buaa/element/edge.hpp:36 | the example's edge from (0, 0) to (1, 0) has length 1, so the example's lengths are its edges' true lengths |
| Rkvr.StaleGhostFlux | include/buaa/solver/rkvr.hpp:107-140 | without the refresh, the example's periodic edge carries minus the ghost's unwritten value, whatever it is, instead of -1 |
| Rkvr.PreparedAll | include/buaa/solver/rkvr.hpp:91-106 | preprocessing keeps sides in range and keeps which edges are two-sided |
| Rkvr.Steps | include/buaa/solver/rkvr.hpp:72-80 | n steps keep the sizes and the steppable shape of the state; without the refresh the ghosts never change |
| Rkvr.TracedConservesMass | include/buaa/solver/rkvr.hpp:72-80 | every run of steps on a closed mesh conserves mass |
| Rkvr.LastStepStops | include/buaa/solver/rkvr.hpp:72-80 | the loop stops after nSteps, or after the first due frame that fails to be written |
| Rkvr.AllWrittenTakesAll | include/buaa/solver/rkvr.hpp:72-80 | when every frame is written, all nSteps steps run |
| Rkvr.Rkvr.ReadMesh | include/buaa/solver/rkvr.hpp:31-40 | given each edge's true length, a read mesh is preprocessed: every edge gets the speed along its unit normal, and the edges are split into interior and boundary lists |
| Rkvr.Rkvr.SetTimeSteps | include/buaa/solver/rkvr.hpp:46-51 | stores the parameters; step size times step count is the duration |
| Rkvr.Rkvr.Preprocess | include/buaa/solver/rkvr.hpp:91-106 | given each edge's true length, edges become PreparedAll's (speed along the unit normal, centre distance when two-sided), and the manager's lists grow by the two-sided and the other edges |
| Rkvr.Rkvr.GetFluxOnEachEdge | include/buaa/solver/rkvr.hpp:129-140 | given each edge's true length, edges become WithFluxes': the upwind flux times that length |
| Rkvr.Rkvr.GetRHS | include/buaa/solver/rkvr.hpp:142-152 | minus the flux of edges the cell is the positive side of, plus the others |
| Rkvr.Rkvr.AdvanceCells | include/buaa/solver/rkvr.hpp:109-127 | cells become Advanced's |
| Rkvr.Rkvr.Stage | include/buaa/solver/rkvr.hpp:108-113 | the state becomes Phase's without a refresh: the ghosts are untouched, and the lengths stay those of the edges |
| Rkvr.Rkvr.RungeKutta3Stepper | include/buaa/solver/rkvr.hpp:107-128 | the state becomes Step's without a refresh, as written |
| Rkvr.Rkvr.RefreshedStage | include/buaa/solver/boundary.hpp:67-71 | the corrected stage: the state becomes Phase's with the ghosts refreshed first |
| Rkvr.Rkvr.RefreshedRungeKutta3Stepper | include/buaa/solver/rkvr.hpp:107-128 | the corrected stepper: the state becomes Step's with the ghosts refreshed before every stage |
| Rkvr.Rkvr.Calculate | include/buaa/solver/rkvr.hpp:64-81 | fails exactly when the boundary check fails, and then changes nothing, whatever the mesh (only a mesh that passes the check must be steppable); otherwise clears the boundary list, runs StepsTaken of the source's unrefreshed steps, and conserves mass on a closed mesh; the ghosts never change |

## Left out

- Input and output are not modelled. That covers the VTK reader's file parsing, the writer (`WriteCurrentFrame`), `printf` progress lines and
  output directory names. `ReadMesh` is modelled after a successful read, and whether frame i is written is the parameter
  `written(i)`.
- Square roots are not computed. These are edge lengths, `GetSpeedOfSound`, and the `norm()` of centre distances. Lengths are
  inputs that satisfy their defining equation, and distances are kept squared.
- Floating point is not modelled: all arithmetic is exact over the reals. Rounding is not modelled, apart from the literal weights of the
  four-point rule.
- `RiemannRotated.RotatedEuler`: `GetFluxOnTimeAxis` and `GetFluxOnFreeWall` are left out. Both call the AUSM solver
  (`riemann/ausm.hpp`), which is not part of this model.
- `InitializeVrMatrix` and `UpdataCoefficients` are left out. The first has an empty body and the second is commented out at its
  only call site, so neither changes the solver state.
- `SetInitialState`, `SetOutputDir` and the solver's forwarding `SetBoundaryName`/`SetPeriodicBoundary` are left out. They
  only store a value or forward to the manager operations that are modelled.
- `SetNodesNum`, `SetEdgesNum`, `SetCellsNum` and `Dim()` are left out. The first three only reserve capacity and `Dim()` is a
  constant, so there is nothing to state.
- `Rkvr.Rkvr.SetTimeSteps`: requires `nSteps != 0`, because the source's division by zero steps gives an infinity that reals cannot
  express.
- `Rkvr.Rkvr.Calculate`: requires `refreshRate != 0`, because `i % refresh_rate_` by zero is undefined behaviour in the source.
  The `assert(pass)` on the first frame is read with release semantics (no effect).
- `Rkvr.StepConservesMass`: proves mass conservation only for meshes where every edge is two-sided (`ClosedMesh`). On an open
  mesh the source's flux loop dereferences a null side, which has no meaning.
- `Rkvr.Rkvr.GetFluxOnEachEdge`: requires every edge to be two-sided, for the same reason.
- The assertions the source makes are preconditions of the model. These are `head->size() == tail->size()` in
  SetPeriodicBoundary and the density checks in ConservativeToPrimitive, which is modelled with an error result.
- `Boundary.Manager.SetPeriodicBoundary`: requires both part names to exist. For a missing name, `name_to_part_[name]`
  yields a null part that the source then dereferences.
- The modelled Riemann solver is the scalar linear one. The solver is generic, but its flux, the right-hand side and the
  Runge-Kutta update are modelled for scalar cell values.
- `ElementTriangle.Factorial`: requires p <= 12. Above that, the `int` accumulator overflows, which is undefined behaviour.
- `ElementTriangle.GetDelta`: requires a positive extent, because a degenerate triangle divides by zero.
- `RiemannTypes.Div`: requires a non-zero divisor.
- Loops the source runs through visitor lambdas (`ForEachEdge`, `ForEachCell`, the sewing loop) are modelled as loops in
  methods over the mesh's sequences. The visiting order is the same.
- Object identity is modelled as index identity. For example, `GetRHS` compares an edge's
  positive side with the cell, and the model compares indices.
- `MeshTriangle.NewCell`: the source's constructor leaves the cell's data, `a_matrix` and `b_vector` default-constructed, and
  the fixed-size Eigen members then hold no defined value. The model fills them with zeros, so it does not capture that the
  values are indeterminate.
- `Boundary.NoData`: a ghost's data is never written by `MoveCell`, so it is indeterminate in the source. The model uses the
  same zero stand-in. `Rkvr.StaleGhostFlux` is stated for any ghost value, not only this one.
- `MeshEdge.Unset`: the mesh edge's own `quad_points_` are never written, so they are indeterminate in the source. The model
  uses one fixed point for all of them.
- `Rkvr.Rkvr.Calculate`, `Rkvr.Rkvr.RungeKutta3Stepper`, `Rkvr.Rkvr.Stage`: these follow the source and never refresh the
  ghosts. On a mesh with periodic parts, their fluxes read the ghosts' unwritten data (see Findings). The refreshing
  stepper is `Rkvr.Rkvr.RefreshedRungeKutta3Stepper`, which no modelled source function calls.
- `MeshDim2.Mesh.EmplaceCell`: a clockwise triangle is reoriented by swapping its first and third vertices, as the code does. The
  swap changes only the stored vertex order, not the node indices used for the edges and links.

## Findings

| source | as written | input that shows it | evidently intended | confidence | as-written member | corrected member |
|---|---|---|---|---|---|---|
| include/buaa/solver/rkvr.hpp:107-140 | `RungeKutta3Stepper` computes edge fluxes without ever calling `Manager::UpdatePeriodCells` (boundary.hpp:67-71). Ghost cells made by periodic sewing therefore keep the data `MoveCell` (boundary.hpp:133-141) leaves unwritten, which is indeterminate (zero in the model). | `Rkvr.StaleExample(g)`: one cell with value 1 whose edge is sewn to its own ghost holding g, with the wind blowing from the ghost. The stored flux is -g.u0 instead of -1, for example 0 with the model's zero stand-in. | Refresh the ghosts from their parents before each flux computation. Each periodic edge then sees the mesh cells on both sides of the period. | not executed | Rkvr.StaleGhostFlux | Rkvr.Rkvr.RefreshedRungeKutta3Stepper |
| include/buaa/mesh/edge.hpp:56-62 | `mesh::Edge` declares its own `quad_points_` array, which hides the base edge's. Its constructor only forwards to the base constructor (edge.hpp:39-40), which fills the base's array. `ForEachQuadPoint` iterates the mesh edge's own array, which is never written. | Any two new edges of order 1 with different centres. They visit the same point, so for at least one of them the visited point is not its Gauss point. | Visit the base edge's quadrature points, the Gauss points mapped onto the edge. | not executed | MeshEdge.UnfilledQuadPoints | MeshEdge.ForEachBaseQuadPoint |
