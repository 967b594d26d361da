# Brillouin-zone builder: a verified model

This project models the combinatorial core of a Brillouin-zone builder in
Dafny. The builder takes three reciprocal lattice vectors and a zone number.
It intersects the half-spaces bounded by the Bragg planes of nearby lattice
points, one plane at a time, and so builds the n-th zone as a polyhedron of
faces, edges and vertices. Each of these carries a liveness flag. Between
planes, a vertex beyond at least `zone_number` planes is switched off, and
faces and edges whose children have all died are pruned. Afterwards each face
can be cut into closed loops. Its edges are split at their vertices into
segments, the pieces inside the zone are kept once each, and loops are walked
from every segment in both orientations.

Modules (one per file):

- `Vectors` (vectors.dfy): the vector primitives (dot, cross, scalar multiple,
  sum, tolerance equality) and the reciprocal lattice. Dafny reals stand in
  for doubles, and the tolerance 10^-6 is the constant `Tol`.
- `Sorting` (sorting.dfy): the stable sort by a numeric key that the builder
  gets from `Array.prototype.sort`.
- `Polyhedra` (polyhedra.dfy): the polyhedron.
  - Faces, edges and vertices live in three arenas and are referred to by
    index, just as the original shares objects by reference.
  - Each operation is a function on an `Arena` value.
  - Class `Polyhedron` performs the same operations in place. Each method is
    proved to leave `Snapshot()` equal to that function applied to the old
    state.
- `BrillouinZone` (zone.dfy): the enumeration of candidate lattice points, the
  fold of the sorted Bragg planes into the polyhedron, and the clean-up passes.
- `Segments` (segments.dfy): the endpoint/segment graph of one face (class
  `SegmentGraph`), the loop search, and `find_edge_traversals`.
- `Draft` (draft.dfy): the earlier draft of `add_plane_to_polyhedron`. It is
  modelled twice: as written, and as evidently intended (see Findings). The
  draft's `dot`, `cross`, `scal_mult` and `reciprocal_lattice`
  (geometry_calc.js:1-39) are the same as those of src/geometry_calc.js, so the
  `Vectors` members model both.

Code that cannot be seen, or that is floating-point geometry, becomes a
function-valued parameter:

- `PlaneSolver`: the line `plane_intersection` returns past its tangent
  guard, both its direction (the normalised tangent) and its point (the LU
  solve). The choice of the pivot axis is modelled separately
  (`Polyhedra.PivotAxis`).
- `EdgeSolver`: `edge_intersection`.
- `BraggPlaner`: `bragg_plane`, which needs a square root.
- `LoopFinder`: `create_loop`, the angle-driven walk.

Everything the builder does around these parameters is modelled, except
what is listed under Left out.

The model follows the code where it states a rule in a way that is easy to
misread:

- Deactivation. The count is compared with `zone_number` only right after it
  is incremented, so the rule is "beyond at least one plane and at least
  `zone_number` planes" (`Polyhedra.Exterior`). For zone numbers of 1 or more
  this is the same as "beyond at least `zone_number` planes".
- Minimum topology. A face is judged by the length of its edge list, not by
  how many of its edges are active. An edge that `deactivate_singular_components`
  switches off (src/geometry_calc.js:273-277) stays in its faces' edge lists,
  because the final prune (src/geometry_calc.js:324) compacts only the
  polyhedron's own lists. So a listed face of the finished zone can have fewer
  than three active edges. `BrillouinZone.FinishShape` states the rule the
  code applies.
- Degenerate point. `bragg_plane` has no check for the zero point. Here it is
  an oracle.
- Degenerate lattice. The code never raises this error. The model's
  `ReciprocalLattice` returns `DegenerateLattice` only for an exactly zero
  triple product, where the code would divide by zero (see Left out).

## Model

| member | source | states |
|---|---|---|
| Vectors.Dot | src/geometry_calc.js:8-17 | fails with DimensionMismatch exactly when the lengths differ; otherwise returns the sum of componentwise products |
| Vectors.Cross | src/geometry_calc.js:19-26 | fails with InvalidDimension exactly when either input is not 3-dimensional; otherwise the result has length 3 and is orthogonal to both inputs |
| Vectors.CrossOrthogonal | src/geometry_calc.js:23-25 | the cross-product formula gives a vector orthogonal to both arguments |
| Vectors.ScalMult | src/geometry_calc.js:28-34 | the result has the input's length and component i is v[i] * s |
| Vectors.VecAdd | src/geometry_calc.js:36-45 | fails with DimensionMismatch exactly when the lengths differ; otherwise it returns a vector of the same length whose component i is a[i] + b[i] |
| Vectors.VectorsApproxEqual | src/geometry_calc.js:52-62 | fails exactly on a length mismatch; otherwise true iff every component pair is within the tolerance 10^-6 |
| Vectors.InnerScale | src/geometry_calc.js:28-34 | scaling one argument of a dot product scales the product |
| Vectors.InnerSymmetric | src/geometry_calc.js:8-17 | the dot product is symmetric |
| Vectors.TripleCyclic | src/geometry_calc.js:69 | the triple product a0 . (a1 x a2) is invariant under cyclic rotation, so the three reciprocal vectors share one denominator |
| Vectors.ReciprocalLattice | src/geometry_calc.js:68-74 | succeeds exactly when three 3-dimensional vectors with a nonzero triple product are given, and then returns three vectors |
| Vectors.ReciprocalDuality | src/geometry_calc.js:64-74 | whenever the reciprocal lattice exists, a_i . b_j is 1 for i = j and 0 otherwise (the dual basis without the 2 pi factor) |
| Sorting.InsertSorted | src/geometry_calc.js:310 | inserting into a sorted list keeps it sorted by key |
| Sorting.InsertPermutes | src/geometry_calc.js:310 | insertion adds exactly the one element: the multiset grows by it |
| Sorting.SortByKeyCorrect | src/geometry_calc.js:310 | the sort's result is ascending by key and is a permutation of its input (same multiset and length) |
| Polyhedra.Scan | src/geometry_calc.js:168-180 | the loop of check_active returns true iff some flag is set, or the list is empty and nothing inactive was seen |
| Polyhedra.CheckActive | src/geometry_calc.js:167-181 | check_active is true iff the list is empty or some child is active; it is false iff the list is non-empty and every child is inactive |
| Polyhedra.Keep | src/geometry_calc.js:210-220 | compaction returns a list of references no longer than its input, and every entry it keeps is active |
| Polyhedra.KeepMembers | src/geometry_calc.js:210-220 | a reference survives compaction iff it was listed and its entity is active |
| Polyhedra.KeepConcat | src/geometry_calc.js:213-217 | compaction keeps relative order: it distributes over concatenation |
| Polyhedra.KeepAllActive | src/geometry_calc.js:210-220 | compaction of a list whose entries are all active changes nothing |
| Polyhedra.Compact | src/geometry_calc.js:212-218 | the compaction loop returns exactly the kept sublist `Keep` |
| Polyhedra.PruneNeverReactivates | src/geometry_calc.js:194-221 | pruning never sets a flag, keeps every entity's geometry and child lists, and keeps the arenas' sizes |
| Polyhedra.PruneMarksExactly | src/geometry_calc.js:196-209 | pruning deactivates a listed edge exactly when its vertex list is non-empty and all dead, and a listed face exactly when its edge list, judged after the edge pass, is non-empty and all dead |
| Polyhedra.PruneEstablishesLiveness | src/geometry_calc.js:194-221 | after pruning, the lists hold exactly the previously listed entities that are active, and every listed edge and face is live: an edge has an active vertex or no vertices, a face an active edge or no edges |
| Polyhedra.PruneFaceKeeps | src/geometry_calc.js:194-221 | pruning one face keeps exactly its edges that are active after the edge marks, and changes no list of the polyhedron |
| Polyhedra.PruneEdgeKeeps | src/geometry_calc.js:194-221 | pruning one edge keeps exactly its active vertices and changes nothing else |
| Polyhedra.OutsideCountPrefix | src/geometry_calc.js:225-235 | the count over a prefix of the faces never exceeds the count over all of them, so stopping early is sound |
| Polyhedra.DeactivateExactly | src/geometry_calc.js:223-237 | deactivate_external_vertices switches off exactly the listed vertices that lie beyond at least one and at least zone_number listed faces; it changes nothing else and reactivates nothing |
| Polyhedra.CountZeroMeansInside | src/geometry_calc.js:226-234 | a vertex counted beyond no plane lies beyond none of them |
| Polyhedra.DeactivateEstablishesZone | src/geometry_calc.js:223-237 | afterwards every active listed vertex is beyond fewer than zone_number planes (or none); for zone 1 it is beyond none (zone-1 containment) |
| Polyhedra.InZoneScan | src/geometry_calc.js:516-525 | the loop of segment_in_zone rejects iff the running count plus the remaining count reaches at least one and at least zone_number |
| Polyhedra.SegmentInZone | src/geometry_calc.js:513-526 | a segment is kept iff its midpoint is not exterior by the same count as the vertex test |
| Polyhedra.SingularExactly | src/geometry_calc.js:267-278 | deactivate_singular_components switches off exactly the listed faces with fewer than 3 edges and the listed edges with fewer than 2 vertices, and changes nothing else |
| Polyhedra.ParallelPlanesGiveNoEdge | src/geometry_calc.js:94-98 | two planes with parallel normals never produce an edge |
| Polyhedra.Meet | src/geometry_calc.js:247-254 | crossing a new edge with a face's edges keeps references in range, only adds vertices, and keeps faces and lists of faces and edges |
| Polyhedra.MeetOne | src/geometry_calc.js:248-253 | one crossing keeps WellFormed and the lifecycle (arenas only grow, geometry fixed, flags only cleared), keeps the faces and the lists of faces and edges, and adds no edge |
| Polyhedra.AttachEdge | src/geometry_calc.js:246-257 | adding an edge for one face keeps references in range, never changes existing geometry or sets a flag, and keeps the face list |
| Polyhedra.MeetOneCreates | src/geometry_calc.js:248-253 | without a crossing nothing changes; with one, exactly one active vertex at the crossing point is appended, listed by the polyhedron and appended to both edges' vertex lists; no edge changes its flag or loses a vertex, and every other edge is unchanged |
| Polyhedra.MeetExtends | src/geometry_calc.js:247-254 | the crossing loop only extends the vertex arena, the vertex list and every edge's vertex list, adds at most one vertex per face edge, and changes no edge flag |
| Polyhedra.MeetCreates | src/geometry_calc.js:247-254 | every vertex the crossing loop adds is active, listed by the polyhedron and on the new edge |
| Polyhedra.AttachEdgeCreates | src/geometry_calc.js:246-257 | the new edge is active, lies on the given line and is appended to the polyhedron's edges and to the edge lists of face f and the new face; other faces are unchanged; its crossing vertices are active, listed and on it |
| Polyhedra.PivotAxis | src/geometry_calc.js:100-108 | the pivot is the first tangent component not within the tolerance of zero; there is none iff all three are within it |
| Polyhedra.GuardAdmitsNoPivot | src/geometry_calc.js:93-112 | normals (1,0,0) and (1, 9e-7, 9e-7) pass the tangent-length guard yet leave no pivot axis, the case where the answer stays null |
| Polyhedra.CutFace | src/geometry_calc.js:245-258 | one turn of the face loop keeps WellFormed and the lifecycle (geometry fixed, flags only cleared) |
| Polyhedra.CutFaces | src/geometry_calc.js:244-259 | the whole face loop keeps WellFormed and the lifecycle, and keeps the face list |
| Polyhedra.AddPlaneSpec | src/geometry_calc.js:242-265 | adding a plane keeps WellFormed and the lifecycle, and appends exactly one face |
| Polyhedra.KeepCount | src/geometry_calc.js:225-235 | dropping faces from the list never raises the number of planes a point is beyond |
| Polyhedra.PruneKeepsZone | src/geometry_calc.js:194-221 | pruning keeps zone membership: no active listed vertex becomes exterior |
| Polyhedra.InZoneSameGeometry | src/geometry_calc.js:318-325 | a step that keeps the lists, the geometry and never sets a flag keeps zone membership |
| Polyhedra.AddPlaneInZone | src/geometry_calc.js:242-265 | after adding a plane, every active listed vertex is beyond fewer than zone_number listed planes (or none) |
| Polyhedra.ZoneOneContained | src/geometry_calc.js:223-237 | in zone 1, with all listed vertices active, every vertex lies on the inner side of every listed face |
| Polyhedra.AddPlaneAppends | src/geometry_calc.js:260-264 | the new face carries the added plane, and afterwards every listed face, edge and vertex is active |
| Polyhedra.Polyhedron.constructor | src/geometry_calc.js:183-188 | a new polyhedron has empty lists and the given zone number |
| Polyhedra.Polyhedron.MarkDeadEdges | src/geometry_calc.js:196-202 | the edge loop of prune_polyhedron updates the edge flags as MarkEdges says and nothing else |
| Polyhedra.Polyhedron.MarkDeadFaces | src/geometry_calc.js:203-209 | the face loop of prune_polyhedron updates the face flags as MarkFaces says and nothing else |
| Polyhedra.Polyhedron.PrunePolyhedron | src/geometry_calc.js:194-221 | prune_polyhedron on the polyhedron leaves exactly the state PruneSpec(old state) |
| Polyhedra.Polyhedron.PruneFace | src/geometry_calc.js:194-221 | prune_polyhedron on one face leaves exactly PruneFaceSpec(old state, f) |
| Polyhedra.Polyhedron.PruneEdge | src/geometry_calc.js:210-220 | prune_polyhedron on one edge leaves exactly PruneEdgeSpec(old state, e) |
| Polyhedra.Polyhedron.DeactivateExternalVertices | src/geometry_calc.js:223-237 | the nested loops leave exactly DeactivateSpec(old state, zone_number) |
| Polyhedra.Polyhedron.IsExterior | src/geometry_calc.js:224-235 | the inner counting loop, with its early exit, decides exactly Exterior(vertex, planes, zone_number) |
| Polyhedra.Polyhedron.DeactivateThinFaces | src/geometry_calc.js:268-272 | the face loop switches off exactly the thin listed faces |
| Polyhedra.Polyhedron.DeactivateThinEdges | src/geometry_calc.js:273-277 | the edge loop switches off exactly the thin listed edges |
| Polyhedra.Polyhedron.DeactivateSingularComponents | src/geometry_calc.js:267-278 | both loops together leave exactly SingularSpec(old state) |
| Polyhedra.Polyhedron.MeetEdges | src/geometry_calc.js:247-254 | the inner loop of add_plane_to_polyhedron leaves exactly Meet(old state, ...) |
| Polyhedra.Polyhedron.MeetEdge | src/geometry_calc.js:248-253 | one crossing leaves exactly MeetOne(old state, ...) |
| Polyhedra.Polyhedron.AttachNewEdge | src/geometry_calc.js:246-257 | a new edge is created, crossed with the face's edges, and referred to by both faces and the polyhedron, exactly as AttachEdge says |
| Polyhedra.Polyhedron.CutFaceBy | src/geometry_calc.js:245-258 | one face of the loop leaves exactly CutFace(old state, ...) |
| Polyhedra.Polyhedron.CutListedFaces | src/geometry_calc.js:244-259 | the face loop over the faces listed on entry leaves exactly CutFaces(old state, ...) |
| Polyhedra.Polyhedron.AddPlaneToPolyhedron | src/geometry_calc.js:242-265 | add_plane_to_polyhedron leaves exactly AddPlaneSpec(old state, plane, zone_number, ...) and keeps the polyhedron well formed |
| BrillouinZone.CheckLimit | src/geometry_calc.js:292 | the check limit is the smaller of zone_number + 1 and 3 |
| BrillouinZone.RowCount | src/geometry_calc.js:296-303 | the innermost loop yields one triple per k, minus the origin when it is passed |
| BrillouinZone.SlabCount | src/geometry_calc.js:295-305 | the middle loop yields (2L+1) triples per row, minus the origin once |
| BrillouinZone.GridCount | src/geometry_calc.js:294-306 | the outer loop yields (2L+1)^2 triples per slab, minus the origin once |
| BrillouinZone.TriplesCount | src/geometry_calc.js:294-306 | the enumeration yields (2L+1)^3 - 1 candidates |
| BrillouinZone.RowMembers | src/geometry_calc.js:296-297 | a triple is in a row iff it has the row's i and j, a k already passed, and is not the origin |
| BrillouinZone.SlabMembers | src/geometry_calc.js:295-297 | membership in the rows so far, by coordinates |
| BrillouinZone.GridMembers | src/geometry_calc.js:294-297 | membership in the slabs so far, by coordinates |
| BrillouinZone.TriplesMembers | src/geometry_calc.js:294-297 | the candidates are exactly the non-origin triples of the cube [-L, L]^3 |
| BrillouinZone.RowAscending | src/geometry_calc.js:296 | the innermost loop visits triples in ascending lexicographic order |
| BrillouinZone.SlabAscending | src/geometry_calc.js:295-296 | so do the two inner loops together |
| BrillouinZone.GridAscending | src/geometry_calc.js:294-296 | so do all three loops |
| BrillouinZone.TriplesDistinct | src/geometry_calc.js:294-306 | the enumeration is ascending, so no triple is visited twice |
| BrillouinZone.PointOf | src/geometry_calc.js:298-301 | the lattice point computed with vec_add and scal_mult is i b0 + j b1 + k b2 |
| BrillouinZone.EnumerateRow | src/geometry_calc.js:296-303 | the innermost loop produces the candidates of one row, in order |
| BrillouinZone.EnumerateSlab | src/geometry_calc.js:295-304 | the middle loop produces the candidates of one slab, in order |
| BrillouinZone.EnumerateCandidates | src/geometry_calc.js:293-306 | the three loops produce one candidate (Bragg plane, squared distance) per triple, in loop order |
| BrillouinZone.Build | src/geometry_calc.js:313-315 | folding planes in keeps WellFormed and the lifecycle, and appends one face per plane |
| BrillouinZone.BuildAppends | src/geometry_calc.js:313-315 | after the fold, the new faces carry the folded planes in order |
| BrillouinZone.FoldPlane | src/geometry_calc.js:314 | one turn of the fold loop extends the state to Build over one more plane |
| BrillouinZone.FoldPlanes | src/geometry_calc.js:313-315 | the fold loop leaves exactly Build(old state, the sorted planes) |
| BrillouinZone.PruneFaces | src/geometry_calc.js:320-322 | pruning each face in turn keeps WellFormed, the lifecycle and every list of the polyhedron |
| BrillouinZone.PruneEdges | src/geometry_calc.js:320-322 | pruning each edge in turn keeps WellFormed, the lifecycle, the faces and every list of the polyhedron |
| BrillouinZone.PruneEachFace | src/geometry_calc.js:319-323 | the loop over the faces leaves exactly PruneFaces(old state, old faces) |
| BrillouinZone.PruneEachEdge | src/geometry_calc.js:319-323 | the loop over the edges leaves exactly PruneEdges(old state, old edges) |
| BrillouinZone.FinishShape | src/geometry_calc.js:318-325 | the clean-up keeps the face geometry. Afterwards every listed face is active, live and has at least 3 entries in its edge list; every listed edge is active, live and has at least 2 entries in its vertex list; every listed vertex is active |
| BrillouinZone.FinishZone | src/geometry_calc.js:318-325 | the clean-up calls leave exactly Finish(old state) |
| BrillouinZone.BuildInZone | src/geometry_calc.js:313-315 | folding in planes establishes zone membership when there is at least one plane, and keeps it otherwise |
| BrillouinZone.FinishKeepsZone | src/geometry_calc.js:318-325 | the clean-up keeps zone membership |
| BrillouinZone.FinishedZone | src/geometry_calc.js:318-325 | after the clean-up, zone membership holds, every listed vertex is active, and in zone 1 every vertex is inside every face |
| BrillouinZone.ZoneMembership | src/geometry_calc.js:283-328 | in the built zone every listed vertex is active and beyond fewer than zone_number faces (or none); in zone 1 every vertex is inside every face |
| BrillouinZone.ZoneShape | src/geometry_calc.js:283-328 | the zone built from any candidates is well formed. The arena's faces are the candidates' planes, sorted ascending by squared distance (a permutation of the candidates). It satisfies the invariants of FinishShape |
| BrillouinZone.CreateNthBrillouinZone | src/geometry_calc.js:283-329 | fails exactly when zone_number > 3; otherwise it returns a fresh polyhedron with that zone number whose state is ZoneSpec of the candidates for L = min(zone_number + 1, 3) |
| Segments.FirstNear | src/geometry_calc.js:344-348 | the scan returns the first endpoint within the tolerance of v, or none when no endpoint is |
| Segments.FirstNearIs | src/geometry_calc.js:344-348 | the scan finds exactly the first matching endpoint |
| Segments.AddEndpointMeaning | src/geometry_calc.js:343-352 | add_endpoint returns an existing endpoint approximately equal to v and changes nothing, or else appends exactly one new endpoint at v, far from all others; the graph invariants are kept |
| Segments.ScansFindJoined | src/geometry_calc.js:359-368 | the two duplicate scans find a match iff a segment already joins the two endpoints, in either direction |
| Segments.LinkWellFormed | src/geometry_calc.js:370-373 | registering a new segment at both of its endpoints keeps the graph invariants |
| Segments.LinkKeeps | src/geometry_calc.js:370-373 | linking two endpoints that are not yet joined keeps the graph well formed and free of duplicate pairs, and adds exactly one segment joining them |
| Segments.AddSegmentKeepsUnique | src/geometry_calc.js:354-374 | add_segment never creates a second segment joining the same endpoint pair in either direction, adds at most one segment, and afterwards the pair is joined |
| Segments.PiecesKeep | src/geometry_calc.js:387-393 | adding the pieces of an edge keeps the graph well formed and duplicate-free, and only grows it |
| Segments.AddEdgeKeeps | src/geometry_calc.js:379-395 | add_edge keeps the graph well formed and duplicate-free, and only grows it |
| Segments.PieceJoined | src/geometry_calc.js:388-391 | a piece in the zone whose ends differ leaves its two endpoints joined |
| Segments.MarkSteps | src/geometry_calc.js:492-502 | marking keeps the number of segments |
| Segments.MarkStepsMeaning | src/geometry_calc.js:492-502 | marking keeps every segment's endpoints and direction, never clears a visited flag, and sets the flag of every step in its orientation |
| Segments.MarkStepsKeeps | src/geometry_calc.js:492-502 | marking keeps the graph invariants |
| Segments.SameEndsKeep | src/geometry_calc.js:475-507 | the graph invariants depend only on the endpoints and on where each segment starts and ends |
| Segments.Turn | src/geometry_calc.js:478-505 | one turn keeps the endpoints and the number of segments, only appends loops, and adds at most one loop per unvisited orientation |
| Segments.FindPathsSpec | src/geometry_calc.js:475-507 | find_paths keeps the endpoints and the number of segments and only appends loops |
| Segments.TurnMonotone | src/geometry_calc.js:478-505 | one turn only sets visited flags, and every step of each loop it accepts is marked visited in its orientation |
| Segments.FindPathsMonotone | src/geometry_calc.js:475-507 | find_paths only sets visited flags and keeps every segment's ends and direction |
| Segments.FindPathsMarksSteps | src/geometry_calc.js:492-502 | every step of every returned loop is marked visited in its orientation at the end |
| Segments.AllVisitedNoPaths | src/geometry_calc.js:483-488 | when every orientation of every segment is already visited, find_paths returns nothing and changes nothing |
| Segments.AddEdgesKeep | src/geometry_calc.js:532-534 | adding all edges of a face keeps the graph well formed and duplicate-free |
| Segments.SegmentGraph.constructor | src/geometry_calc.js:530-531 | a new graph has no endpoints and no segments |
| Segments.SegmentGraph.AddEndpoint | src/geometry_calc.js:343-352 | the loop returns EndpointFor(v) and leaves exactly WithEndpoint(old graph, v) |
| Segments.SegmentGraph.ScanStarts | src/geometry_calc.js:359-363 | the first scan finds a segment iff one starts at a and ends at b |
| Segments.SegmentGraph.ScanEnds | src/geometry_calc.js:364-368 | the second scan finds a segment iff one ends at a and starts at b |
| Segments.SegmentGraph.LinkNew | src/geometry_calc.js:370-373 | the three pushes leave exactly Link(old graph, a, b) |
| Segments.SegmentGraph.AddSegment | src/geometry_calc.js:354-374 | add_segment leaves exactly AddSegmentSpec(old graph, a, b) and keeps the graph invariants |
| Segments.SegmentGraph.AddEdge | src/geometry_calc.js:379-395 | add_edge leaves exactly AddEdgeSpec(old graph, edge) and keeps the invariants |
| Segments.SegmentGraph.AddPiece | src/geometry_calc.js:388-391 | one turn of the pieces loop adds the segment between two consecutive points exactly as add_segment does |
| Segments.SegmentGraph.AddPieces | src/geometry_calc.js:387-393 | the second loop of add_edge leaves exactly Pieces(old graph, sorted points) |
| Segments.SegmentGraph.MarkWalk | src/geometry_calc.js:492-502 | marking a loop's steps leaves exactly MarkSteps(old segments, steps) and keeps the invariants |
| Segments.SegmentGraph.VisitSegment | src/geometry_calc.js:477-505 | one turn, with both loops asked for before either is marked, leaves exactly Turn(...).graph and returns the loops Turn appends |
| Segments.SegmentGraph.VisitNext | src/geometry_calc.js:477-505 | one turn of the loop of find_paths extends the state to FindPathsSpec over one more segment and returns the loops that turn adds |
| Segments.SegmentGraph.FindPaths | src/geometry_calc.js:475-507 | find_paths leaves exactly the graph of FindPathsSpec and returns the points of exactly its loops, in order |
| Segments.TValueOf | src/geometry_calc.js:382 | the t-value computed with dot, vec_add and scal_mult is t . (v - a) |
| Segments.EdgePointsOf | src/geometry_calc.js:380-384 | the first loop of add_edge pairs each vertex of the edge with its t-value, in vertex order |
| Segments.FindEdgeTraversals | src/geometry_calc.js:528-543 | returns exactly TraversalsSpec (find_paths over the face's segment graph), and nothing when fewer than 3 segments survive |
| Draft.DotOperand | geometry_calc.js:1-4 | the draft's dot succeeds iff its first argument is an array as long as the second; a record, whose length is undefined, always fails |
| Draft.Visit | geometry_calc.js:95-98 | one turn of the vertex loop fails iff it hands dot the whole vertex; handed the position, it keeps the position and switches the vertex off iff it lies strictly beyond the plane |
| Draft.SweepSpec | geometry_calc.js:95-99 | the vertex loop keeps the number of vertices |
| Draft.SweepRecordsThrows | geometry_calc.js:95-99 | as written, the loop changes no vertex and throws DimensionMismatch iff there is at least one vertex |
| Draft.SweepPositionsExactly | geometry_calc.js:95-99 | as intended, the loop never throws. It switches off exactly the vertices strictly beyond the plane (no tolerance), keeps positions and reactivates nothing |
| Draft.DraftThrowsOnInnerVertex | geometry_calc.js:96 | a vertex at the origin and the plane x <= 1: as written the call throws, as intended the vertex stays active |
| Draft.DraftPolyhedron.DeactivateBeyond | geometry_calc.js:95-99 | the vertex loop, stopping at the first throw, leaves exactly the vertices and error of SweepSpec and keeps the faces |
| Draft.DraftPolyhedron.AddPlaneAsWritten | geometry_calc.js:86-100 | as written: the plane is appended as the last face, no vertex changes, and the call throws iff there is a vertex |
| Draft.DraftPolyhedron.AddPlane | geometry_calc.js:86-100 | as intended: the plane is appended as the last face, earlier faces are unchanged, and exactly the vertices strictly beyond it are switched off |

## Left out

- The THREE.js rendering (`construct_face_basis`, `project_to_plane_coords`,
  `face_to_threejs_mesh`, `polyhedron_to_threejs_geometry`): library calls and
  square-root normalisation.
- `get_fermi_sphere_radius`: floating-point arithmetic with no combinatorial
  content.
- index.js and testing.js: the user interface and the test driver. They are
  not part of this model.
- `plane_intersection`: its tolerance guard on the tangent length is stated
  exactly (`Polyhedra.PlaneIntersection`). Past the guard, the whole line is
  the `PlaneSolver` parameter: the point from the LU solve, and also the
  direction, the normalised tangent (n_A x n_B)/|n_A x n_B|
  (src/geometry_calc.js:93-95, 114), because it needs a square root. That
  direction is the one `add_edge` sorts an edge's points by
  (`Segments.TValue`). The oracle is unconstrained: it may return none even
  when a pivot exists, where the original always returns an edge.
- Polyhedra.PlaneIntersection: when the tangent passes the guard but no axis
  qualifies as pivot (`Polyhedra.GuardAdmitsNoPivot`), the original iterates
  over a null answer and throws a TypeError that aborts the build. The model
  hands that case to `PlaneSolver` and reads its none as no edge.
- `edge_intersection`: the `EdgeSolver` parameter. Its row selection and
  solve run on floating point and a library.
- `bragg_plane`: the `BraggPlaner` parameter, because it needs a square root.
  The zero-point case is not modelled.
- `find_angle` and `create_loop`: the `LoopFinder` parameter. The mutation of
  the active loop inside `create_loop` is not modelled; only the loop it
  returns is. The walk always ends: each turn tags the current segment with
  the start segment (src/geometry_calc.js:425), and choosing a tagged segment
  returns null (src/geometry_calc.js:455-457). The segment just walked is
  always a candidate at its far end, at angle 2 pi, below the starting bound
  2 pi + 1 (src/geometry_calc.js:398-405, 437), so a walk that finds nothing
  better turns back onto it and returns null. `best_option` stays null, and
  the dereference at src/geometry_calc.js:455 throws, only when every
  candidate angle is NaN, as for a zero-length segment. The total
  `LoopFinder` oracle does not represent that throw.
- `dist` and `find_midpoint` as functions. The midpoint appears only inside
  `Polyhedra.SegmentInZone`.
- `console.log` in `create_nth_brillouin_zone`.
- Floating-point rounding: reals are exact, so a comparison in the model can
  decide differently from the same comparison on doubles.
- The exception type: every failure is an error value of the call that
  fails. Errors from `dot`/`cross` inside the builder cannot occur, because
  every vector there has three components.
- Vectors.ReciprocalLattice: where the code divides by a zero triple product
  and returns non-finite numbers, the model returns `DegenerateLattice`. A
  non-zero triple product within the tolerance is not treated specially, as
  in the code.
- Segments.MarkSteps: a step naming a segment outside the list is passed
  over. The loops of `create_loop` only name listed segments.
- Sorting.SortByKeyCorrect: the sort is a stable insertion sort, like
  `Array.prototype.sort`. Stability itself is not proved.
- The draft's `bragg_plane` and `plane_intersection`: the same abstraction as
  their counterparts in src/geometry_calc.js.
- The draft's empty face loop (geometry_calc.js:88-91): it has no body, so it
  creates no edges, and the model has no loop for it.
- Draft.DraftPolyhedron: vertices are kept by value. The draft has no edges,
  so nothing else refers to a vertex and no aliasing is lost.

## Findings

| source | as written | input that shows it | evidently intended | confidence | as-written member | corrected member |
|---|---|---|---|---|---|---|
| geometry_calc.js:96 | `dot(vertex, plane.n)` hands the whole vertex record to `dot`. The draft never builds a vertex; in the later file a vertex is the record `{v, active}` (src/geometry_calc.js:163-164), and that record has no `length`, so the length check at line 2 always fails and `dot` throws at the first vertex, after the plane has already been pushed | one active vertex at (0, 0, 0) and the plane x <= 1 (`Draft.DraftThrowsOnInnerVertex`) | `dot(vertex.v, plane.n)`, as the later file writes it (src/geometry_calc.js:227): exactly the vertices strictly beyond the plane are switched off | high (by reading; not executed) | Draft.DraftPolyhedron.AddPlaneAsWritten (with Draft.SweepRecordsThrows) | Draft.DraftPolyhedron.AddPlane (with Draft.SweepPositionsExactly) |
