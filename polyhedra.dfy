/** The polyhedron-construction engine: faces (Bragg planes), edges and
    vertices with liveness flags, and the bookkeeping that folds planes in,
    applies the zone-count test and prunes dead topology.

    Entities live in three arenas (faceStore, edgeStore, vertexStore) and
    are referred to by index everywhere else, just as the original refers to
    shared objects: the polyhedron's own lists (faces, edges, vertices) and
    the child lists of a face (its edges) and of an edge (its vertices) all
    hold indices into the arenas. Removing an index from a list leaves the
    entity in its arena, as dropping a reference leaves the object alive. */
module Polyhedra {
  import opened Vectors

  datatype Option<T> = None | Some(value: T)

  /** A half-space { x : x . n <= a }. */
  datatype Plane = Plane(n: Vec3, a: real)

  /** A line through a with direction t. */
  datatype Line = Line(t: Vec3, a: Vec3)

  datatype Face = Face(n: Vec3, a: real, edges: seq<nat>, active: bool)
  datatype Edge = Edge(t: Vec3, a: Vec3, vertices: seq<nat>, active: bool)
  datatype Vertex = Vertex(v: Vec3, active: bool)

  datatype Arena = Arena(faceStore: seq<Face>, edgeStore: seq<Edge>, vertexStore: seq<Vertex>,
                         faces: seq<nat>, edges: seq<nat>, vertices: seq<nat>)

  /** What plane_intersection computes past its tangent guard: the common
      line of two planes, as a direction (the normalised tangent, which
      needs a square root) and a point (an LU solve done by a library, on
      the pivot axis PivotAxis picks). Unconstrained: it may also give
      none. */
  type PlaneSolver = (Plane, Plane) -> Option<Line>

  /** edge_intersection: the crossing point of two lines, if they cross. */
  type EdgeSolver = (Line, Line) -> Option<Vec3>

  function PlaneOf(f: Face): Plane { Plane(f.n, f.a) }
  function LineOf(e: Edge): Line { Line(e.t, e.a) }

  predicate RefsIn(ids: seq<nat>, n: nat)
  {
    forall i :: 0 <= i < |ids| ==> ids[i] < n
  }

  /** Every reference, in the polyhedron's lists and in every child list,
      names an entity of the right arena. */
  predicate WellFormed(ar: Arena)
  {
    && RefsIn(ar.faces, |ar.faceStore|)
    && RefsIn(ar.edges, |ar.edgeStore|)
    && RefsIn(ar.vertices, |ar.vertexStore|)
    && (forall f :: 0 <= f < |ar.faceStore| ==> RefsIn(ar.faceStore[f].edges, |ar.edgeStore|))
    && (forall e :: 0 <= e < |ar.edgeStore| ==> RefsIn(ar.edgeStore[e].vertices, |ar.vertexStore|))
  }

  /** The lifecycle: arenas only grow, the geometry of an entity never
      changes, and a flag never goes from false to true. */
  predicate Evolves(x: Arena, y: Arena)
  {
    && |x.faceStore| <= |y.faceStore|
    && |x.edgeStore| <= |y.edgeStore|
    && |x.vertexStore| <= |y.vertexStore|
    && (forall k :: 0 <= k < |x.faceStore| ==>
          PlaneOf(y.faceStore[k]) == PlaneOf(x.faceStore[k]) && (y.faceStore[k].active ==> x.faceStore[k].active))
    && (forall k :: 0 <= k < |x.edgeStore| ==>
          LineOf(y.edgeStore[k]) == LineOf(x.edgeStore[k]) && (y.edgeStore[k].active ==> x.edgeStore[k].active))
    && (forall k :: 0 <= k < |x.vertexStore| ==>
          y.vertexStore[k].v == x.vertexStore[k].v && (y.vertexStore[k].active ==> x.vertexStore[k].active))
  }

  lemma EvolvesTransitive(x: Arena, y: Arena, z: Arena)
    requires Evolves(x, y) && Evolves(y, z)
    ensures Evolves(x, z)
  {
  }

  // ---------------------------------------------------------------- liveness

  /** The scan of check_active: true on the first active flag; at the end,
      true only if nothing inactive was seen. */
  function Scan(flags: seq<bool>, someInactive: bool): (r: bool)
    ensures r <==> (exists i :: 0 <= i < |flags| && flags[i]) || (|flags| == 0 && !someInactive)
    decreases |flags|
  {
    if |flags| == 0 then !someInactive
    else if flags[0] then true
    else
      var rest := Scan(flags[1..], true);
      assert forall i :: 1 <= i < |flags| ==> flags[i] == flags[1..][i - 1];
      rest
  }

  /** check_active: a component stays alive when it has no children or at
      least one active child (the liveness rule). */
  function CheckActive(flags: seq<bool>): (r: bool)
    ensures r <==> |flags| == 0 || exists i :: 0 <= i < |flags| && flags[i]
    ensures !r <==> |flags| > 0 && forall i :: 0 <= i < |flags| ==> !flags[i]
  {
    Scan(flags, false)
  }

  function FaceMask(fs: seq<Face>): seq<bool>
  {
    seq(|fs|, i requires 0 <= i < |fs| => fs[i].active)
  }

  function EdgeMask(es: seq<Edge>): seq<bool>
  {
    seq(|es|, i requires 0 <= i < |es| => es[i].active)
  }

  function VertexMask(vs: seq<Vertex>): seq<bool>
  {
    seq(|vs|, i requires 0 <= i < |vs| => vs[i].active)
  }

  /** The flags of the entities that ids refers to. */
  function Select(mask: seq<bool>, ids: seq<nat>): seq<bool>
    requires RefsIn(ids, |mask|)
  {
    seq(|ids|, i requires 0 <= i < |ids| => mask[ids[i]])
  }

  predicate ChildRefsIn(es: seq<Edge>, n: nat)
  {
    forall k :: 0 <= k < |es| ==> RefsIn(es[k].vertices, n)
  }

  predicate FaceRefsIn(fs: seq<Face>, n: nat)
  {
    forall k :: 0 <= k < |fs| ==> RefsIn(fs[k].edges, n)
  }

  /** An edge is alive by the liveness rule when check_active of its vertices holds. */
  predicate EdgeLive(vs: seq<Vertex>, e: Edge)
    requires RefsIn(e.vertices, |vs|)
  {
    CheckActive(Select(VertexMask(vs), e.vertices))
  }

  /** A face is alive by the liveness rule when check_active of its edges holds. */
  predicate FaceLive(es: seq<Edge>, f: Face)
    requires RefsIn(f.edges, |es|)
  {
    CheckActive(Select(EdgeMask(es), f.edges))
  }

  /** Phase one of pruning for edges: every edge listed in ids whose vertices
      are all inactive (and not none) is marked inactive. */
  function MarkEdges(es: seq<Edge>, vs: seq<Vertex>, ids: seq<nat>): seq<Edge>
    requires ChildRefsIn(es, |vs|)
  {
    seq(|es|, k requires 0 <= k < |es| =>
      if k in ids && !EdgeLive(vs, es[k]) then es[k].(active := false) else es[k])
  }

  /** Phase one of pruning for faces, against the already marked edges. */
  function MarkFaces(fs: seq<Face>, es: seq<Edge>, ids: seq<nat>): seq<Face>
    requires FaceRefsIn(fs, |es|)
  {
    seq(|fs|, k requires 0 <= k < |fs| =>
      if k in ids && !FaceLive(es, fs[k]) then fs[k].(active := false) else fs[k])
  }

  /** Phase two: the order-preserving sublist of the active entries. */
  function Keep(ids: seq<nat>, mask: seq<bool>): (r: seq<nat>)
    requires RefsIn(ids, |mask|)
    ensures RefsIn(r, |mask|)
    ensures |r| <= |ids|
    ensures forall i :: 0 <= i < |r| ==> mask[r[i]]
    decreases |ids|
  {
    if ids == [] then []
    else
      var n := |ids| - 1;
      Keep(ids[..n], mask) + (if mask[ids[n]] then [ids[n]] else [])
  }

  /** prune_polyhedron on a whole polyhedron. */
  function PruneSpec(ar: Arena): Arena
    requires WellFormed(ar)
  {
    var es := MarkEdges(ar.edgeStore, ar.vertexStore, ar.edges);
    var fs := MarkFaces(ar.faceStore, es, ar.faces);
    Arena(fs, es, ar.vertexStore,
          Keep(ar.faces, FaceMask(fs)), Keep(ar.edges, EdgeMask(es)), Keep(ar.vertices, VertexMask(ar.vertexStore)))
  }

  /** prune_polyhedron applied to one face: its edges are marked, then its
      edge list is compacted. */
  function PruneFaceSpec(ar: Arena, f: nat): Arena
    requires WellFormed(ar) && f < |ar.faceStore|
  {
    var es := MarkEdges(ar.edgeStore, ar.vertexStore, ar.faceStore[f].edges);
    ar.(edgeStore := es,
        faceStore := ar.faceStore[f := ar.faceStore[f].(edges := Keep(ar.faceStore[f].edges, EdgeMask(es)))])
  }

  /** prune_polyhedron applied to one edge: its vertex list is compacted. */
  function PruneEdgeSpec(ar: Arena, e: nat): Arena
    requires WellFormed(ar) && e < |ar.edgeStore|
  {
    var es := ar.edgeStore;
    ar.(edgeStore := es[e := es[e].(vertices := Keep(es[e].vertices, VertexMask(ar.vertexStore)))])
  }

  // ------------------------------------------------------- the zone count

  /** v . n > a, and not within the tolerance of a. */
  predicate Beyond(p: Vec3, pl: Plane)
  {
    var d := Inner(p, pl.n);
    d > pl.a && !ApproxEqual(d, pl.a)
  }

  /** How many of the planes p lies strictly beyond. */
  function OutsideCount(p: Vec3, planes: seq<Plane>): nat
    decreases |planes|
  {
    if planes == [] then 0
    else OutsideCount(p, planes[..|planes| - 1]) + (if Beyond(p, planes[|planes| - 1]) then 1 else 0)
  }

  /** The zone test: the count reaches zone_number. The original tests the
      count only right after incrementing it, so a count of zero never
      qualifies, whatever zone_number is. */
  predicate Exterior(p: Vec3, planes: seq<Plane>, zone: int)
  {
    OutsideCount(p, planes) >= 1 && OutsideCount(p, planes) >= zone
  }

  /** The planes of the faces ids refers to, in list order. */
  function PlanesOf(fs: seq<Face>, ids: seq<nat>): seq<Plane>
    requires RefsIn(ids, |fs|)
  {
    seq(|ids|, i requires 0 <= i < |ids| => PlaneOf(fs[ids[i]]))
  }

  /** The planes of the faces the polyhedron lists, in list order. */
  function Planes(ar: Arena): seq<Plane>
    requires RefsIn(ar.faces, |ar.faceStore|)
  {
    PlanesOf(ar.faceStore, ar.faces)
  }

  /** The zone rule: no listed vertex that is still active lies beyond at
      least one and at least zone_number of the listed faces. */
  ghost predicate InZone(ar: Arena, zone: int)
    requires WellFormed(ar)
  {
    forall x :: x in ar.vertices && ar.vertexStore[x].active ==> !Exterior(ar.vertexStore[x].v, Planes(ar), zone)
  }

  /** deactivate_external_vertices */
  function DeactivateSpec(ar: Arena, zone: int): Arena
    requires WellFormed(ar)
  {
    var vs := ar.vertexStore;
    var planes := Planes(ar);
    ar.(vertexStore := seq(|vs|, k requires 0 <= k < |vs| =>
          if k in ar.vertices && Exterior(vs[k].v, planes, zone) then vs[k].(active := false) else vs[k]))
  }

  lemma {:induction false} OutsideCountFront(p: Vec3, planes: seq<Plane>)
    requires planes != []
    ensures OutsideCount(p, planes) == (if Beyond(p, planes[0]) then 1 else 0) + OutsideCount(p, planes[1..])
    decreases |planes|
  {
    if |planes| > 1 {
      var n := |planes| - 1;
      OutsideCountFront(p, planes[..n]);
      assert planes[..n][1..] == planes[1..][..n - 1];
    } else {
      assert planes[..0] == [] && planes[1..] == [];
    }
  }

  lemma {:induction false} OutsideCountPrefix(p: Vec3, planes: seq<Plane>, j: nat)
    requires j <= |planes|
    ensures OutsideCount(p, planes[..j]) <= OutsideCount(p, planes)
    decreases |planes|
  {
    if j < |planes| {
      var n := |planes| - 1;
      assert planes[..n][..j] == planes[..j];
      OutsideCountPrefix(p, planes[..n], j);
    } else {
      assert planes[..j] == planes;
    }
  }

  /** The scan of segment_in_zone, with its early return. */
  function InZoneScan(mid: Vec3, planes: seq<Plane>, zone: int, count: nat): (r: bool)
    requires count == 0 || count < zone
    ensures r <==> !(count + OutsideCount(mid, planes) >= 1 && count + OutsideCount(mid, planes) >= zone)
    decreases |planes|
  {
    if planes == [] then true
    else
      OutsideCountFront(mid, planes);
      if Beyond(mid, planes[0]) then
        if count + 1 >= zone then false else InZoneScan(mid, planes[1..], zone, count + 1)
      else InZoneScan(mid, planes[1..], zone, count)
  }

  function Midpoint(s: Vec3, e: Vec3): Vec3
  {
    Scale(Plus(s, e), 0.5)
  }

  /** segment_in_zone: a sub-segment is kept when its midpoint passes the
      same zone test as a vertex. */
  function SegmentInZone(s: Vec3, e: Vec3, planes: seq<Plane>, zone: int): (r: bool)
    ensures r <==> !Exterior(Midpoint(s, e), planes, zone)
  {
    InZoneScan(Midpoint(s, e), planes, zone, 0)
  }

  // ------------------------------------------------------- minimum topology

  /** Faces listed in ids with fewer than three edges become inactive. */
  function ThinFacesOff(fs: seq<Face>, ids: seq<nat>): seq<Face>
  {
    seq(|fs|, k requires 0 <= k < |fs| => if k in ids && |fs[k].edges| < 3 then fs[k].(active := false) else fs[k])
  }

  /** Edges listed in ids with fewer than two vertices become inactive. */
  function ThinEdgesOff(es: seq<Edge>, ids: seq<nat>): seq<Edge>
  {
    seq(|es|, k requires 0 <= k < |es| => if k in ids && |es[k].vertices| < 2 then es[k].(active := false) else es[k])
  }

  /** deactivate_singular_components: faces with fewer than three edges and
      edges with fewer than two vertices are marked inactive. */
  function SingularSpec(ar: Arena): Arena
  {
    ar.(faceStore := ThinFacesOff(ar.faceStore, ar.faces), edgeStore := ThinEdgesOff(ar.edgeStore, ar.edges))
  }

  // ------------------------------------------------------- folding a plane in

  /** plane_intersection: no edge when the normals are parallel within the
      tolerance (|n_A x n_B| < 10^-6, that is |n_A x n_B|^2 < 10^-12);
      otherwise the line, direction and point, that the solver gives. */
  function PlaneIntersection(solve: PlaneSolver, f: Plane, g: Plane): Option<Line>
  {
    var t := Cross3(f.n, g.n);
    if Inner(t, t) < Tol * Tol then None else solve(f, g)
  }

  /** The axis plane_intersection picks for its third equation: the first i
      whose determinant det(n_A; n_B; e_i), which is component i of the
      tangent n_A x n_B, is not within the tolerance of zero. */
  function PivotAxis(t: Vec3): (r: Option<nat>)
    ensures r.Some? ==>
      r.value < 3 && !ApproxEqual(t[r.value], 0.0) && forall j :: 0 <= j < r.value ==> ApproxEqual(t[j], 0.0)
    ensures r.None? <==> forall j :: 0 <= j < 3 ==> ApproxEqual(t[j], 0.0)
  {
    if !ApproxEqual(t[0], 0.0) then Some(0)
    else if !ApproxEqual(t[1], 0.0) then Some(1)
    else if !ApproxEqual(t[2], 0.0) then Some(2)
    else None
  }

  /** The tangent guard does not ensure a pivot: for these nearly parallel
      normals the tangent is longer than the tolerance, yet each of its
      components is within it, so the original finds no axis and then
      iterates over a null answer. */
  lemma GuardAdmitsNoPivot()
    ensures var t := Cross3([1.0, 0.0, 0.0], [1.0, 0.0000009, 0.0000009]);
      !(Inner(t, t) < Tol * Tol) && PivotAxis(t) == None
  {
    var t := Cross3([1.0, 0.0, 0.0], [1.0, 0.0000009, 0.0000009]);
    assert t == [0.0, -0.0000009, 0.0000009];
    Inner3(t, t);
  }

  function AddVertexRef(e: Edge, w: nat): Edge { e.(vertices := e.vertices + [w]) }
  function AddEdgeRef(f: Face, e: nat): Face { f.(edges := f.edges + [e]) }

  /** The inner loop of add_plane_to_polyhedron: the new edge ne (on line)
      is crossed with each of the face's edges fes in turn; each crossing
      point becomes a new active vertex referred to by both edges and by the
      polyhedron. */
  function Meet(ar: Arena, ne: nat, line: Line, fes: seq<nat>, cross: EdgeSolver): (r: Arena)
    requires WellFormed(ar) && ne < |ar.edgeStore| && RefsIn(fes, |ar.edgeStore|)
    ensures WellFormed(r) && Evolves(ar, r)
    ensures r.faceStore == ar.faceStore && r.faces == ar.faces && r.edges == ar.edges
    ensures |r.edgeStore| == |ar.edgeStore|
    decreases |fes|
  {
    if fes == [] then ar
    else
      var n := |fes| - 1;
      var r0 := Meet(ar, ne, line, fes[..n], cross);
      EvolvesTransitive(ar, r0, MeetOne(r0, ne, line, fes[n], cross));
      MeetOne(r0, ne, line, fes[n], cross)
  }

  /** One turn of that loop: the new edge ne against the face edge fe. */
  function MeetOne(ar: Arena, ne: nat, line: Line, fe: nat, cross: EdgeSolver): (r: Arena)
    requires WellFormed(ar) && ne < |ar.edgeStore| && fe < |ar.edgeStore|
    ensures WellFormed(r) && Evolves(ar, r)
    ensures r.faceStore == ar.faceStore && r.faces == ar.faces && r.edges == ar.edges
    ensures |r.edgeStore| == |ar.edgeStore|
  {
    match cross(line, LineOf(ar.edgeStore[fe]))
    case None => ar
    case Some(p) =>
      var w := |ar.vertexStore|;
      var es1 := ar.edgeStore[ne := AddVertexRef(ar.edgeStore[ne], w)];
      var es2 := es1[fe := AddVertexRef(es1[fe], w)];
      ar.(vertexStore := ar.vertexStore + [Vertex(p, true)], edgeStore := es2, vertices := ar.vertices + [w])
  }

  /** Faces f and p, and the polyhedron, take edge ne into their lists. */
  function ReferEdge(ar: Arena, p: nat, f: nat, ne: nat): (r: Arena)
    requires WellFormed(ar) && p < |ar.faceStore| && f < |ar.faceStore| && ne < |ar.edgeStore|
    ensures WellFormed(r) && Evolves(ar, r)
    ensures |r.faceStore| == |ar.faceStore| && r.faces == ar.faces
  {
    var fs1 := ar.faceStore[f := AddEdgeRef(ar.faceStore[f], ne)];
    var fs2 := fs1[p := AddEdgeRef(fs1[p], ne)];
    ar.(faceStore := fs2, edges := ar.edges + [ne])
  }

  /** The new edge on line, cut against face f's edges and attached to face
      f, to the new plane p and to the polyhedron. */
  function AttachEdge(ar: Arena, p: nat, f: nat, line: Line, cross: EdgeSolver): (r: Arena)
    requires WellFormed(ar) && p < |ar.faceStore| && f < |ar.faceStore|
    ensures WellFormed(r) && Evolves(ar, r)
    ensures |r.faceStore| == |ar.faceStore| && r.faces == ar.faces
  {
    var ne := |ar.edgeStore|;
    var ar1 := ar.(edgeStore := ar.edgeStore + [Edge(line.t, line.a, [], true)]);
    assert WellFormed(ar1) && Evolves(ar, ar1);
    var ar2 := Meet(ar1, ne, line, ar.faceStore[f].edges, cross);
    assert WellFormed(ar2) && Evolves(ar1, ar2) && ne < |ar2.edgeStore|;
    var r := ReferEdge(ar2, p, f, ne);
    EvolvesTransitive(ar, ar1, ar2);
    EvolvesTransitive(ar, ar2, r);
    r
  }

  /** One turn of the outer loop of add_plane_to_polyhedron: face f against
      the new plane p. */
  function CutFace(ar: Arena, p: nat, f: nat, solve: PlaneSolver, cross: EdgeSolver): (r: Arena)
    requires WellFormed(ar) && p < |ar.faceStore| && f < |ar.faceStore|
    ensures WellFormed(r) && Evolves(ar, r)
    ensures |r.faceStore| == |ar.faceStore| && r.faces == ar.faces
  {
    match PlaneIntersection(solve, PlaneOf(ar.faceStore[f]), PlaneOf(ar.faceStore[p]))
    case None => ar
    case Some(line) => AttachEdge(ar, p, f, line, cross)
  }

  /** The outer loop of add_plane_to_polyhedron over the faces ids. */
  function CutFaces(ar: Arena, p: nat, ids: seq<nat>, solve: PlaneSolver, cross: EdgeSolver): (r: Arena)
    requires WellFormed(ar) && p < |ar.faceStore| && RefsIn(ids, |ar.faceStore|)
    ensures WellFormed(r) && Evolves(ar, r)
    ensures |r.faceStore| == |ar.faceStore| && r.faces == ar.faces
    decreases |ids|
  {
    if ids == [] then ar
    else
      var n := |ids| - 1;
      var r0 := CutFaces(ar, p, ids[..n], solve, cross);
      EvolvesTransitive(ar, r0, CutFace(r0, p, ids[n], solve, cross));
      CutFace(r0, p, ids[n], solve, cross)
  }

  lemma MeetStep(ar: Arena, ne: nat, line: Line, fes: seq<nat>, i: nat, cross: EdgeSolver)
    requires WellFormed(ar) && ne < |ar.edgeStore| && RefsIn(fes, |ar.edgeStore|) && i < |fes|
    ensures Meet(ar, ne, line, fes[..i + 1], cross) == MeetOne(Meet(ar, ne, line, fes[..i], cross), ne, line, fes[i], cross)
  {
    assert fes[..i + 1][..i] == fes[..i];
  }

  lemma CutFacesStep(ar: Arena, p: nat, ids: seq<nat>, i: nat, solve: PlaneSolver, cross: EdgeSolver)
    requires WellFormed(ar) && p < |ar.faceStore| && RefsIn(ids, |ar.faceStore|) && i < |ids|
    ensures CutFaces(ar, p, ids[..i + 1], solve, cross) == CutFace(CutFaces(ar, p, ids[..i], solve, cross), p, ids[i], solve, cross)
  {
    assert ids[..i + 1][..i] == ids[..i];
  }

  /** One crossing: when the lines do not cross nothing changes; when they
      cross at q, q becomes a new active vertex at the end of the arena,
      listed by the polyhedron and appended to both edges' vertex lists.
      No edge changes its flag or loses a vertex. */
  lemma MeetOneCreates(ar: Arena, ne: nat, line: Line, fe: nat, cross: EdgeSolver)
    requires WellFormed(ar) && ne < |ar.edgeStore| && fe < |ar.edgeStore|
    ensures cross(line, LineOf(ar.edgeStore[fe])).None? ==> MeetOne(ar, ne, line, fe, cross) == ar
    ensures cross(line, LineOf(ar.edgeStore[fe])).Some? ==>
      && MeetOne(ar, ne, line, fe, cross).vertexStore
           == ar.vertexStore + [Vertex(cross(line, LineOf(ar.edgeStore[fe])).value, true)]
      && MeetOne(ar, ne, line, fe, cross).vertices == ar.vertices + [|ar.vertexStore|]
      && |ar.vertexStore| in MeetOne(ar, ne, line, fe, cross).edgeStore[ne].vertices
      && |ar.vertexStore| in MeetOne(ar, ne, line, fe, cross).edgeStore[fe].vertices
      && (ne != fe ==>
            && MeetOne(ar, ne, line, fe, cross).edgeStore[ne].vertices == ar.edgeStore[ne].vertices + [|ar.vertexStore|]
            && MeetOne(ar, ne, line, fe, cross).edgeStore[fe].vertices == ar.edgeStore[fe].vertices + [|ar.vertexStore|])
    ensures forall k :: 0 <= k < |ar.edgeStore| ==>
      && MeetOne(ar, ne, line, fe, cross).edgeStore[k].active == ar.edgeStore[k].active
      && ar.edgeStore[k].vertices <= MeetOne(ar, ne, line, fe, cross).edgeStore[k].vertices
      && (k != ne && k != fe ==> MeetOne(ar, ne, line, fe, cross).edgeStore[k] == ar.edgeStore[k])
  {
  }

  /** The crossing loop only extends: the vertex arena and the vertex list
      grow at the end, by at most one vertex per face edge, and no edge
      changes its flag or loses a vertex. */
  lemma {:induction false} MeetExtends(ar: Arena, ne: nat, line: Line, fes: seq<nat>, cross: EdgeSolver)
    requires WellFormed(ar) && ne < |ar.edgeStore| && RefsIn(fes, |ar.edgeStore|)
    ensures ar.vertexStore <= Meet(ar, ne, line, fes, cross).vertexStore
    ensures ar.vertices <= Meet(ar, ne, line, fes, cross).vertices
    ensures |Meet(ar, ne, line, fes, cross).vertexStore| <= |ar.vertexStore| + |fes|
    ensures forall k :: 0 <= k < |ar.edgeStore| ==>
      && Meet(ar, ne, line, fes, cross).edgeStore[k].active == ar.edgeStore[k].active
      && ar.edgeStore[k].vertices <= Meet(ar, ne, line, fes, cross).edgeStore[k].vertices
    decreases |fes|
  {
    if fes != [] {
      var n := |fes| - 1;
      var r0 := Meet(ar, ne, line, fes[..n], cross);
      MeetExtends(ar, ne, line, fes[..n], cross);
      MeetOneCreates(r0, ne, line, fes[n], cross);
      assert Meet(ar, ne, line, fes, cross) == MeetOne(r0, ne, line, fes[n], cross);
    }
  }

  /** Every vertex the crossing loop adds is active, listed by the
      polyhedron and on the new edge. */
  lemma {:induction false} MeetCreates(ar: Arena, ne: nat, line: Line, fes: seq<nat>, cross: EdgeSolver)
    requires WellFormed(ar) && ne < |ar.edgeStore| && RefsIn(fes, |ar.edgeStore|)
    ensures forall k :: |ar.vertexStore| <= k < |Meet(ar, ne, line, fes, cross).vertexStore| ==>
      && Meet(ar, ne, line, fes, cross).vertexStore[k].active
      && k in Meet(ar, ne, line, fes, cross).vertices
      && k in Meet(ar, ne, line, fes, cross).edgeStore[ne].vertices
    decreases |fes|
  {
    if fes != [] {
      var n := |fes| - 1;
      var r0 := Meet(ar, ne, line, fes[..n], cross);
      MeetCreates(ar, ne, line, fes[..n], cross);
      MeetOneCreates(r0, ne, line, fes[n], cross);
      var r := MeetOne(r0, ne, line, fes[n], cross);
      assert Meet(ar, ne, line, fes, cross) == r;
      forall k | |ar.vertexStore| <= k < |r.vertexStore|
        ensures r.vertexStore[k].active && k in r.vertices && k in r.edgeStore[ne].vertices
      {
        if k < |r0.vertexStore| {
          assert k in r0.vertices && k in r0.edgeStore[ne].vertices;
        }
      }
    }
  }

  /** A new edge on line: it is active, carries the line, is listed by the
      polyhedron and appended to the edge lists of face f and of the new
      face p; no other face changes; every vertex made by its crossings is
      active, listed, and on the new edge. */
  lemma AttachEdgeCreates(ar: Arena, p: nat, f: nat, line: Line, cross: EdgeSolver)
    requires WellFormed(ar) && p < |ar.faceStore| && f < |ar.faceStore|
    ensures |AttachEdge(ar, p, f, line, cross).edgeStore| == |ar.edgeStore| + 1
    ensures LineOf(AttachEdge(ar, p, f, line, cross).edgeStore[|ar.edgeStore|]) == line
    ensures AttachEdge(ar, p, f, line, cross).edgeStore[|ar.edgeStore|].active
    ensures AttachEdge(ar, p, f, line, cross).edges == ar.edges + [|ar.edgeStore|]
    ensures p != f ==>
      && AttachEdge(ar, p, f, line, cross).faceStore[f].edges == ar.faceStore[f].edges + [|ar.edgeStore|]
      && AttachEdge(ar, p, f, line, cross).faceStore[p].edges == ar.faceStore[p].edges + [|ar.edgeStore|]
    ensures forall k :: 0 <= k < |ar.faceStore| && k != p && k != f ==>
      AttachEdge(ar, p, f, line, cross).faceStore[k] == ar.faceStore[k]
    ensures ar.vertices <= AttachEdge(ar, p, f, line, cross).vertices
    ensures forall k :: |ar.vertexStore| <= k < |AttachEdge(ar, p, f, line, cross).vertexStore| ==>
      && AttachEdge(ar, p, f, line, cross).vertexStore[k].active
      && k in AttachEdge(ar, p, f, line, cross).vertices
      && k in AttachEdge(ar, p, f, line, cross).edgeStore[|ar.edgeStore|].vertices
  {
    var ne := |ar.edgeStore|;
    var ar1 := ar.(edgeStore := ar.edgeStore + [Edge(line.t, line.a, [], true)]);
    var ar2 := Meet(ar1, ne, line, ar.faceStore[f].edges, cross);
    MeetExtends(ar1, ne, line, ar.faceStore[f].edges, cross);
    MeetCreates(ar1, ne, line, ar.faceStore[f].edges, cross);
    assert AttachEdge(ar, p, f, line, cross) == ReferEdge(ar2, p, f, ne);
  }

  /** add_plane_to_polyhedron: the plane becomes a new face at the end of the
      arena, is cut against every listed face, is appended to the face list,
      and then vertices are judged against the zone count and the
      polyhedron is pruned. */
  function AddPlaneSpec(ar: Arena, plane: Plane, zone: int, solve: PlaneSolver, cross: EdgeSolver): (r: Arena)
    requires WellFormed(ar)
    ensures WellFormed(r) && Evolves(ar, r) && |r.faceStore| == |ar.faceStore| + 1
  {
    var p := |ar.faceStore|;
    var ar1 := ar.(faceStore := ar.faceStore + [Face(plane.n, plane.a, [], true)]);
    assert WellFormed(ar1) && Evolves(ar, ar1);
    var ar2 := CutFaces(ar1, p, ar.faces, solve, cross);
    var ar3 := ar2.(faces := ar2.faces + [p]);
    assert WellFormed(ar3) && Evolves(ar2, ar3);
    var ar4 := DeactivateSpec(ar3, zone);
    DeactivateExactly(ar3, zone);
    PruneNeverReactivates(ar4);
    PruneEstablishesLiveness(ar4);
    EvolvesTransitive(ar, ar1, ar2);
    EvolvesTransitive(ar, ar2, ar3);
    EvolvesTransitive(ar, ar3, ar4);
    EvolvesTransitive(ar, ar4, PruneSpec(ar4));
    PruneSpec(ar4)
  }

  // ------------------------------------------------------- properties

  /** Compaction keeps exactly the active entries. */
  lemma {:induction false} KeepMembers(ids: seq<nat>, mask: seq<bool>, x: nat)
    requires RefsIn(ids, |mask|) && x < |mask|
    ensures x in Keep(ids, mask) <==> x in ids && mask[x]
    decreases |ids|
  {
    if ids != [] {
      var n := |ids| - 1;
      KeepMembers(ids[..n], mask, x);
      assert ids == ids[..n] + [ids[n]];
    }
  }

  /** Compaction preserves order: it distributes over concatenation. */
  lemma {:induction false} KeepConcat(a: seq<nat>, b: seq<nat>, mask: seq<bool>)
    requires RefsIn(a, |mask|) && RefsIn(b, |mask|)
    ensures Keep(a + b, mask) == Keep(a, mask) + Keep(b, mask)
    decreases |b|
  {
    if b == [] {
      assert a + b == a;
    } else {
      var n := |b| - 1;
      KeepConcat(a, b[..n], mask);
      assert (a + b)[..|a + b| - 1] == a + b[..n];
    }
  }

  /** A list whose entries are all active is left as it is. */
  lemma {:induction false} KeepAllActive(ids: seq<nat>, mask: seq<bool>)
    requires RefsIn(ids, |mask|)
    requires forall i :: 0 <= i < |ids| ==> mask[ids[i]]
    ensures Keep(ids, mask) == ids
    decreases |ids|
  {
    if ids != [] {
      var n := |ids| - 1;
      KeepAllActive(ids[..n], mask);
      assert ids == ids[..n] + [ids[n]];
    }
  }

  /** Pruning never sets a flag, never changes geometry or child lists, and
      leaves the arenas as large as they were. */
  lemma PruneNeverReactivates(ar: Arena)
    requires WellFormed(ar)
    ensures var r := PruneSpec(ar);
      && Evolves(ar, r)
      && |r.faceStore| == |ar.faceStore| && |r.edgeStore| == |ar.edgeStore| && r.vertexStore == ar.vertexStore
      && (forall k :: 0 <= k < |ar.faceStore| ==> r.faceStore[k].edges == ar.faceStore[k].edges)
      && (forall k :: 0 <= k < |ar.edgeStore| ==> r.edgeStore[k].vertices == ar.edgeStore[k].vertices)
  {
  }

  /** Pruning marks a listed edge inactive exactly when check_active of its
      vertices fails, and a listed face exactly when check_active of its
      (already marked) edges fails; nothing unlisted changes. */
  lemma PruneMarksExactly(ar: Arena)
    requires WellFormed(ar)
    ensures var r := PruneSpec(ar);
      && (forall k :: 0 <= k < |ar.edgeStore| ==>
            (r.edgeStore[k].active <==> ar.edgeStore[k].active && (k !in ar.edges || EdgeLive(ar.vertexStore, ar.edgeStore[k]))))
      && (forall k :: 0 <= k < |ar.faceStore| ==>
            (r.faceStore[k].active <==> ar.faceStore[k].active && (k !in ar.faces || FaceLive(r.edgeStore, ar.faceStore[k]))))
  {
  }

  /** After pruning, the lists hold exactly the entries that are still
      active, every listed vertex is active, and every listed edge and face
      satisfies the liveness rule against the new flags. */
  lemma PruneEstablishesLiveness(ar: Arena)
    requires WellFormed(ar)
    ensures var r := PruneSpec(ar);
      && WellFormed(r)
      && (forall x :: x in r.faces <==> x in ar.faces && r.faceStore[x].active)
      && (forall x :: x in r.edges <==> x in ar.edges && r.edgeStore[x].active)
      && (forall x :: x in r.vertices <==> x in ar.vertices && r.vertexStore[x].active)
      && (forall x :: x in r.edges ==> EdgeLive(r.vertexStore, r.edgeStore[x]))
      && (forall x :: x in r.faces ==> FaceLive(r.edgeStore, r.faceStore[x]))
  {
    var r := PruneSpec(ar);
    forall x | x in r.faces || x in ar.faces
      ensures x in r.faces <==> x in ar.faces && r.faceStore[x].active
    {
      KeepMembers(ar.faces, FaceMask(r.faceStore), x);
    }
    forall x | x in r.edges || x in ar.edges
      ensures x in r.edges <==> x in ar.edges && r.edgeStore[x].active
    {
      KeepMembers(ar.edges, EdgeMask(r.edgeStore), x);
    }
    forall x | x in r.vertices || x in ar.vertices
      ensures x in r.vertices <==> x in ar.vertices && r.vertexStore[x].active
    {
      KeepMembers(ar.vertices, VertexMask(r.vertexStore), x);
    }
    forall x | x in r.edges ensures EdgeLive(r.vertexStore, r.edgeStore[x]) {
      assert r.edgeStore[x].vertices == ar.edgeStore[x].vertices;
    }
  }

  /** Pruning one face only marks edges of that face inactive and compacts
      that face's edge list to its active edges, in order. */
  lemma PruneFaceKeeps(ar: Arena, f: nat)
    requires WellFormed(ar) && f < |ar.faceStore|
    ensures var r := PruneFaceSpec(ar, f);
      && WellFormed(r) && Evolves(ar, r)
      && |r.faceStore| == |ar.faceStore| && |r.edgeStore| == |ar.edgeStore| && r.vertexStore == ar.vertexStore
      && r.faces == ar.faces && r.edges == ar.edges && r.vertices == ar.vertices
      && (forall x :: x in r.faceStore[f].edges <==> x in ar.faceStore[f].edges && r.edgeStore[x].active)
  {
    var r := PruneFaceSpec(ar, f);
    forall x | x in r.faceStore[f].edges || x in ar.faceStore[f].edges
      ensures x in r.faceStore[f].edges <==> x in ar.faceStore[f].edges && r.edgeStore[x].active
    {
      KeepMembers(ar.faceStore[f].edges, EdgeMask(r.edgeStore), x);
    }
  }

  /** Pruning one edge only compacts its vertex list to its active vertices. */
  lemma PruneEdgeKeeps(ar: Arena, e: nat)
    requires WellFormed(ar) && e < |ar.edgeStore|
    ensures var r := PruneEdgeSpec(ar, e);
      && WellFormed(r) && Evolves(ar, r)
      && r.faceStore == ar.faceStore && |r.edgeStore| == |ar.edgeStore| && r.vertexStore == ar.vertexStore
      && r.faces == ar.faces && r.edges == ar.edges && r.vertices == ar.vertices
      && (forall x :: x in r.edgeStore[e].vertices <==> x in ar.edgeStore[e].vertices && r.vertexStore[x].active)
  {
    var r := PruneEdgeSpec(ar, e);
    forall x | x in r.edgeStore[e].vertices || x in ar.edgeStore[e].vertices
      ensures x in r.edgeStore[e].vertices <==> x in ar.edgeStore[e].vertices && r.vertexStore[x].active
    {
      KeepMembers(ar.edgeStore[e].vertices, VertexMask(r.vertexStore), x);
    }
  }

  /** The zone count deactivates a listed vertex exactly when it lies beyond
      zone_number (and at least one) of the listed faces; it changes nothing
      else. */
  lemma DeactivateExactly(ar: Arena, zone: int)
    requires WellFormed(ar)
    ensures var r := DeactivateSpec(ar, zone);
      && WellFormed(r) && Evolves(ar, r)
      && r.faceStore == ar.faceStore && r.edgeStore == ar.edgeStore
      && r.faces == ar.faces && r.edges == ar.edges && r.vertices == ar.vertices
      && (forall k :: 0 <= k < |ar.vertexStore| ==>
            (r.vertexStore[k].active <==> ar.vertexStore[k].active && (k !in ar.vertices || !Exterior(ar.vertexStore[k].v, Planes(ar), zone))))
  {
  }

  /** No plane is beyond a point whose count is zero. */
  lemma {:induction false} CountZeroMeansInside(p: Vec3, planes: seq<Plane>)
    requires OutsideCount(p, planes) == 0
    ensures forall i :: 0 <= i < |planes| ==> !Beyond(p, planes[i])
    decreases |planes|
  {
    if planes != [] {
      var n := |planes| - 1;
      CountZeroMeansInside(p, planes[..n]);
      assert forall i :: 0 <= i < n ==> planes[..n][i] == planes[i];
    }
  }

  /** The zone rule after the count: a listed vertex that is still active
      lies beyond fewer than zone_number listed faces, or none; for the
      first zone it lies beyond none of them. */
  lemma DeactivateEstablishesZone(ar: Arena, zone: int)
    requires WellFormed(ar)
    ensures WellFormed(DeactivateSpec(ar, zone)) && InZone(DeactivateSpec(ar, zone), zone)
    ensures var r := DeactivateSpec(ar, zone);
      forall x :: x in r.vertices && r.vertexStore[x].active ==>
        var c := OutsideCount(r.vertexStore[x].v, Planes(r));
        (c == 0 || c < zone)
        && (zone == 1 ==> forall i :: 0 <= i < |r.faces| ==> !Beyond(r.vertexStore[x].v, Planes(r)[i]))
  {
    var r := DeactivateSpec(ar, zone);
    assert Planes(r) == Planes(ar);
    forall x | x in r.vertices && r.vertexStore[x].active
      ensures zone == 1 ==> forall i :: 0 <= i < |r.faces| ==> !Beyond(r.vertexStore[x].v, Planes(r)[i])
    {
      if zone == 1 {
        CountZeroMeansInside(r.vertexStore[x].v, Planes(r));
      }
    }
  }

  /** Dropping faces from a list, keeping their planes, never raises the
      number of planes a point lies beyond. */
  lemma {:induction false} KeepCount(p: Vec3, fs: seq<Face>, gs: seq<Face>, ids: seq<nat>, mask: seq<bool>)
    requires RefsIn(ids, |fs|) && |gs| == |fs| == |mask|
    requires forall k :: 0 <= k < |fs| ==> PlaneOf(gs[k]) == PlaneOf(fs[k])
    ensures OutsideCount(p, PlanesOf(gs, Keep(ids, mask))) <= OutsideCount(p, PlanesOf(fs, ids))
    decreases |ids|
  {
    if ids != [] {
      var n := |ids| - 1;
      KeepCount(p, fs, gs, ids[..n], mask);
      assert PlanesOf(fs, ids)[..n] == PlanesOf(fs, ids[..n]);
      var kept := Keep(ids[..n], mask);
      var last := PlaneOf(fs[ids[n]]);
      assert OutsideCount(p, PlanesOf(fs, ids))
          == OutsideCount(p, PlanesOf(fs, ids[..n])) + (if Beyond(p, last) then 1 else 0);
      if mask[ids[n]] {
        var ks := kept + [ids[n]];
        assert Keep(ids, mask) == ks;
        assert PlanesOf(gs, ks)[..|kept|] == PlanesOf(gs, kept);
        assert PlanesOf(gs, ks)[|kept|] == last;
      } else {
        assert Keep(ids, mask) == kept;
      }
    }
  }

  /** Pruning keeps the zone rule: it drops faces and vertices from the lists
      and changes no geometry. */
  lemma PruneKeepsZone(ar: Arena, zone: int)
    requires WellFormed(ar) && InZone(ar, zone)
    ensures WellFormed(PruneSpec(ar)) && InZone(PruneSpec(ar), zone)
  {
    var r := PruneSpec(ar);
    PruneNeverReactivates(ar);
    PruneEstablishesLiveness(ar);
    forall x | x in r.vertices && r.vertexStore[x].active
      ensures !Exterior(r.vertexStore[x].v, Planes(r), zone)
    {
      KeepMembers(ar.vertices, VertexMask(ar.vertexStore), x);
      KeepCount(r.vertexStore[x].v, ar.faceStore, r.faceStore, ar.faces, FaceMask(r.faceStore));
    }
  }

  /** A pass that keeps the lists and the geometry keeps the zone rule. */
  lemma InZoneSameGeometry(x: Arena, y: Arena, zone: int)
    requires WellFormed(x) && WellFormed(y) && Evolves(x, y) && InZone(x, zone)
    requires y.faces == x.faces && y.vertices == x.vertices
    ensures InZone(y, zone)
  {
    assert Planes(y) == Planes(x);
  }

  /** The minimum-topology test marks a listed face inactive exactly when it
      has fewer than three edges, a listed edge exactly when it has fewer
      than two vertices, and changes nothing else. */
  lemma SingularExactly(ar: Arena)
    requires WellFormed(ar)
    ensures var r := SingularSpec(ar);
      && WellFormed(r) && Evolves(ar, r)
      && r.vertexStore == ar.vertexStore
      && r.faces == ar.faces && r.edges == ar.edges && r.vertices == ar.vertices
      && |r.faceStore| == |ar.faceStore| && |r.edgeStore| == |ar.edgeStore|
      && (forall k :: 0 <= k < |ar.faceStore| ==>
            (r.faceStore[k].edges == ar.faceStore[k].edges
             && (r.faceStore[k].active <==> ar.faceStore[k].active && (k !in ar.faces || |ar.faceStore[k].edges| >= 3))))
      && (forall k :: 0 <= k < |ar.edgeStore| ==>
            (r.edgeStore[k].vertices == ar.edgeStore[k].vertices
             && (r.edgeStore[k].active <==> ar.edgeStore[k].active && (k !in ar.edges || |ar.edgeStore[k].vertices| >= 2))))
  {
  }

  /** Folding a plane in appends it as the last face of the arena and keeps
      the lifecycle: nothing earlier changes its geometry or comes back to
      life. Afterwards the lists hold active entities only. */
  lemma AddPlaneAppends(ar: Arena, plane: Plane, zone: int, solve: PlaneSolver, cross: EdgeSolver)
    requires WellFormed(ar)
    ensures PlaneOf(AddPlaneSpec(ar, plane, zone, solve, cross).faceStore[|ar.faceStore|]) == plane
    ensures ListedActive(AddPlaneSpec(ar, plane, zone, solve, cross))
  {
    var p := |ar.faceStore|;
    var ar1 := ar.(faceStore := ar.faceStore + [Face(plane.n, plane.a, [], true)]);
    var ar2 := CutFaces(ar1, p, ar.faces, solve, cross);
    var ar3 := ar2.(faces := ar2.faces + [p]);
    var ar4 := DeactivateSpec(ar3, zone);
    DeactivateExactly(ar3, zone);
    PruneNeverReactivates(ar4);
    PruneEstablishesLiveness(ar4);
    assert PruneSpec(ar4) == AddPlaneSpec(ar, plane, zone, solve, cross);
    assert PlaneOf(ar1.faceStore[p]) == plane;
  }

  /** After a plane is folded in, the zone rule holds against the new list
      of faces: every vertex was judged against all of them, and pruning
      only dropped faces and vertices. */
  lemma AddPlaneInZone(ar: Arena, plane: Plane, zone: int, solve: PlaneSolver, cross: EdgeSolver)
    requires WellFormed(ar)
    ensures InZone(AddPlaneSpec(ar, plane, zone, solve, cross), zone)
  {
    var p := |ar.faceStore|;
    var ar1 := ar.(faceStore := ar.faceStore + [Face(plane.n, plane.a, [], true)]);
    var ar2 := CutFaces(ar1, p, ar.faces, solve, cross);
    var ar3 := ar2.(faces := ar2.faces + [p]);
    var ar4 := DeactivateSpec(ar3, zone);
    DeactivateEstablishesZone(ar3, zone);
    PruneKeepsZone(ar4, zone);
    assert PruneSpec(ar4) == AddPlaneSpec(ar, plane, zone, solve, cross);
  }

  /** Zone-1 containment: every listed vertex lies inside every listed face
      plane, within the tolerance. */
  ghost predicate Contained(r: Arena)
    requires WellFormed(r)
  {
    forall x, i :: x in r.vertices && 0 <= i < |r.faces| ==> !Beyond(r.vertexStore[x].v, Planes(r)[i])
  }

  /** For the first zone the zone rule is containment: a count below one is
      a count of zero. */
  lemma ZoneOneContained(r: Arena)
    requires WellFormed(r) && InZone(r, 1)
    requires forall x :: x in r.vertices ==> r.vertexStore[x].active
    ensures Contained(r)
  {
    forall x | x in r.vertices
      ensures forall i :: 0 <= i < |r.faces| ==> !Beyond(r.vertexStore[x].v, Planes(r)[i])
    {
      CountZeroMeansInside(r.vertexStore[x].v, Planes(r));
    }
  }

  /** Every listed face, edge and vertex is active. */
  ghost predicate ListedActive(r: Arena)
    requires WellFormed(r)
  {
    && (forall x :: x in r.faces ==> r.faceStore[x].active)
    && (forall x :: x in r.edges ==> r.edgeStore[x].active)
    && (forall x :: x in r.vertices ==> r.vertexStore[x].active)
  }

  /** Planes with parallel normals never produce an edge. */
  lemma ParallelPlanesGiveNoEdge(solve: PlaneSolver, f: Plane, g: Plane, s: real)
    requires f.n == Scale(g.n, s)
    ensures PlaneIntersection(solve, f, g) == None
  {
    var t := Cross3(f.n, g.n);
    var m := g.n;
    assert f.n[0] == m[0] * s && f.n[1] == m[1] * s && f.n[2] == m[2] * s;
    assert t[0] == m[1] * s * m[2] - m[2] * s * m[1];
    assert t[1] == m[2] * s * m[0] - m[0] * s * m[2];
    assert t[2] == m[0] * s * m[1] - m[1] * s * m[0];
    assert t == [0.0, 0.0, 0.0];
    Inner3(t, t);
  }

  /** The compaction loop of prune_polyhedron: a new list of the active entries. */
  method Compact(ids: seq<nat>, mask: seq<bool>) returns (kept: seq<nat>)
    requires RefsIn(ids, |mask|)
    ensures kept == Keep(ids, mask)
  {
    kept := [];
    var i := 0;
    while i < |ids|
      invariant 0 <= i <= |ids|
      invariant kept == Keep(ids[..i], mask)
    {
      assert ids[..i + 1][..i] == ids[..i];
      if mask[ids[i]] {
        kept := kept + [ids[i]];
      }
      i := i + 1;
    }
    assert ids[..|ids|] == ids;
  }

  // ------------------------------------------------------- the polyhedron object

  class Polyhedron {
    var faceStore: seq<Face>
    var edgeStore: seq<Edge>
    var vertexStore: seq<Vertex>
    var faces: seq<nat>
    var edges: seq<nat>
    var vertices: seq<nat>
    const zoneNumber: int

    function Snapshot(): Arena
      reads this
    {
      Arena(faceStore, edgeStore, vertexStore, faces, edges, vertices)
    }

    predicate Valid()
      reads this
    {
      WellFormed(Snapshot())
    }

    /** polyhedron(zone_number): empty lists. */
    constructor (zoneNumber: int)
      ensures Valid() && this.zoneNumber == zoneNumber
      ensures Snapshot() == Arena([], [], [], [], [], [])
    {
      this.zoneNumber := zoneNumber;
      faceStore, edgeStore, vertexStore := [], [], [];
      faces, edges, vertices := [], [], [];
    }

    /** Marks inactive every edge listed in ids whose vertices are all inactive. */
    method MarkDeadEdges(ids: seq<nat>)
      requires Valid() && RefsIn(ids, |edgeStore|)
      modifies this
      ensures Valid()
      ensures Snapshot() == old(Snapshot().(edgeStore := MarkEdges(edgeStore, vertexStore, ids)))
    {
      var i := 0;
      while i < |ids|
        invariant 0 <= i <= |ids|
        invariant Valid()
        invariant Snapshot() == old(Snapshot().(edgeStore := MarkEdges(edgeStore, vertexStore, ids[..i])))
      {
        var e := ids[i];
        if !CheckActive(Select(VertexMask(vertexStore), edgeStore[e].vertices)) {
          edgeStore := edgeStore[e := edgeStore[e].(active := false)];
        }
        assert forall k :: k in ids[..i + 1] <==> k in ids[..i] || k == e;
        i := i + 1;
      }
      assert ids[..|ids|] == ids;
    }

    /** Marks inactive every face listed in ids whose edges are all inactive. */
    method MarkDeadFaces(ids: seq<nat>)
      requires Valid() && RefsIn(ids, |faceStore|)
      modifies this
      ensures Valid()
      ensures Snapshot() == old(Snapshot().(faceStore := MarkFaces(faceStore, edgeStore, ids)))
    {
      var i := 0;
      while i < |ids|
        invariant 0 <= i <= |ids|
        invariant Valid()
        invariant Snapshot() == old(Snapshot().(faceStore := MarkFaces(faceStore, edgeStore, ids[..i])))
      {
        var f := ids[i];
        if !CheckActive(Select(EdgeMask(edgeStore), faceStore[f].edges)) {
          faceStore := faceStore[f := faceStore[f].(active := false)];
        }
        assert forall k :: k in ids[..i + 1] <==> k in ids[..i] || k == f;
        i := i + 1;
      }
      assert ids[..|ids|] == ids;
    }

    /** deactivate_external_vertices: each listed vertex is counted against
        every listed face; the count stops and the vertex is deactivated as
        soon as it reaches zone_number. */
    method DeactivateExternalVertices()
      requires Valid()
      modifies this
      ensures Valid()
      ensures Snapshot() == DeactivateSpec(old(Snapshot()), zoneNumber)
    {
      var planes := Planes(Snapshot());
      ghost var vs0 := vertexStore;
      var i := 0;
      while i < |vertices|
        invariant 0 <= i <= |vertices|
        invariant Snapshot() == old(Snapshot()).(vertexStore := vertexStore)
        invariant |vertexStore| == |vs0|
        invariant forall k :: 0 <= k < |vs0| ==>
          vertexStore[k] == if k in vertices[..i] && Exterior(vs0[k].v, planes, zoneNumber)
                            then vs0[k].(active := false) else vs0[k]
      {
        var w := vertices[i];
        var p := vertexStore[w].v;
        assert p == vs0[w].v;
        var exterior := IsExterior(p, planes);
        if exterior {
          vertexStore := vertexStore[w := vertexStore[w].(active := false)];
        }
        assert forall k :: k in vertices[..i + 1] <==> k in vertices[..i] || k == w;
        i := i + 1;
      }
      assert vertices[..|vertices|] == vertices;
      DeactivateExactly(old(Snapshot()), zoneNumber);
    }

    /** The plane loop for one vertex: counts the planes the vertex lies
        beyond and stops as soon as the count reaches the zone number. */
    method IsExterior(p: Vec3, planes: seq<Plane>) returns (exterior: bool)
      ensures exterior <==> Exterior(p, planes, zoneNumber)
    {
      var count := 0;
      exterior := false;
      var j := 0;
      while j < |planes|
        invariant 0 <= j <= |planes|
        invariant count == OutsideCount(p, planes[..j])
        invariant count == 0 || count < zoneNumber
        invariant !exterior
      {
        assert planes[..j + 1][..j] == planes[..j];
        if Beyond(p, planes[j]) {
          count := count + 1;
          if count >= zoneNumber {
            OutsideCountPrefix(p, planes, j + 1);
            exterior := true;
            return;
          }
        }
        j := j + 1;
      }
      assert planes[..|planes|] == planes;
    }

    /** The face loop of deactivate_singular_components. */
    method DeactivateThinFaces()
      requires Valid()
      modifies this
      ensures Valid()
      ensures Snapshot() == old(Snapshot().(faceStore := ThinFacesOff(faceStore, faces)))
    {
      ghost var fs0 := faceStore;
      var i := 0;
      while i < |faces|
        invariant 0 <= i <= |faces|
        invariant Valid()
        invariant Snapshot() == old(Snapshot()).(faceStore := faceStore)
        invariant |faceStore| == |fs0|
        invariant forall k :: 0 <= k < |fs0| ==>
          faceStore[k] == if k in faces[..i] && |fs0[k].edges| < 3 then fs0[k].(active := false) else fs0[k]
      {
        var f := faces[i];
        if |faceStore[f].edges| < 3 {
          faceStore := faceStore[f := faceStore[f].(active := false)];
        }
        assert forall k :: k in faces[..i + 1] <==> k in faces[..i] || k == f;
        i := i + 1;
      }
      assert faces[..|faces|] == faces;
    }

    /** The edge loop of deactivate_singular_components. */
    method DeactivateThinEdges()
      requires Valid()
      modifies this
      ensures Valid()
      ensures Snapshot() == old(Snapshot().(edgeStore := ThinEdgesOff(edgeStore, edges)))
    {
      ghost var es0 := edgeStore;
      var i := 0;
      while i < |edges|
        invariant 0 <= i <= |edges|
        invariant Valid()
        invariant Snapshot() == old(Snapshot()).(edgeStore := edgeStore)
        invariant |edgeStore| == |es0|
        invariant forall k :: 0 <= k < |es0| ==>
          edgeStore[k] == if k in edges[..i] && |es0[k].vertices| < 2 then es0[k].(active := false) else es0[k]
      {
        var e := edges[i];
        if |edgeStore[e].vertices| < 2 {
          edgeStore := edgeStore[e := edgeStore[e].(active := false)];
        }
        assert forall k :: k in edges[..i + 1] <==> k in edges[..i] || k == e;
        i := i + 1;
      }
      assert edges[..|edges|] == edges;
    }

    /** deactivate_singular_components */
    method DeactivateSingularComponents()
      requires Valid()
      modifies this
      ensures Valid()
      ensures Snapshot() == SingularSpec(old(Snapshot()))
    {
      DeactivateThinFaces();
      DeactivateThinEdges();
    }

    /** The inner loop of add_plane_to_polyhedron. */
    method MeetEdges(ne: nat, line: Line, fes: seq<nat>, cross: EdgeSolver)
      requires Valid() && ne < |edgeStore| && RefsIn(fes, |edgeStore|)
      modifies this
      ensures Valid()
      ensures Snapshot() == Meet(old(Snapshot()), ne, line, fes, cross)
    {
      ghost var ar0 := Snapshot();
      var j := 0;
      while j < |fes|
        invariant 0 <= j <= |fes|
        invariant Snapshot() == Meet(ar0, ne, line, fes[..j], cross)
      {
        MeetStep(ar0, ne, line, fes, j, cross);
        MeetEdge(ne, line, fes[j], cross);
        j := j + 1;
      }
      assert fes[..|fes|] == fes;
    }

    /** One turn of the inner loop: edge fe crossed with the new edge ne. */
    method MeetEdge(ne: nat, line: Line, fe: nat, cross: EdgeSolver)
      requires Valid() && ne < |edgeStore| && fe < |edgeStore|
      modifies this
      ensures Snapshot() == MeetOne(old(Snapshot()), ne, line, fe, cross)
    {
      var crossing := cross(line, LineOf(edgeStore[fe]));
      if crossing.Some? {
        var w := |vertexStore|;
        vertexStore := vertexStore + [Vertex(crossing.value, true)];
        edgeStore := edgeStore[ne := AddVertexRef(edgeStore[ne], w)];
        edgeStore := edgeStore[fe := AddVertexRef(edgeStore[fe], w)];
        vertices := vertices + [w];
      }
    }

    /** The body of the face loop of add_plane_to_polyhedron once an edge exists. */
    method AttachNewEdge(p: nat, f: nat, line: Line, cross: EdgeSolver)
      requires Valid() && p < |faceStore| && f < |faceStore|
      modifies this
      ensures Valid()
      ensures Snapshot() == AttachEdge(old(Snapshot()), p, f, line, cross)
    {
      ghost var ar := Snapshot();
      var ne := |edgeStore|;
      edgeStore := edgeStore + [Edge(line.t, line.a, [], true)];
      ghost var ar1 := Snapshot();
      assert ar1 == ar.(edgeStore := ar.edgeStore + [Edge(line.t, line.a, [], true)]);
      MeetEdges(ne, line, faceStore[f].edges, cross);
      ghost var ar2 := Snapshot();
      assert ar2 == Meet(ar1, ne, line, ar.faceStore[f].edges, cross);
      assert WellFormed(ar2) && ne < |edgeStore|;
      faceStore := faceStore[f := AddEdgeRef(faceStore[f], ne)];
      faceStore := faceStore[p := AddEdgeRef(faceStore[p], ne)];
      edges := edges + [ne];
      assert Snapshot() == ReferEdge(ar2, p, f, ne);
      assert Snapshot() == AttachEdge(ar, p, f, line, cross);
    }

    /** One turn of the face loop of add_plane_to_polyhedron. */
    method CutFaceBy(p: nat, f: nat, solve: PlaneSolver, cross: EdgeSolver)
      requires Valid() && p < |faceStore| && f < |faceStore|
      modifies this
      ensures Valid()
      ensures Snapshot() == CutFace(old(Snapshot()), p, f, solve, cross)
    {
      var edge := PlaneIntersection(solve, PlaneOf(faceStore[f]), PlaneOf(faceStore[p]));
      if edge.Some? {
        AttachNewEdge(p, f, edge.value, cross);
      }
    }

    /** The face loop of add_plane_to_polyhedron. */
    method CutListedFaces(p: nat, solve: PlaneSolver, cross: EdgeSolver)
      requires Valid() && p < |faceStore|
      modifies this
      ensures Valid()
      ensures Snapshot() == CutFaces(old(Snapshot()), p, old(faces), solve, cross)
    {
      ghost var ar0 := Snapshot();
      var i := 0;
      while i < |faces|
        invariant 0 <= i <= |faces| && faces == ar0.faces && p < |faceStore|
        invariant Valid()
        invariant Snapshot() == CutFaces(ar0, p, faces[..i], solve, cross)
      {
        CutFacesStep(ar0, p, faces, i, solve, cross);
        CutFaceBy(p, faces[i], solve, cross);
        i := i + 1;
      }
      assert faces[..|faces|] == faces;
    }

    /** add_plane_to_polyhedron */
    method AddPlaneToPolyhedron(plane: Plane, solve: PlaneSolver, cross: EdgeSolver)
      requires Valid()
      modifies this
      ensures Valid()
      ensures Snapshot() == AddPlaneSpec(old(Snapshot()), plane, zoneNumber, solve, cross)
    {
      ghost var ar0 := Snapshot();
      var p := |faceStore|;
      faceStore := faceStore + [Face(plane.n, plane.a, [], true)];
      ghost var ar1 := Snapshot();
      assert ar1 == ar0.(faceStore := ar0.faceStore + [Face(plane.n, plane.a, [], true)]);
      CutListedFaces(p, solve, cross);
      ghost var ar2 := Snapshot();
      faces := faces + [p];
      assert Snapshot() == ar2.(faces := ar2.faces + [p]);
      DeactivateExternalVertices();
      PrunePolyhedron();
    }

    /** prune_polyhedron(polyhedron) */
    method PrunePolyhedron()
      requires Valid()
      modifies this
      ensures Valid()
      ensures Snapshot() == PruneSpec(old(Snapshot()))
    {
      ghost var ar0 := Snapshot();
      MarkDeadEdges(edges);
      MarkDeadFaces(faces);
      faces := Compact(faces, FaceMask(faceStore));
      edges := Compact(edges, EdgeMask(edgeStore));
      vertices := Compact(vertices, VertexMask(vertexStore));
      assert Snapshot() == PruneSpec(ar0);
      PruneEstablishesLiveness(ar0);
    }

    /** prune_polyhedron(face): the face's edges are marked, then its edge
        list is compacted. */
    method PruneFace(f: nat)
      requires Valid() && f < |faceStore|
      modifies this
      ensures Valid()
      ensures Snapshot() == PruneFaceSpec(old(Snapshot()), f)
    {
      MarkDeadEdges(faceStore[f].edges);
      var kept := Compact(faceStore[f].edges, EdgeMask(edgeStore));
      faceStore := faceStore[f := faceStore[f].(edges := kept)];
    }

    /** prune_polyhedron(edge): the edge's vertex list is compacted. */
    method PruneEdge(e: nat)
      requires Valid() && e < |edgeStore|
      modifies this
      ensures Valid()
      ensures Snapshot() == PruneEdgeSpec(old(Snapshot()), e)
    {
      var kept := Compact(edgeStore[e].vertices, VertexMask(vertexStore));
      edgeStore := edgeStore[e := edgeStore[e].(vertices := kept)];
    }
  }
}
