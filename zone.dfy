/** create_nth_brillouin_zone: the candidate Bragg planes of every non-origin
    reciprocal-lattice point within a cube of integer coefficients, sorted by
    squared distance and folded one by one into an empty polyhedron, followed
    by the final clean-up passes. */
module BrillouinZone {
  import opened Vectors
  import opened Sorting
  import opened Polyhedra

  /** bragg_plane: the perpendicular-bisector plane of the origin and a
      reciprocal-lattice point (it takes a square root, so it is a parameter). */
  type BraggPlaner = Vec3 -> Plane

  /** The integer coefficients (i, j, k) of a lattice point i b0 + j b1 + k b2. */
  datatype Coeffs = Coeffs(i: int, j: int, k: int)

  const Origin := Coeffs(0, 0, 0)

  /** The check limit L = min(zone_number + 1, 3). */
  function CheckLimit(zone: int): (l: int)
    ensures l <= 3 && l <= zone + 1
    ensures l == 3 || l == zone + 1
  {
    if zone + 1 < 3 then zone + 1 else 3
  }

  function NonOrigin(c: Coeffs): seq<Coeffs>
  {
    if c == Origin then [] else [c]
  }

  // ---------------------------------------------------- the enumeration order

  /** The innermost loop: (i, j, k') for -L <= k' < k, the origin skipped. */
  function Row(l: int, i: int, j: int, k: int): seq<Coeffs>
    requires -l <= k
    decreases k + l
  {
    if k == -l then [] else Row(l, i, j, k - 1) + NonOrigin(Coeffs(i, j, k - 1))
  }

  /** The middle loop: every full row (i, j', .) for -L <= j' < j. */
  function Slab(l: int, i: int, j: int): seq<Coeffs>
    requires 0 <= l && -l <= j
    decreases j + l
  {
    if j == -l then [] else Slab(l, i, j - 1) + Row(l, i, j - 1, l + 1)
  }

  /** The outer loop: every full slab (i', ., .) for -L <= i' < i. */
  function Grid(l: int, i: int): seq<Coeffs>
    requires 0 <= l && -l <= i
    decreases i + l
  {
    if i == -l then [] else Grid(l, i - 1) + Slab(l, i - 1, l + 1)
  }

  /** The coefficient triples in the order the three loops visit them. */
  function Triples(l: int): seq<Coeffs>
  {
    if l < 0 then [] else Grid(l, l + 1)
  }

  predicate InCube(l: int, c: Coeffs)
  {
    -l <= c.i <= l && -l <= c.j <= l && -l <= c.k <= l
  }

  /** Lexicographic order on (i, j, k): the order of the loops. */
  predicate LexLess(c: Coeffs, d: Coeffs)
  {
    c.i < d.i || (c.i == d.i && (c.j < d.j || (c.j == d.j && c.k < d.k)))
  }

  predicate Ascending(s: seq<Coeffs>)
  {
    forall a, b :: 0 <= a < b < |s| ==> LexLess(s[a], s[b])
  }

  lemma {:induction false} RowCount(l: int, i: int, j: int, k: int)
    requires 0 <= l && -l <= k <= l + 1
    ensures |Row(l, i, j, k)| == k + l - (if i == 0 && j == 0 && k > 0 then 1 else 0)
    decreases k + l
  {
    if k != -l {
      RowCount(l, i, j, k - 1);
    }
  }

  lemma MulStep(a: int, w: int)
    ensures (a - 1) * w + w == a * w
  {
  }

  lemma {:induction false} SlabCount(l: int, i: int, j: int)
    requires 0 <= l && -l <= j <= l + 1
    ensures |Slab(l, i, j)| == (j + l) * (2 * l + 1) - (if i == 0 && j > 0 then 1 else 0)
    decreases j + l
  {
    if j != -l {
      SlabCount(l, i, j - 1);
      RowCount(l, i, j - 1, l + 1);
      MulStep(j + l, 2 * l + 1);
    }
  }

  lemma {:induction false} GridCount(l: int, i: int)
    requires 0 <= l && -l <= i <= l + 1
    ensures |Grid(l, i)| == (i + l) * ((2 * l + 1) * (2 * l + 1)) - (if i > 0 then 1 else 0)
    decreases i + l
  {
    if i != -l {
      var w := (2 * l + 1) * (2 * l + 1);
      GridCount(l, i - 1);
      assert |Grid(l, i - 1)| == (i - 1 + l) * w - (if i - 1 > 0 then 1 else 0);
      assert |Slab(l, i - 1, l + 1)| == w - (if i - 1 == 0 then 1 else 0) by {
        SlabCount(l, i - 1, l + 1);
        assert l + 1 + l == 2 * l + 1;
      }
      MulStep(i + l, w);
      assert |Grid(l, i)| == (i + l) * w - (if i > 0 then 1 else 0);
    }
  }

  /** The loops produce (2L+1)^3 - 1 triples: the whole cube but the origin. */
  lemma TriplesCount(l: int)
    requires l >= 0
    ensures |Triples(l)| == (2 * l + 1) * ((2 * l + 1) * (2 * l + 1)) - 1
  {
    GridCount(l, l + 1);
    assert l + 1 + l == 2 * l + 1;
  }

  lemma {:induction false} RowMembers(l: int, i: int, j: int, k: int, c: Coeffs)
    requires -l <= k
    ensures c in Row(l, i, j, k) <==> c.i == i && c.j == j && -l <= c.k < k && c != Origin
    decreases k + l
  {
    if k != -l {
      RowMembers(l, i, j, k - 1, c);
    }
  }

  lemma {:induction false} SlabMembers(l: int, i: int, j: int, c: Coeffs)
    requires 0 <= l && -l <= j
    ensures c in Slab(l, i, j) <==> c.i == i && -l <= c.j < j && -l <= c.k <= l && c != Origin
    decreases j + l
  {
    if j != -l {
      var x, y := Slab(l, i, j - 1), Row(l, i, j - 1, l + 1);
      SlabMembers(l, i, j - 1, c);
      RowMembers(l, i, j - 1, l + 1, c);
      assert Slab(l, i, j) == x + y;
      assert c in x + y <==> c in x || c in y;
    }
  }

  lemma {:induction false} GridMembers(l: int, i: int, c: Coeffs)
    requires 0 <= l && -l <= i
    ensures c in Grid(l, i) <==> -l <= c.i < i && -l <= c.j <= l && -l <= c.k <= l && c != Origin
    decreases i + l
  {
    if i != -l {
      var x, y := Grid(l, i - 1), Slab(l, i - 1, l + 1);
      GridMembers(l, i - 1, c);
      SlabMembers(l, i - 1, l + 1, c);
      assert Grid(l, i) == x + y;
      assert c in x + y <==> c in x || c in y;
    }
  }

  /** A triple is enumerated exactly when it lies in the cube [-L, L]^3 and
      is not the origin. */
  lemma TriplesMembers(l: int, c: Coeffs)
    ensures c in Triples(l) <==> InCube(l, c) && c != Origin
  {
    if l >= 0 {
      assert Triples(l) == Grid(l, l + 1);
      GridMembers(l, l + 1, c);
    } else {
      assert Triples(l) == [];
      assert !InCube(l, c);
    }
  }

  /** Joining two ascending runs, the first wholly below the second, stays
      ascending. */
  lemma AscendingJoin(x: seq<Coeffs>, y: seq<Coeffs>)
    requires Ascending(x) && Ascending(y)
    requires forall a, b :: 0 <= a < |x| && 0 <= b < |y| ==> LexLess(x[a], y[b])
    ensures Ascending(x + y)
  {
    forall a, b | 0 <= a < b < |x + y|
      ensures LexLess((x + y)[a], (x + y)[b])
    {
      if b < |x| {
      } else if a >= |x| {
        assert (x + y)[a] == y[a - |x|] && (x + y)[b] == y[b - |x|];
      } else {
        assert (x + y)[a] == x[a] && (x + y)[b] == y[b - |x|];
      }
    }
  }

  lemma {:induction false} RowAscending(l: int, i: int, j: int, k: int)
    requires -l <= k
    ensures Ascending(Row(l, i, j, k))
    decreases k + l
  {
    if k != -l {
      var x := Row(l, i, j, k - 1);
      RowAscending(l, i, j, k - 1);
      forall a | 0 <= a < |x|
        ensures x[a].i == i && x[a].j == j && x[a].k < k - 1
      {
        RowMembers(l, i, j, k - 1, x[a]);
      }
      AscendingJoin(x, NonOrigin(Coeffs(i, j, k - 1)));
    }
  }

  lemma {:induction false} SlabAscending(l: int, i: int, j: int)
    requires 0 <= l && -l <= j
    ensures Ascending(Slab(l, i, j))
    decreases j + l
  {
    if j != -l {
      var x := Slab(l, i, j - 1);
      var y := Row(l, i, j - 1, l + 1);
      SlabAscending(l, i, j - 1);
      RowAscending(l, i, j - 1, l + 1);
      forall a, b | 0 <= a < |x| && 0 <= b < |y|
        ensures LexLess(x[a], y[b])
      {
        SlabMembers(l, i, j - 1, x[a]);
        RowMembers(l, i, j - 1, l + 1, y[b]);
      }
      AscendingJoin(x, y);
    }
  }

  lemma {:induction false} GridAscending(l: int, i: int)
    requires 0 <= l && -l <= i
    ensures Ascending(Grid(l, i))
    decreases i + l
  {
    if i != -l {
      var x := Grid(l, i - 1);
      var y := Slab(l, i - 1, l + 1);
      GridAscending(l, i - 1);
      SlabAscending(l, i - 1, l + 1);
      forall a, b | 0 <= a < |x| && 0 <= b < |y|
        ensures LexLess(x[a], y[b])
      {
        GridMembers(l, i - 1, x[a]);
        SlabMembers(l, i - 1, l + 1, y[b]);
      }
      AscendingJoin(x, y);
    }
  }

  /** No triple is enumerated twice: one candidate plane per lattice point. */
  lemma TriplesDistinct(l: int)
    ensures Ascending(Triples(l))
    ensures forall a, b :: 0 <= a < b < |Triples(l)| ==> Triples(l)[a] != Triples(l)[b]
  {
    if l >= 0 {
      GridAscending(l, l + 1);
    }
  }

  // ---------------------------------------------------- the candidates

  /** The lattice point, accumulated as the original does: from [0,0,0],
      add i b0, then j b1, then k b2. */
  function LatticePoint(b0: Vec3, b1: Vec3, b2: Vec3, c: Coeffs): Vec3
  {
    Plus(Plus(Plus([0.0, 0.0, 0.0], Scale(b0, c.i as real)), Scale(b1, c.j as real)), Scale(b2, c.k as real))
  }

  /** A candidate: the Bragg plane of the point, keyed by its squared length. */
  function Candidate(b0: Vec3, b1: Vec3, b2: Vec3, bragg: BraggPlaner, c: Coeffs): Keyed<Plane>
  {
    var p := LatticePoint(b0, b1, b2, c);
    Keyed(bragg(p), Inner(p, p))
  }

  function Candidates(b0: Vec3, b1: Vec3, b2: Vec3, bragg: BraggPlaner, cs: seq<Coeffs>): seq<Keyed<Plane>>
  {
    seq(|cs|, n requires 0 <= n < |cs| => Candidate(b0, b1, b2, bragg, cs[n]))
  }

  function Items(s: seq<Keyed<Plane>>): seq<Plane>
  {
    seq(|s|, n requires 0 <= n < |s| => s[n].item)
  }

  // ---------------------------------------------------- building the zone

  /** The loop that folds the sorted planes in, one add_plane_to_polyhedron
      each. */
  function Build(ar: Arena, planes: seq<Plane>, zone: int, solve: PlaneSolver, cross: EdgeSolver): (r: Arena)
    requires WellFormed(ar)
    ensures WellFormed(r) && Evolves(ar, r)
    ensures |r.faceStore| == |ar.faceStore| + |planes|
    decreases |planes|
  {
    if planes == [] then ar
    else
      var n := |planes| - 1;
      var r0 := Build(ar, planes[..n], zone, solve, cross);
      var r1 := AddPlaneSpec(r0, planes[n], zone, solve, cross);
      EvolvesTransitive(ar, r0, r1);
      r1
  }

  lemma BuildStep(ar: Arena, planes: seq<Plane>, i: nat, zone: int, solve: PlaneSolver, cross: EdgeSolver)
    requires WellFormed(ar) && i < |planes|
    ensures Build(ar, planes[..i + 1], zone, solve, cross)
         == AddPlaneSpec(Build(ar, planes[..i], zone, solve, cross), planes[i], zone, solve, cross)
  {
    assert planes[..i + 1][..i] == planes[..i];
  }

  /** The faces from position base on carry the planes, in order. */
  predicate PlanesAt(fs: seq<Face>, base: nat, planes: seq<Plane>)
  {
    base + |planes| <= |fs| && forall n :: 0 <= n < |planes| ==> PlaneOf(fs[base + n]) == planes[n]
  }

  lemma PlanesAtExtend(x: Arena, y: Arena, base: nat, planes: seq<Plane>)
    requires planes != [] && Evolves(x, y)
    requires PlanesAt(x.faceStore, base, planes[..|planes| - 1]) && |x.faceStore| == base + |planes| - 1
    requires |y.faceStore| == |x.faceStore| + 1 && PlaneOf(y.faceStore[|x.faceStore|]) == planes[|planes| - 1]
    ensures PlanesAt(y.faceStore, base, planes)
  {
    var n := |planes| - 1;
    forall m | 0 <= m < |planes|
      ensures PlaneOf(y.faceStore[base + m]) == planes[m]
    {
      if m < n {
        assert planes[..n][m] == planes[m];
      }
    }
  }

  /** The fold appends the planes as faces, in order, after the faces the
      arena already had. */
  lemma {:induction false} BuildAppends(ar: Arena, planes: seq<Plane>, zone: int, solve: PlaneSolver, cross: EdgeSolver)
    requires WellFormed(ar)
    ensures PlanesAt(Build(ar, planes, zone, solve, cross).faceStore, |ar.faceStore|, planes)
    decreases |planes|
  {
    if planes != [] {
      var n := |planes| - 1;
      var r0 := Build(ar, planes[..n], zone, solve, cross);
      var r1 := AddPlaneSpec(r0, planes[n], zone, solve, cross);
      assert Build(ar, planes, zone, solve, cross) == r1;
      BuildAppends(ar, planes[..n], zone, solve, cross);
      assert PlanesAt(r0.faceStore, |ar.faceStore|, planes[..n]) && |r0.faceStore| == |ar.faceStore| + n;
      AddPlaneAppends(r0, planes[n], zone, solve, cross);
      assert Evolves(r0, r1) && |r1.faceStore| == |r0.faceStore| + 1;
      assert PlaneOf(r1.faceStore[|r0.faceStore|]) == planes[n];
      PlanesAtExtend(r0, r1, |ar.faceStore|, planes);
    }
  }

  /** prune_polyhedron applied to each face of the list ids in turn. */
  function PruneFaces(ar: Arena, ids: seq<nat>): (r: Arena)
    requires WellFormed(ar) && RefsIn(ids, |ar.faceStore|)
    ensures WellFormed(r) && Evolves(ar, r)
    ensures |r.faceStore| == |ar.faceStore| && |r.edgeStore| == |ar.edgeStore|
    ensures r.vertexStore == ar.vertexStore
    ensures r.faces == ar.faces && r.edges == ar.edges && r.vertices == ar.vertices
    decreases |ids|
  {
    if ids == [] then ar
    else
      var n := |ids| - 1;
      var r0 := PruneFaces(ar, ids[..n]);
      PruneFaceKeeps(r0, ids[n]);
      EvolvesTransitive(ar, r0, PruneFaceSpec(r0, ids[n]));
      PruneFaceSpec(r0, ids[n])
  }

  lemma PruneFacesStep(ar: Arena, ids: seq<nat>, i: nat)
    requires WellFormed(ar) && RefsIn(ids, |ar.faceStore|) && i < |ids|
    ensures PruneFaces(ar, ids[..i + 1]) == PruneFaceSpec(PruneFaces(ar, ids[..i]), ids[i])
  {
    assert ids[..i + 1][..i] == ids[..i];
  }

  /** prune_polyhedron applied to each edge of the list ids in turn. */
  function PruneEdges(ar: Arena, ids: seq<nat>): (r: Arena)
    requires WellFormed(ar) && RefsIn(ids, |ar.edgeStore|)
    ensures WellFormed(r) && Evolves(ar, r)
    ensures |r.faceStore| == |ar.faceStore| && |r.edgeStore| == |ar.edgeStore|
    ensures r.vertexStore == ar.vertexStore && r.faceStore == ar.faceStore
    ensures r.faces == ar.faces && r.edges == ar.edges && r.vertices == ar.vertices
    decreases |ids|
  {
    if ids == [] then ar
    else
      var n := |ids| - 1;
      var r0 := PruneEdges(ar, ids[..n]);
      PruneEdgeKeeps(r0, ids[n]);
      EvolvesTransitive(ar, r0, PruneEdgeSpec(r0, ids[n]));
      PruneEdgeSpec(r0, ids[n])
  }

  lemma PruneEdgesStep(ar: Arena, ids: seq<nat>, i: nat)
    requires WellFormed(ar) && RefsIn(ids, |ar.edgeStore|) && i < |ids|
    ensures PruneEdges(ar, ids[..i + 1]) == PruneEdgeSpec(PruneEdges(ar, ids[..i]), ids[i])
  {
    assert ids[..i + 1][..i] == ids[..i];
  }

  /** The passes after the fold: prune, prune every face, prune every edge,
      remove singular components, prune again. */
  function Finish(ar: Arena): Arena
    requires WellFormed(ar)
  {
    var ar1 := PruneSpec(ar);
    PruneEstablishesLiveness(ar);
    var ar2 := PruneFaces(ar1, ar1.faces);
    var ar3 := PruneEdges(ar2, ar2.edges);
    SingularExactly(ar3);
    PruneSpec(SingularSpec(ar3))
  }

  /** The whole construction once the candidates are enumerated. */
  function ZoneSpec(cands: seq<Keyed<Plane>>, zone: int, solve: PlaneSolver, cross: EdgeSolver): Arena
  {
    var empty := Arena([], [], [], [], [], []);
    Finish(Build(empty, Items(SortByKey(cands)), zone, solve, cross))
  }

  // ---------------------------------------------------- what the zone satisfies

  /** Every listed face is active, alive by the liveness rule and has at
      least three entries in its edge list; every listed edge is active,
      alive and has at least two entries in its vertex list; every listed
      vertex is active. The minimum-topology rule, as the code applies it,
      counts list entries: an edge it switches off stays in its faces' edge
      lists, since the last prune compacts only the polyhedron's own lists. */
  ghost predicate Tidy(r: Arena)
    requires WellFormed(r)
  {
    && (forall x :: x in r.faces ==>
          r.faceStore[x].active && FaceLive(r.edgeStore, r.faceStore[x]) && |r.faceStore[x].edges| >= 3)
    && (forall x :: x in r.edges ==>
          r.edgeStore[x].active && EdgeLive(r.vertexStore, r.edgeStore[x]) && |r.edgeStore[x].vertices| >= 2)
    && (forall x :: x in r.vertices ==> r.vertexStore[x].active)
  }

  /** The clean-up passes keep the face geometry and leave the arena tidy. */
  lemma FinishShape(ar: Arena)
    requires WellFormed(ar)
    ensures WellFormed(Finish(ar)) && Evolves(ar, Finish(ar)) && |Finish(ar).faceStore| == |ar.faceStore|
    ensures Tidy(Finish(ar))
  {
    var ar1 := PruneSpec(ar);
    PruneEstablishesLiveness(ar);
    PruneNeverReactivates(ar);
    var ar2 := PruneFaces(ar1, ar1.faces);
    var ar3 := PruneEdges(ar2, ar2.edges);
    var ar4 := SingularSpec(ar3);
    SingularExactly(ar3);
    var r := PruneSpec(ar4);
    assert r == Finish(ar);
    PruneEstablishesLiveness(ar4);
    PruneNeverReactivates(ar4);
    EvolvesTransitive(ar, ar1, ar2);
    EvolvesTransitive(ar, ar2, ar3);
    EvolvesTransitive(ar, ar3, ar4);
    EvolvesTransitive(ar, ar4, r);
    forall x | x in r.faces
      ensures |r.faceStore[x].edges| >= 3
    {
      assert x in ar3.faces && ar4.faceStore[x].active;
    }
    forall x | x in r.edges
      ensures |r.edgeStore[x].vertices| >= 2
    {
      assert x in ar3.edges && ar4.edgeStore[x].active;
    }
  }

  /** The zone built from any list of candidates: its faces are the
      candidates' planes in ascending order of squared distance (a
      rearrangement of the candidates), and it is tidy. */
  lemma ZoneShape(cands: seq<Keyed<Plane>>, zone: int, solve: PlaneSolver, cross: EdgeSolver)
    ensures SortedByKey(SortByKey(cands)) && multiset(SortByKey(cands)) == multiset(cands)
    ensures WellFormed(ZoneSpec(cands, zone, solve, cross))
    ensures |ZoneSpec(cands, zone, solve, cross).faceStore| == |cands|
    ensures forall n :: 0 <= n < |cands| ==>
      PlaneOf(ZoneSpec(cands, zone, solve, cross).faceStore[n]) == SortByKey(cands)[n].item
    ensures Tidy(ZoneSpec(cands, zone, solve, cross))
  {
    var empty := Arena([], [], [], [], [], []);
    var sorted := SortByKey(cands);
    SortByKeyCorrect(cands);
    var planes := Items(sorted);
    var b := Build(empty, planes, zone, solve, cross);
    BuildAppends(empty, planes, zone, solve, cross);
    FinishShape(b);
    var r := Finish(b);
    assert r == ZoneSpec(cands, zone, solve, cross);
    forall n | 0 <= n < |cands|
      ensures PlaneOf(r.faceStore[n]) == sorted[n].item
    {
      assert PlaneOf(b.faceStore[0 + n]) == planes[n];
    }
  }

  /** The fold leaves the zone rule holding against the faces it lists:
      after at least one plane whatever the start, and always from a start
      that keeps the rule. */
  lemma BuildInZone(ar: Arena, planes: seq<Plane>, zone: int, solve: PlaneSolver, cross: EdgeSolver)
    requires WellFormed(ar) && (planes != [] || InZone(ar, zone))
    ensures InZone(Build(ar, planes, zone, solve, cross), zone)
  {
    if planes != [] {
      var n := |planes| - 1;
      AddPlaneInZone(Build(ar, planes[..n], zone, solve, cross), planes[n], zone, solve, cross);
    }
  }

  /** The clean-up passes keep the zone rule: they only drop faces and
      vertices from the lists and change no geometry. */
  lemma FinishKeepsZone(ar: Arena, zone: int)
    requires WellFormed(ar) && InZone(ar, zone)
    ensures WellFormed(Finish(ar)) && InZone(Finish(ar), zone)
  {
    var ar1 := PruneSpec(ar);
    PruneKeepsZone(ar, zone);
    var ar2 := PruneFaces(ar1, ar1.faces);
    InZoneSameGeometry(ar1, ar2, zone);
    var ar3 := PruneEdges(ar2, ar2.edges);
    InZoneSameGeometry(ar2, ar3, zone);
    var ar4 := SingularSpec(ar3);
    SingularExactly(ar3);
    InZoneSameGeometry(ar3, ar4, zone);
    PruneKeepsZone(ar4, zone);
    assert PruneSpec(ar4) == Finish(ar);
  }

  /** Zone membership of the result: every vertex the zone lists is active
      and lies beyond fewer than zone_number of its faces, or none; in the
      first zone every listed vertex lies inside every listed face plane. */
  lemma ZoneMembership(cands: seq<Keyed<Plane>>, zone: int, solve: PlaneSolver, cross: EdgeSolver)
    ensures WellFormed(ZoneSpec(cands, zone, solve, cross)) && InZone(ZoneSpec(cands, zone, solve, cross), zone)
    ensures forall x :: x in ZoneSpec(cands, zone, solve, cross).vertices ==>
      ZoneSpec(cands, zone, solve, cross).vertexStore[x].active
    ensures zone == 1 ==> Contained(ZoneSpec(cands, zone, solve, cross))
  {
    var empty := Arena([], [], [], [], [], []);
    var planes := Items(SortByKey(cands));
    var b := Build(empty, planes, zone, solve, cross);
    BuildInZone(empty, planes, zone, solve, cross);
    FinishedZone(b, zone);
    assert Finish(b) == ZoneSpec(cands, zone, solve, cross);
  }

  /** What the clean-up passes leave of an arena that keeps the zone rule. */
  lemma FinishedZone(ar: Arena, zone: int)
    requires WellFormed(ar) && InZone(ar, zone)
    ensures WellFormed(Finish(ar)) && InZone(Finish(ar), zone)
    ensures forall x :: x in Finish(ar).vertices ==> Finish(ar).vertexStore[x].active
    ensures zone == 1 ==> Contained(Finish(ar))
  {
    FinishKeepsZone(ar, zone);
    FinishShape(ar);
    if zone == 1 {
      ZoneOneContained(Finish(ar));
    }
  }

  // ---------------------------------------------------- the construction

  /** The lattice point of c, computed with the vector primitives. */
  method PointOf(b0: Vec3, b1: Vec3, b2: Vec3, c: Coeffs) returns (p: Vec3)
    ensures p == LatticePoint(b0, b1, b2, c)
  {
    var s0 := ScalMult(b0, c.i as real);
    var q0 := VecAdd([0.0, 0.0, 0.0], s0);
    var s1 := ScalMult(b1, c.j as real);
    var q1 := VecAdd(q0.value, s1);
    var s2 := ScalMult(b2, c.k as real);
    var q2 := VecAdd(q1.value, s2);
    p := q2.value;
  }

  lemma CandidatesAppend(b0: Vec3, b1: Vec3, b2: Vec3, bragg: BraggPlaner, cs: seq<Coeffs>, ds: seq<Coeffs>)
    ensures Candidates(b0, b1, b2, bragg, cs + ds) == Candidates(b0, b1, b2, bragg, cs) + Candidates(b0, b1, b2, bragg, ds)
  {
  }

  /** The innermost loop over k for fixed i and j. */
  method EnumerateRow(b0: Vec3, b1: Vec3, b2: Vec3, bragg: BraggPlaner, l: int, i: int, j: int)
    returns (cands: seq<Keyed<Plane>>)
    requires 0 <= l
    ensures cands == Candidates(b0, b1, b2, bragg, Row(l, i, j, l + 1))
  {
    cands := [];
    var k := -l;
    while k < l + 1
      invariant -l <= k <= l + 1
      invariant cands == Candidates(b0, b1, b2, bragg, Row(l, i, j, k))
    {
      var c := Coeffs(i, j, k);
      CandidatesAppend(b0, b1, b2, bragg, Row(l, i, j, k), NonOrigin(c));
      if i != 0 || j != 0 || k != 0 {
        var p := PointOf(b0, b1, b2, c);
        var key := Dot(p, p);
        cands := cands + [Keyed(bragg(p), key.value)];
      }
      k := k + 1;
    }
  }

  /** The loops over j and k for fixed i. */
  method EnumerateSlab(b0: Vec3, b1: Vec3, b2: Vec3, bragg: BraggPlaner, l: int, i: int)
    returns (cands: seq<Keyed<Plane>>)
    requires 0 <= l
    ensures cands == Candidates(b0, b1, b2, bragg, Slab(l, i, l + 1))
  {
    cands := [];
    var j := -l;
    while j < l + 1
      invariant -l <= j <= l + 1
      invariant cands == Candidates(b0, b1, b2, bragg, Slab(l, i, j))
    {
      var row := EnumerateRow(b0, b1, b2, bragg, l, i, j);
      CandidatesAppend(b0, b1, b2, bragg, Slab(l, i, j), Row(l, i, j, l + 1));
      cands := cands + row;
      j := j + 1;
    }
  }

  /** The three nested loops of create_nth_brillouin_zone: one candidate per
      non-origin triple of [-L, L]^3, in loop order. */
  method EnumerateCandidates(b0: Vec3, b1: Vec3, b2: Vec3, bragg: BraggPlaner, l: int)
    returns (cands: seq<Keyed<Plane>>)
    ensures cands == Candidates(b0, b1, b2, bragg, Triples(l))
  {
    cands := [];
    if l < 0 {
      return;  // none of the loops turns
    }
    var i := -l;
    while i < l + 1
      invariant -l <= i <= l + 1
      invariant cands == Candidates(b0, b1, b2, bragg, Grid(l, i))
    {
      var slab := EnumerateSlab(b0, b1, b2, bragg, l, i);
      CandidatesAppend(b0, b1, b2, bragg, Grid(l, i), Slab(l, i, l + 1));
      cands := cands + slab;
      i := i + 1;
    }
  }

  /** One turn of that loop: the i-th plane joins the polyhedron. */
  method FoldPlane(poly: Polyhedron, plane: Plane, ghost ar0: Arena, ghost planes: seq<Plane>, ghost i: nat,
                   solve: PlaneSolver, cross: EdgeSolver)
    requires WellFormed(ar0) && i < |planes| && planes[i] == plane
    requires poly.Snapshot() == Build(ar0, planes[..i], poly.zoneNumber, solve, cross)
    modifies poly
    ensures poly.Snapshot() == Build(ar0, planes[..i + 1], poly.zoneNumber, solve, cross)
  {
    BuildStep(ar0, planes, i, poly.zoneNumber, solve, cross);
    poly.AddPlaneToPolyhedron(plane, solve, cross);
  }

  /** The loop that adds each sorted plane to the polyhedron. */
  method FoldPlanes(poly: Polyhedron, sorted: seq<Keyed<Plane>>, solve: PlaneSolver, cross: EdgeSolver)
    requires poly.Valid()
    modifies poly
    ensures poly.Valid()
    ensures poly.Snapshot() == Build(old(poly.Snapshot()), Items(sorted), poly.zoneNumber, solve, cross)
  {
    ghost var ar0 := poly.Snapshot();
    ghost var planes := Items(sorted);
    var i := 0;
    while i < |sorted|
      invariant 0 <= i <= |sorted| == |planes|
      invariant poly.Snapshot() == Build(ar0, planes[..i], poly.zoneNumber, solve, cross)
    {
      assert planes[i] == sorted[i].item;
      FoldPlane(poly, sorted[i].item, ar0, planes, i, solve, cross);
      i := i + 1;
    }
    assert planes[..|sorted|] == planes;
  }

  /** prune_polyhedron on each face the polyhedron lists. */
  method PruneEachFace(poly: Polyhedron)
    requires poly.Valid()
    modifies poly
    ensures poly.Valid()
    ensures poly.Snapshot() == PruneFaces(old(poly.Snapshot()), old(poly.faces))
  {
    ghost var ar0 := poly.Snapshot();
    var ids := poly.faces;
    var i := 0;
    while i < |ids|
      invariant 0 <= i <= |ids|
      invariant poly.Valid()
      invariant poly.Snapshot() == PruneFaces(ar0, ids[..i])
    {
      PruneFacesStep(ar0, ids, i);
      poly.PruneFace(ids[i]);
      i := i + 1;
    }
    assert ids[..|ids|] == ids;
  }

  /** prune_polyhedron on each edge the polyhedron lists. */
  method PruneEachEdge(poly: Polyhedron)
    requires poly.Valid()
    modifies poly
    ensures poly.Valid()
    ensures poly.Snapshot() == PruneEdges(old(poly.Snapshot()), old(poly.edges))
  {
    ghost var ar0 := poly.Snapshot();
    var ids := poly.edges;
    var i := 0;
    while i < |ids|
      invariant 0 <= i <= |ids|
      invariant poly.Valid()
      invariant poly.Snapshot() == PruneEdges(ar0, ids[..i])
    {
      PruneEdgesStep(ar0, ids, i);
      poly.PruneEdge(ids[i]);
      i := i + 1;
    }
    assert ids[..|ids|] == ids;
  }

  /** The clean-up passes after the fold. */
  method FinishZone(poly: Polyhedron)
    requires poly.Valid()
    modifies poly
    ensures poly.Valid()
    ensures poly.Snapshot() == Finish(old(poly.Snapshot()))
  {
    ghost var ar0 := poly.Snapshot();
    poly.PrunePolyhedron();
    PruneEstablishesLiveness(ar0);
    PruneEachFace(poly);
    PruneEachEdge(poly);
    poly.DeactivateSingularComponents();
    poly.PrunePolyhedron();
  }

  /** create_nth_brillouin_zone: fails for zone numbers above 3; otherwise
      enumerates the candidates for L = min(zone_number + 1, 3), sorts them
      by squared distance, folds them into a fresh polyhedron and cleans it
      up. The reciprocal vectors are b0, b1, b2. */
  method CreateNthBrillouinZone(b0: Vec3, b1: Vec3, b2: Vec3, zone: int,
                                bragg: BraggPlaner, solve: PlaneSolver, cross: EdgeSolver)
    returns (r: Option<Polyhedron>)
    ensures r.None? <==> zone > 3
    ensures r.Some? ==> fresh(r.value) && r.value.Valid() && r.value.zoneNumber == zone
    ensures r.Some? ==>
      r.value.Snapshot() == ZoneSpec(Candidates(b0, b1, b2, bragg, Triples(CheckLimit(zone))), zone, solve, cross)
  {
    var poly := new Polyhedron(zone);
    if zone > 3 {
      return None;
    }
    var l := if zone + 1 < 3 then zone + 1 else 3;
    var cands := EnumerateCandidates(b0, b1, b2, bragg, l);
    var sorted := SortByKey(cands);
    FoldPlanes(poly, sorted, solve, cross);
    FinishZone(poly);
    return Some(poly);
  }
}
