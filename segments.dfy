/** The segment/endpoint graph that turns the edges of one face into closed
    loops: each edge is cut at its vertices into sub-segments, the pieces
    inside the zone are stored once each (endpoints merged within the
    tolerance), and loops are then walked from every segment in both
    orientations.

    Endpoints and segments live in two lists and refer to each other by
    index, as the original's objects refer to each other by reference. */
module Segments {
  import opened Vectors
  import opened Sorting
  import opened Polyhedra

  /** segment_endpoint: a point and the segments that start and end there. */
  datatype Endpoint = Endpoint(v: Vec3, startOf: seq<nat>, endOf: seq<nat>)

  /** line_segment: from endpoint a to endpoint b along dir = b.v - a.v, with
      a visited flag for each orientation (unset flags read as false). */
  datatype Segment = Segment(a: nat, b: nat, dir: Vec3, visitedForward: bool, visitedReversed: bool)

  datatype Graph = Graph(endpoints: seq<Endpoint>, segments: seq<Segment>)

  /** Every segment's endpoints exist and list it: as a start at a, as an
      end at b. */
  ghost predicate Registered(g: Graph)
  {
    forall s :: 0 <= s < |g.segments| ==>
      && g.segments[s].a < |g.endpoints| && s in g.endpoints[g.segments[s].a].startOf
      && g.segments[s].b < |g.endpoints| && s in g.endpoints[g.segments[s].b].endOf
  }

  /** Each endpoint's start list names only segments that start there. */
  ghost predicate StartsListed(g: Graph)
  {
    forall e, i :: 0 <= e < |g.endpoints| && 0 <= i < |g.endpoints[e].startOf| ==>
      g.endpoints[e].startOf[i] < |g.segments| && g.segments[g.endpoints[e].startOf[i]].a == e
  }

  /** Each endpoint's end list names only segments that end there. */
  ghost predicate EndsListed(g: Graph)
  {
    forall e, i :: 0 <= e < |g.endpoints| && 0 <= i < |g.endpoints[e].endOf| ==>
      g.endpoints[e].endOf[i] < |g.segments| && g.segments[g.endpoints[e].endOf[i]].b == e
  }

  /** Every segment's endpoints exist, and each endpoint's start and end
      lists name exactly the segments that start and end there. */
  ghost predicate GraphWellFormed(g: Graph)
  {
    Registered(g) && StartsListed(g) && EndsListed(g)
  }

  /** Two segments join the same pair of endpoints, in either direction. */
  predicate SameEnds(x: Segment, y: Segment)
  {
    (x.a == y.a && x.b == y.b) || (x.a == y.b && x.b == y.a)
  }

  /** No pair of endpoints is joined twice. */
  predicate Unique(g: Graph)
  {
    forall s, t :: 0 <= s < t < |g.segments| ==> !SameEnds(g.segments[s], g.segments[t])
  }

  predicate Joined(g: Graph, x: nat, y: nat)
  {
    exists s :: 0 <= s < |g.segments| && ((g.segments[s].a == x && g.segments[s].b == y) || (g.segments[s].a == y && g.segments[s].b == x))
  }

  /** The graph only grows: endpoints keep their positions, existing
      segments are untouched and new ones are appended. */
  predicate Grows(g: Graph, r: Graph)
  {
    && |g.endpoints| <= |r.endpoints|
    && (forall e :: 0 <= e < |g.endpoints| ==> r.endpoints[e].v == g.endpoints[e].v)
    && |g.segments| <= |r.segments|
    && r.segments[..|g.segments|] == g.segments
  }

  lemma GrowsTransitive(g: Graph, h: Graph, r: Graph)
    requires Grows(g, h) && Grows(h, r)
    ensures Grows(g, r)
  {
    assert r.segments[..|g.segments|] == r.segments[..|h.segments|][..|g.segments|];
  }

  // ---------------------------------------------------- add_endpoint

  /** The first endpoint within the tolerance of v, if any. */
  function FirstNear(eps: seq<Endpoint>, v: Vec3): (r: Option<nat>)
    ensures r.Some? ==> r.value < |eps| && ApproxEqualVec(v, eps[r.value].v)
                        && forall j :: 0 <= j < r.value ==> !ApproxEqualVec(v, eps[j].v)
    ensures r.None? ==> forall j :: 0 <= j < |eps| ==> !ApproxEqualVec(v, eps[j].v)
    decreases |eps|
  {
    if eps == [] then None
    else if ApproxEqualVec(v, eps[0].v) then Some(0)
    else
      match FirstNear(eps[1..], v)
      case None => None
      case Some(i) => Some(i + 1)
  }

  lemma FirstNearIs(eps: seq<Endpoint>, v: Vec3, i: nat)
    requires i < |eps| && ApproxEqualVec(v, eps[i].v)
    requires forall j :: 0 <= j < i ==> !ApproxEqualVec(v, eps[j].v)
    ensures FirstNear(eps, v) == Some(i)
  {
  }

  /** The endpoint add_endpoint returns: the first near one, or a new one at
      the end of the list. */
  function EndpointFor(g: Graph, v: Vec3): nat
  {
    match FirstNear(g.endpoints, v)
    case Some(i) => i
    case None => |g.endpoints|
  }

  /** The endpoint list after add_endpoint. */
  function WithEndpoint(g: Graph, v: Vec3): Graph
  {
    if FirstNear(g.endpoints, v).Some? then g
    else g.(endpoints := g.endpoints + [Endpoint(v, [], [])])
  }

  /** add_endpoint returns an endpoint within the tolerance of v: the first
      such one already present, or else exactly one new endpoint at v,
      appended; the graph invariants are kept. */
  lemma AddEndpointMeaning(g: Graph, v: Vec3)
    ensures var r := WithEndpoint(g, v);
      var id := EndpointFor(g, v);
      && id < |r.endpoints| && ApproxEqualVec(v, r.endpoints[id].v)
      && Grows(g, r) && r.segments == g.segments
      && (id < |g.endpoints| ==> r == g && forall j :: 0 <= j < id ==> !ApproxEqualVec(v, g.endpoints[j].v))
      && (id == |g.endpoints| ==>
            r.endpoints == g.endpoints + [Endpoint(v, [], [])]
            && forall j :: 0 <= j < |g.endpoints| ==> !ApproxEqualVec(v, g.endpoints[j].v))
      && (GraphWellFormed(g) ==> GraphWellFormed(r))
  {
    var r := WithEndpoint(g, v);
    assert r.segments[..|g.segments|] == g.segments;
    if FirstNear(g.endpoints, v).None? {
      assert r.endpoints[|g.endpoints|].v == v;
      assert ApproxEqualVec(v, v);
      assert forall e :: 0 <= e < |g.endpoints| ==> r.endpoints[e] == g.endpoints[e];
    }
  }

  // ---------------------------------------------------- add_segment

  /** The first scan of add_segment: a segment from ea that ends at eb. */
  predicate StartsTo(g: Graph, ea: nat, eb: nat)
    requires ea < |g.endpoints|
  {
    exists i :: 0 <= i < |g.endpoints[ea].startOf| && g.endpoints[ea].startOf[i] < |g.segments|
      && g.segments[g.endpoints[ea].startOf[i]].b == eb
  }

  /** The second scan: a segment into ea that starts at eb. */
  predicate EndsFrom(g: Graph, ea: nat, eb: nat)
    requires ea < |g.endpoints|
  {
    exists i :: 0 <= i < |g.endpoints[ea].endOf| && g.endpoints[ea].endOf[i] < |g.segments|
      && g.segments[g.endpoints[ea].endOf[i]].a == eb
  }

  function AddStart(p: Endpoint, s: nat): Endpoint { p.(startOf := p.startOf + [s]) }
  function AddEnd(p: Endpoint, s: nat): Endpoint { p.(endOf := p.endOf + [s]) }

  /** The new segment from ea to eb, registered at both ends. */
  function Link(g: Graph, ea: nat, eb: nat): Graph
    requires ea < |g.endpoints| && eb < |g.endpoints|
  {
    var ns := |g.segments|;
    var seg := Segment(ea, eb, Plus(g.endpoints[eb].v, Scale(g.endpoints[ea].v, -1.0)), false, false);
    var eps1 := g.endpoints[ea := AddStart(g.endpoints[ea], ns)];
    var eps2 := eps1[eb := AddEnd(eps1[eb], ns)];
    Graph(eps2, g.segments + [seg])
  }

  /** add_segment: both endpoints are added (even when the segment exists),
      then the segment is added unless one already joins them either way. */
  function AddSegmentSpec(g: Graph, a: Vec3, b: Vec3): Graph
  {
    var ea := EndpointFor(g, a);
    var g1 := WithEndpoint(g, a);
    var eb := EndpointFor(g1, b);
    var g2 := WithEndpoint(g1, b);
    AddEndpointMeaning(g, a);
    AddEndpointMeaning(g1, b);
    if StartsTo(g2, ea, eb) || EndsFrom(g2, ea, eb) then g2 else Link(g2, ea, eb)
  }

  /** In a well-formed graph the two scans find a segment exactly when one
      already joins ea and eb. */
  lemma ScansFindJoined(g: Graph, ea: nat, eb: nat)
    requires GraphWellFormed(g) && ea < |g.endpoints|
    ensures StartsTo(g, ea, eb) || EndsFrom(g, ea, eb) <==> Joined(g, ea, eb)
  {
    if Joined(g, ea, eb) {
      var s :| 0 <= s < |g.segments| && ((g.segments[s].a == ea && g.segments[s].b == eb) || (g.segments[s].a == eb && g.segments[s].b == ea));
      if g.segments[s].a == ea && g.segments[s].b == eb {
        assert s in g.endpoints[ea].startOf;
        var i :| 0 <= i < |g.endpoints[ea].startOf| && g.endpoints[ea].startOf[i] == s;
        assert StartsTo(g, ea, eb);
      } else {
        assert s in g.endpoints[ea].endOf;
        var i :| 0 <= i < |g.endpoints[ea].endOf| && g.endpoints[ea].endOf[i] == s;
        assert EndsFrom(g, ea, eb);
      }
    }
  }

  lemma LinkLists(g: Graph, ea: nat, eb: nat)
    requires ea < |g.endpoints| && eb < |g.endpoints|
    ensures var r := Link(g, ea, eb);
      && |r.endpoints| == |g.endpoints| && |r.segments| == |g.segments| + 1
      && r.segments[..|g.segments|] == g.segments
      && r.segments[|g.segments|].a == ea && r.segments[|g.segments|].b == eb
      && (forall e :: 0 <= e < |r.endpoints| ==>
            r.endpoints[e].startOf == g.endpoints[e].startOf + (if e == ea then [|g.segments|] else []))
      && (forall e :: 0 <= e < |r.endpoints| ==>
            r.endpoints[e].endOf == g.endpoints[e].endOf + (if e == eb then [|g.segments|] else []))
  {
    var r := Link(g, ea, eb);
    assert r.segments[..|g.segments|] == g.segments;
  }

  /** The new segment is registered at exactly its two ends. */
  lemma LinkWellFormed(g: Graph, ea: nat, eb: nat)
    requires GraphWellFormed(g) && ea < |g.endpoints| && eb < |g.endpoints|
    ensures GraphWellFormed(Link(g, ea, eb))
  {
    LinkRegistered(g, ea, eb);
    LinkStarts(g, ea, eb);
    LinkEnds(g, ea, eb);
  }

  lemma LinkRegistered(g: Graph, ea: nat, eb: nat)
    requires Registered(g) && ea < |g.endpoints| && eb < |g.endpoints|
    ensures Registered(Link(g, ea, eb))
  {
    var r := Link(g, ea, eb);
    var ns := |g.segments|;
    LinkLists(g, ea, eb);
    forall k | 0 <= k < |r.segments|
      ensures k in r.endpoints[r.segments[k].a].startOf && k in r.endpoints[r.segments[k].b].endOf
    {
      if k < ns {
        assert r.segments[k] == g.segments[k];
        assert k in g.endpoints[g.segments[k].a].startOf && k in g.endpoints[g.segments[k].b].endOf;
      }
    }
  }

  lemma LinkStarts(g: Graph, ea: nat, eb: nat)
    requires StartsListed(g) && ea < |g.endpoints| && eb < |g.endpoints|
    ensures StartsListed(Link(g, ea, eb))
  {
    var r := Link(g, ea, eb);
    LinkLists(g, ea, eb);
    forall e, i | 0 <= e < |r.endpoints| && 0 <= i < |r.endpoints[e].startOf|
      ensures r.endpoints[e].startOf[i] < |r.segments| && r.segments[r.endpoints[e].startOf[i]].a == e
    {
      if i < |g.endpoints[e].startOf| {
        assert r.endpoints[e].startOf[i] == g.endpoints[e].startOf[i];
        assert r.segments[g.endpoints[e].startOf[i]] == g.segments[g.endpoints[e].startOf[i]];
      }
    }
  }

  lemma LinkEnds(g: Graph, ea: nat, eb: nat)
    requires EndsListed(g) && ea < |g.endpoints| && eb < |g.endpoints|
    ensures EndsListed(Link(g, ea, eb))
  {
    var r := Link(g, ea, eb);
    LinkLists(g, ea, eb);
    forall e, i | 0 <= e < |r.endpoints| && 0 <= i < |r.endpoints[e].endOf|
      ensures r.endpoints[e].endOf[i] < |r.segments| && r.segments[r.endpoints[e].endOf[i]].b == e
    {
      if i < |g.endpoints[e].endOf| {
        assert r.endpoints[e].endOf[i] == g.endpoints[e].endOf[i];
        assert r.segments[g.endpoints[e].endOf[i]] == g.segments[g.endpoints[e].endOf[i]];
      }
    }
  }

  lemma LinkKeeps(g: Graph, ea: nat, eb: nat)
    requires GraphWellFormed(g) && Unique(g) && ea < |g.endpoints| && eb < |g.endpoints| && !Joined(g, ea, eb)
    ensures var r := Link(g, ea, eb);
      GraphWellFormed(r) && Unique(r) && Grows(g, r) && Joined(r, ea, eb) && |r.segments| == |g.segments| + 1
  {
    LinkWellFormed(g, ea, eb);
    var r := Link(g, ea, eb);
    var ns := |g.segments|;
    assert |r.segments| == ns + 1 && r.segments[ns].a == ea && r.segments[ns].b == eb;
    forall s, t | 0 <= s < t < |r.segments|
      ensures !SameEnds(r.segments[s], r.segments[t])
    {
      if t == ns {
        assert r.segments[s] == g.segments[s];
      } else {
        assert r.segments[s] == g.segments[s] && r.segments[t] == g.segments[t];
      }
    }
    assert r.segments[..ns] == g.segments;
  }

  /** add_segment keeps the graph well formed and never joins a pair of
      endpoints twice; afterwards the endpoints for a and b are joined, by
      at most one new segment. */
  lemma AddSegmentKeepsUnique(g: Graph, a: Vec3, b: Vec3)
    requires GraphWellFormed(g) && Unique(g)
    ensures var r := AddSegmentSpec(g, a, b);
      && GraphWellFormed(r) && Unique(r) && Grows(g, r)
      && |r.segments| <= |g.segments| + 1
      && Joined(r, EndpointFor(g, a), EndpointFor(WithEndpoint(g, a), b))
  {
    var ea := EndpointFor(g, a);
    var g1 := WithEndpoint(g, a);
    var eb := EndpointFor(g1, b);
    var g2 := WithEndpoint(g1, b);
    AddEndpointMeaning(g, a);
    AddEndpointMeaning(g1, b);
    assert Unique(g2) && Grows(g, g2);
    ScansFindJoined(g2, ea, eb);
    if !(StartsTo(g2, ea, eb) || EndsFrom(g2, ea, eb)) {
      LinkKeeps(g2, ea, eb);
    }
  }

  // ---------------------------------------------------- add_edge

  /** The position of a vertex along an edge: t . (v - a). */
  function TValue(line: Line, v: Vec3): real
  {
    Inner(line.t, Plus(v, Scale(line.a, -1.0)))
  }

  /** The points of edge e, keyed by their position along it. */
  function EdgePoints(ar: Arena, e: nat): seq<Keyed<Vec3>>
    requires WellFormed(ar) && e < |ar.edgeStore|
  {
    var ed := ar.edgeStore[e];
    seq(|ed.vertices|, i requires 0 <= i < |ed.vertices| =>
      var v := ar.vertexStore[ed.vertices[i]].v;
      Keyed(v, TValue(LineOf(ed), v)))
  }

  /** The test add_edge puts on two consecutive sorted points. */
  predicate Piece(p: Vec3, q: Vec3, planes: seq<Plane>, zone: int)
  {
    !ApproxEqualVec(p, q) && SegmentInZone(p, q, planes, zone)
  }

  /** The first n consecutive pairs of pts, each added when it passes. */
  function Pieces(g: Graph, pts: seq<Keyed<Vec3>>, n: nat, planes: seq<Plane>, zone: int): Graph
    requires n < |pts| || n == 0
    decreases n
  {
    if n == 0 then g
    else
      var g0 := Pieces(g, pts, n - 1, planes, zone);
      if Piece(pts[n - 1].item, pts[n].item, planes, zone)
      then AddSegmentSpec(g0, pts[n - 1].item, pts[n].item)
      else g0
  }

  /** add_edge: the edge's points in ascending order along it, then every
      consecutive pair that is not one point and lies in the zone. */
  function AddEdgeSpec(g: Graph, ar: Arena, e: nat, zone: int): Graph
    requires WellFormed(ar) && e < |ar.edgeStore|
  {
    var pts := SortByKey(EdgePoints(ar, e));
    SortByKeyCorrect(EdgePoints(ar, e));
    Pieces(g, pts, if |pts| == 0 then 0 else |pts| - 1, Planes(ar), zone)
  }

  lemma {:induction false} PiecesKeep(g: Graph, pts: seq<Keyed<Vec3>>, n: nat, planes: seq<Plane>, zone: int)
    requires n < |pts| || n == 0
    requires GraphWellFormed(g) && Unique(g)
    ensures var r := Pieces(g, pts, n, planes, zone);
      GraphWellFormed(r) && Unique(r) && Grows(g, r)
    decreases n
  {
    if n > 0 {
      var g0 := Pieces(g, pts, n - 1, planes, zone);
      PiecesKeep(g, pts, n - 1, planes, zone);
      assert GraphWellFormed(g0) && Unique(g0) && Grows(g, g0);
      if Piece(pts[n - 1].item, pts[n].item, planes, zone) {
        var r := AddSegmentSpec(g0, pts[n - 1].item, pts[n].item);
        AddSegmentKeepsUnique(g0, pts[n - 1].item, pts[n].item);
        GrowsTransitive(g, g0, r);
      }
    }
  }

  /** add_edge keeps the graph well formed, never duplicates a segment and
      only adds to it. */
  lemma AddEdgeKeeps(g: Graph, ar: Arena, e: nat, zone: int)
    requires WellFormed(ar) && e < |ar.edgeStore|
    requires GraphWellFormed(g) && Unique(g)
    ensures var r := AddEdgeSpec(g, ar, e, zone);
      GraphWellFormed(r) && Unique(r) && Grows(g, r)
  {
    var pts := SortByKey(EdgePoints(ar, e));
    PiecesKeep(g, pts, if |pts| == 0 then 0 else |pts| - 1, Planes(ar), zone);
  }

  /** A pair of consecutive sorted points that passes the test is joined
      right after it is added. */
  lemma PieceJoined(g: Graph, pts: seq<Keyed<Vec3>>, n: nat, planes: seq<Plane>, zone: int)
    requires 0 < n < |pts| && GraphWellFormed(g) && Unique(g)
    requires Piece(pts[n - 1].item, pts[n].item, planes, zone)
    ensures var g0 := Pieces(g, pts, n - 1, planes, zone);
      Joined(Pieces(g, pts, n, planes, zone),
             EndpointFor(g0, pts[n - 1].item), EndpointFor(WithEndpoint(g0, pts[n - 1].item), pts[n].item))
  {
    PiecesKeep(g, pts, n - 1, planes, zone);
    AddSegmentKeepsUnique(Pieces(g, pts, n - 1, planes, zone), pts[n - 1].item, pts[n].item);
  }

  // ---------------------------------------------------- find_paths

  /** One step of a loop: a segment walked forward or reversed. */
  datatype Step = Step(seg: nat, reversed: bool)

  /** What create_loop returns: the loop's points and its steps. */
  datatype Walk = Walk(points: seq<Vec3>, steps: seq<Step>)

  /** create_loop (an angle-driven walk): the loop started from a segment in
      one orientation, if one closes. */
  type LoopFinder = (Graph, Vec3, nat, bool) -> Option<Walk>

  function Visited(s: Segment, reversed: bool): bool
  {
    if reversed then s.visitedReversed else s.visitedForward
  }

  function MarkOne(s: Segment, reversed: bool): Segment
  {
    if reversed then s.(visitedReversed := true) else s.(visitedForward := true)
  }

  /** Every step of a walk marks its segment visited in its orientation
      (a step naming no segment of the list is passed over). */
  function MarkSteps(segs: seq<Segment>, steps: seq<Step>): (r: seq<Segment>)
    ensures |r| == |segs|
    decreases |steps|
  {
    if steps == [] then segs
    else
      var r0 := MarkSteps(segs, steps[..|steps| - 1]);
      var st := steps[|steps| - 1];
      if st.seg < |r0| then r0[st.seg := MarkOne(r0[st.seg], st.reversed)] else r0
  }

  /** Marking only sets flags, sets every flag a step names, and changes
      nothing else about a segment. */
  lemma {:induction false} MarkStepsMeaning(segs: seq<Segment>, steps: seq<Step>)
    ensures forall k :: 0 <= k < |segs| ==>
      MarkSteps(segs, steps)[k].a == segs[k].a && MarkSteps(segs, steps)[k].b == segs[k].b
      && MarkSteps(segs, steps)[k].dir == segs[k].dir
      && (Visited(segs[k], false) ==> Visited(MarkSteps(segs, steps)[k], false))
      && (Visited(segs[k], true) ==> Visited(MarkSteps(segs, steps)[k], true))
    ensures forall i :: 0 <= i < |steps| && steps[i].seg < |segs| ==>
      Visited(MarkSteps(segs, steps)[steps[i].seg], steps[i].reversed)
    decreases |steps|
  {
    if steps != [] {
      var n := |steps| - 1;
      MarkStepsMeaning(segs, steps[..n]);
      forall i | 0 <= i < n
        ensures steps[..n][i] == steps[i]
      {
      }
    }
  }

  /** Marking keeps the graph invariants: only flags change. */
  lemma MarkStepsKeeps(g: Graph, steps: seq<Step>)
    requires GraphWellFormed(g) && Unique(g)
    ensures GraphWellFormed(g.(segments := MarkSteps(g.segments, steps)))
    ensures Unique(g.(segments := MarkSteps(g.segments, steps)))
  {
    MarkStepsMeaning(g.segments, steps);
    SameEndsKeep(g, g.(segments := MarkSteps(g.segments, steps)));
  }

  /** Well-formedness and uniqueness depend only on the endpoints and on
      where each segment starts and ends, not on its visited flags. */
  lemma SameEndsKeep(g: Graph, h: Graph)
    requires GraphWellFormed(g) && Unique(g)
    requires h.endpoints == g.endpoints && |h.segments| == |g.segments|
    requires forall k :: 0 <= k < |g.segments| ==> h.segments[k].a == g.segments[k].a && h.segments[k].b == g.segments[k].b
    ensures GraphWellFormed(h) && Unique(h)
  {
    forall s, t | 0 <= s < t < |h.segments|
      ensures !SameEnds(h.segments[s], h.segments[t])
    {
      assert !SameEnds(g.segments[s], g.segments[t]);
    }
  }

  /** The state of find_paths: the graph and the loops accepted so far. */
  datatype PathsState = PathsState(graph: Graph, walks: seq<Walk>)

  /** Accepting a loop marks its steps and records it. */
  function Accept(st: PathsState, w: Option<Walk>): PathsState
  {
    match w
    case None => st
    case Some(walk) =>
      PathsState(st.graph.(segments := MarkSteps(st.graph.segments, walk.steps)), st.walks + [walk])
  }

  /** One turn of find_paths for segment s: a loop is asked for in each
      orientation not yet visited (both asked before either is marked),
      then each loop found is accepted. */
  function Turn(st: PathsState, normal: Vec3, s: nat, find: LoopFinder): (r: PathsState)
    requires s < |st.graph.segments|
    ensures r.graph.endpoints == st.graph.endpoints && |r.graph.segments| == |st.graph.segments|
    ensures st.walks <= r.walks
    ensures |r.walks| <= |st.walks| + (if Visited(st.graph.segments[s], false) then 0 else 1)
                                     + (if Visited(st.graph.segments[s], true) then 0 else 1)
  {
    var seg := st.graph.segments[s];
    var forward := if !Visited(seg, false) then find(st.graph, normal, s, false) else None;
    var backward := if !Visited(seg, true) then find(st.graph, normal, s, true) else None;
    Accept(Accept(st, forward), backward)
  }

  /** find_paths over the first n segments. */
  function FindPathsSpec(st: PathsState, normal: Vec3, n: nat, find: LoopFinder): (r: PathsState)
    requires n <= |st.graph.segments|
    ensures r.graph.endpoints == st.graph.endpoints && |r.graph.segments| == |st.graph.segments|
    ensures st.walks <= r.walks
    decreases n
  {
    if n == 0 then st
    else Turn(FindPathsSpec(st, normal, n - 1, find), normal, n - 1, find)
  }

  lemma FindPathsStep(st: PathsState, normal: Vec3, n: nat, find: LoopFinder)
    requires n < |st.graph.segments|
    ensures FindPathsSpec(st, normal, n + 1, find) == Turn(FindPathsSpec(st, normal, n, find), normal, n, find)
  {
  }

  /** h is g with possibly more visited flags set: same endpoints, same
      segment ends and directions, and no flag cleared. */
  predicate Advances(g: Graph, h: Graph)
  {
    && h.endpoints == g.endpoints && |h.segments| == |g.segments|
    && forall k :: 0 <= k < |g.segments| ==>
         var x, y := g.segments[k], h.segments[k];
         x.a == y.a && x.b == y.b && x.dir == y.dir
         && (Visited(x, false) ==> Visited(y, false)) && (Visited(x, true) ==> Visited(y, true))
  }

  lemma AdvancesTransitive(g: Graph, h: Graph, r: Graph)
    requires Advances(g, h) && Advances(h, r)
    ensures Advances(g, r)
  {
  }

  /** Every step of the walks ws[from..] that names a segment of g is marked
      visited in g, in its orientation. */
  predicate Marks(g: Graph, ws: seq<Walk>, from: nat)
  {
    forall j, i :: from <= j < |ws| && 0 <= i < |ws[j].steps| && ws[j].steps[i].seg < |g.segments| ==>
      Visited(g.segments[ws[j].steps[i].seg], ws[j].steps[i].reversed)
  }

  lemma MarksAdvance(g: Graph, h: Graph, ws: seq<Walk>, from: nat)
    requires Marks(g, ws, from) && Advances(g, h)
    ensures Marks(h, ws, from)
  {
    forall j, i | from <= j < |ws| && 0 <= i < |ws[j].steps| && ws[j].steps[i].seg < |h.segments|
      ensures Visited(h.segments[ws[j].steps[i].seg], ws[j].steps[i].reversed)
    {
      assert Visited(g.segments[ws[j].steps[i].seg], ws[j].steps[i].reversed);
    }
  }

  lemma MarksExtend(g: Graph, ws: seq<Walk>, vs: seq<Walk>, from: nat)
    requires ws <= vs && Marks(g, ws, from) && Marks(g, vs, |ws|)
    ensures Marks(g, vs, from)
  {
    forall j, i | from <= j < |vs| && 0 <= i < |vs[j].steps| && vs[j].steps[i].seg < |g.segments|
      ensures Visited(g.segments[vs[j].steps[i].seg], vs[j].steps[i].reversed)
    {
      if j < |ws| {
        assert vs[j] == ws[j];
      }
    }
  }

  /** Accepting a loop marks its steps and only sets flags. */
  lemma AcceptMarks(st: PathsState, w: Option<Walk>)
    ensures var r := Accept(st, w);
      st.walks <= r.walks && Advances(st.graph, r.graph) && Marks(r.graph, r.walks, |st.walks|)
  {
    if w.Some? {
      MarkStepsMeaning(st.graph.segments, w.value.steps);
    }
  }

  /** A turn of find_paths only sets flags, and marks every step of the
      loops it accepts. */
  lemma TurnMonotone(st: PathsState, normal: Vec3, s: nat, find: LoopFinder)
    requires s < |st.graph.segments|
    ensures var r := Turn(st, normal, s, find);
      st.walks <= r.walks && Advances(st.graph, r.graph) && Marks(r.graph, r.walks, |st.walks|)
  {
    var seg := st.graph.segments[s];
    var forward := if !Visited(seg, false) then find(st.graph, normal, s, false) else None;
    var backward := if !Visited(seg, true) then find(st.graph, normal, s, true) else None;
    var st1 := Accept(st, forward);
    var r := Accept(st1, backward);
    assert r == Turn(st, normal, s, find);
    AcceptMarks(st, forward);
    AcceptMarks(st1, backward);
    MarksAdvance(st1.graph, r.graph, st1.walks, |st.walks|);
    AdvancesTransitive(st.graph, st1.graph, r.graph);
    MarksExtend(r.graph, st1.walks, r.walks, |st.walks|);
  }

  /** find_paths only sets visited flags: endpoints and the segments' ends
      and directions stay as they were, and no flag is cleared. */
  lemma {:induction false} FindPathsMonotone(st: PathsState, normal: Vec3, n: nat, find: LoopFinder)
    requires n <= |st.graph.segments|
    ensures Advances(st.graph, FindPathsSpec(st, normal, n, find).graph)
    decreases n
  {
    if n > 0 {
      var r0 := FindPathsSpec(st, normal, n - 1, find);
      FindPathsMonotone(st, normal, n - 1, find);
      TurnMonotone(r0, normal, n - 1, find);
      AdvancesTransitive(st.graph, r0.graph, Turn(r0, normal, n - 1, find).graph);
    }
  }

  /** Every (segment, orientation) pair on a loop that find_paths returns is
      marked visited when it finishes. */
  lemma {:induction false} FindPathsMarksSteps(st: PathsState, normal: Vec3, n: nat, find: LoopFinder)
    requires n <= |st.graph.segments|
    ensures Marks(FindPathsSpec(st, normal, n, find).graph, FindPathsSpec(st, normal, n, find).walks, |st.walks|)
    decreases n
  {
    if n > 0 {
      var r0 := FindPathsSpec(st, normal, n - 1, find);
      FindPathsMarksSteps(st, normal, n - 1, find);
      TurnKeepsMarks(r0, normal, n - 1, find, |st.walks|);
    }
  }

  /** Marks made before a turn survive it. */
  lemma TurnKeepsMarks(st: PathsState, normal: Vec3, s: nat, find: LoopFinder, from: nat)
    requires s < |st.graph.segments| && from <= |st.walks| && Marks(st.graph, st.walks, from)
    ensures var r := Turn(st, normal, s, find);
      Marks(r.graph, r.walks, from)
  {
    var r := Turn(st, normal, s, find);
    TurnMonotone(st, normal, s, find);
    MarksAdvance(st.graph, r.graph, st.walks, from);
    MarksExtend(r.graph, st.walks, r.walks, from);
  }

  predicate AllVisited(g: Graph)
  {
    forall k :: 0 <= k < |g.segments| ==> Visited(g.segments[k], false) && Visited(g.segments[k], true)
  }

  /** When every orientation of every segment is already visited,
      find_paths returns nothing and changes nothing. */
  lemma {:induction false} AllVisitedNoPaths(st: PathsState, normal: Vec3, n: nat, find: LoopFinder)
    requires n <= |st.graph.segments| && AllVisited(st.graph)
    ensures FindPathsSpec(st, normal, n, find) == st
    decreases n
  {
    if n > 0 {
      AllVisitedNoPaths(st, normal, n - 1, find);
    }
  }

  function PointsOf(walks: seq<Walk>): seq<seq<Vec3>>
  {
    seq(|walks|, i requires 0 <= i < |walks| => walks[i].points)
  }

  lemma PointsOfAppend(x: seq<Walk>, y: seq<Walk>)
    ensures PointsOf(x + y) == PointsOf(x) + PointsOf(y)
  {
  }

  // ---------------------------------------------------- find_edge_traversals

  /** add_edge for each of the edges ids, starting from g. */
  function AddEdges(g: Graph, ar: Arena, ids: seq<nat>, zone: int): Graph
    requires WellFormed(ar) && RefsIn(ids, |ar.edgeStore|)
    decreases |ids|
  {
    if ids == [] then g
    else AddEdgeSpec(AddEdges(g, ar, ids[..|ids| - 1], zone), ar, ids[|ids| - 1], zone)
  }

  lemma AddEdgesStep(g: Graph, ar: Arena, ids: seq<nat>, i: nat, zone: int)
    requires WellFormed(ar) && RefsIn(ids, |ar.edgeStore|) && i < |ids|
    ensures AddEdges(g, ar, ids[..i + 1], zone) == AddEdgeSpec(AddEdges(g, ar, ids[..i], zone), ar, ids[i], zone)
  {
    assert ids[..i + 1][..i] == ids[..i];
  }

  /** find_edge_traversals on face f: the graph of the face's edges; no
      loops when fewer than three segments survive, else find_paths. */
  function TraversalsSpec(ar: Arena, f: nat, zone: int, find: LoopFinder): seq<seq<Vec3>>
    requires WellFormed(ar) && f < |ar.faceStore|
  {
    var g := AddEdges(Graph([], []), ar, ar.faceStore[f].edges, zone);
    if |g.segments| < 3 then []
    else PointsOf(FindPathsSpec(PathsState(g, []), ar.faceStore[f].n, |g.segments|, find).walks)
  }

  /** The graph built for a face is well formed and joins no pair twice. */
  lemma {:induction false} AddEdgesKeep(g: Graph, ar: Arena, ids: seq<nat>, zone: int)
    requires WellFormed(ar) && RefsIn(ids, |ar.edgeStore|) && GraphWellFormed(g) && Unique(g)
    ensures var r := AddEdges(g, ar, ids, zone);
      GraphWellFormed(r) && Unique(r) && Grows(g, r)
    decreases |ids|
  {
    if ids != [] {
      var n := |ids| - 1;
      var g0 := AddEdges(g, ar, ids[..n], zone);
      AddEdgesKeep(g, ar, ids[..n], zone);
      AddEdgeKeeps(g0, ar, ids[n], zone);
      var r := AddEdges(g, ar, ids, zone);
      assert r.segments[..|g.segments|] == r.segments[..|g0.segments|][..|g.segments|];
    }
  }

  // ---------------------------------------------------- the graph object

  /** The lists find_edge_traversals builds: endpoints and segments. */
  class SegmentGraph {
    var endpoints: seq<Endpoint>
    var segments: seq<Segment>

    function Snapshot(): Graph
      reads this
    {
      Graph(endpoints, segments)
    }

    ghost predicate Valid()
      reads this
    {
      GraphWellFormed(Snapshot()) && Unique(Snapshot())
    }

    constructor ()
      ensures Valid() && Snapshot() == Graph([], [])
    {
      endpoints, segments := [], [];
    }

    /** add_endpoint */
    method AddEndpoint(v: Vec3) returns (id: nat)
      requires Valid()
      modifies this
      ensures Valid()
      ensures id == EndpointFor(old(Snapshot()), v)
      ensures Snapshot() == WithEndpoint(old(Snapshot()), v)
    {
      ghost var g := Snapshot();
      AddEndpointMeaning(g, v);
      var i := 0;
      while i < |endpoints|
        invariant 0 <= i <= |endpoints| && Snapshot() == g
        invariant forall j :: 0 <= j < i ==> !ApproxEqualVec(v, endpoints[j].v)
      {
        var near := VectorsApproxEqual(v, endpoints[i].v);
        assert near.value <==> ApproxEqualVec(v, endpoints[i].v);
        if near.value {
          FirstNearIs(endpoints, v, i);
          assert WithEndpoint(g, v) == g;
          return i;
        }
        i := i + 1;
      }
      assert FirstNear(endpoints, v).None?;
      id := |endpoints|;
      endpoints := endpoints + [Endpoint(v, [], [])];
      assert Snapshot() == WithEndpoint(g, v);
      assert Unique(Snapshot()) by {
        assert Snapshot().segments == g.segments;
      }
    }

    /** The first scan of add_segment, over the segments starting at ea. */
    method ScanStarts(ea: nat, eb: nat) returns (found: bool)
      requires Valid() && ea < |endpoints|
      ensures found <==> StartsTo(Snapshot(), ea, eb)
    {
      var starts := endpoints[ea].startOf;
      var i := 0;
      while i < |starts|
        invariant 0 <= i <= |starts|
        invariant forall k :: 0 <= k < i ==> starts[k] < |segments| ==> segments[starts[k]].b != eb
      {
        assert starts[i] in endpoints[ea].startOf;
        if segments[starts[i]].b == eb {
          return true;
        }
        i := i + 1;
      }
      return false;
    }

    /** The second scan of add_segment, over the segments ending at ea. */
    method ScanEnds(ea: nat, eb: nat) returns (found: bool)
      requires Valid() && ea < |endpoints|
      ensures found <==> EndsFrom(Snapshot(), ea, eb)
    {
      var ends := endpoints[ea].endOf;
      var i := 0;
      while i < |ends|
        invariant 0 <= i <= |ends|
        invariant forall k :: 0 <= k < i ==> ends[k] < |segments| ==> segments[ends[k]].a != eb
      {
        assert ends[i] in endpoints[ea].endOf;
        if segments[ends[i]].a == eb {
          return true;
        }
        i := i + 1;
      }
      return false;
    }

    /** Creates the segment from ea to eb and registers it at both ends. */
    method LinkNew(ea: nat, eb: nat)
      requires Valid() && ea < |endpoints| && eb < |endpoints| && !Joined(Snapshot(), ea, eb)
      modifies this
      ensures Valid()
      ensures Snapshot() == Link(old(Snapshot()), ea, eb)
    {
      LinkKeeps(Snapshot(), ea, eb);
      var ns := |segments|;
      var seg := Segment(ea, eb, Plus(endpoints[eb].v, Scale(endpoints[ea].v, -1.0)), false, false);
      endpoints := endpoints[ea := AddStart(endpoints[ea], ns)];
      endpoints := endpoints[eb := AddEnd(endpoints[eb], ns)];
      segments := segments + [seg];
    }

    /** add_segment */
    method AddSegment(a: Vec3, b: Vec3)
      requires Valid()
      modifies this
      ensures Valid()
      ensures Snapshot() == AddSegmentSpec(old(Snapshot()), a, b)
    {
      ghost var g := Snapshot();
      var ea := AddEndpoint(a);
      ghost var g1 := Snapshot();
      var eb := AddEndpoint(b);
      ghost var g2 := Snapshot();
      AddEndpointMeaning(g, a);
      AddEndpointMeaning(g1, b);
      var there := ScanStarts(ea, eb);
      if there {
        return;
      }
      there := ScanEnds(ea, eb);
      if there {
        return;
      }
      ScansFindJoined(g2, ea, eb);
      LinkNew(ea, eb);
    }

    /** One passing pair of add_edge's loop, added to a graph the earlier
        pairs built. */
    method AddPiece(p: Vec3, q: Vec3, ghost g: Graph, ghost pts: seq<Keyed<Vec3>>, ghost n: nat,
                    ghost planes: seq<Plane>, ghost zone: int)
      requires n < |pts| || n == 0
      requires GraphWellFormed(g) && Unique(g) && Snapshot() == Pieces(g, pts, n, planes, zone)
      modifies this
      ensures Snapshot() == AddSegmentSpec(old(Snapshot()), p, q)
    {
      PiecesKeep(g, pts, n, planes, zone);
      AddSegment(p, q);
    }

    /** add_edge: the edge's points, sorted along it, cut into pieces. */
    method AddEdge(ar: Arena, e: nat, zone: int)
      requires Valid() && WellFormed(ar) && e < |ar.edgeStore|
      modifies this
      ensures Valid()
      ensures Snapshot() == AddEdgeSpec(old(Snapshot()), ar, e, zone)
    {
      var points := EdgePointsOf(ar, e);
      var sorted := SortByKey(points);
      SortByKeyCorrect(points);
      ghost var g := Snapshot();
      AddPieces(sorted, Planes(ar), zone);
      PiecesKeep(g, sorted, if |sorted| == 0 then 0 else |sorted| - 1, Planes(ar), zone);
    }

    /** The loop of add_edge over consecutive pairs of sorted points. */
    method AddPieces(sorted: seq<Keyed<Vec3>>, planes: seq<Plane>, zone: int)
      requires Valid()
      modifies this
      ensures Snapshot() == Pieces(old(Snapshot()), sorted, if |sorted| == 0 then 0 else |sorted| - 1, planes, zone)
    {
      ghost var g := Snapshot();
      var i := 0;
      while i + 1 < |sorted|
        invariant 0 <= i && (i < |sorted| || i == 0)
        invariant Snapshot() == Pieces(g, sorted, i, planes, zone)
      {
        var p, q := sorted[i].item, sorted[i + 1].item;
        var same := VectorsApproxEqual(p, q);
        assert same.value <==> ApproxEqualVec(p, q);
        if !same.value && SegmentInZone(p, q, planes, zone) {
          AddPiece(p, q, g, sorted, i, planes, zone);
        }
        i := i + 1;
      }
    }

    /** Marks the steps of an accepted loop. */
    method MarkWalk(steps: seq<Step>)
      requires Valid()
      modifies this
      ensures Valid()
      ensures Snapshot() == old(Snapshot()).(segments := MarkSteps(old(segments), steps))
    {
      ghost var segs0 := segments;
      ghost var g0 := Snapshot();
      var i := 0;
      while i < |steps|
        invariant 0 <= i <= |steps|
        invariant Snapshot() == g0.(segments := MarkSteps(segs0, steps[..i]))
      {
        assert steps[..i + 1][..i] == steps[..i];
        var st := steps[i];
        if st.seg < |segments| {
          segments := segments[st.seg := MarkOne(segments[st.seg], st.reversed)];
        }
        i := i + 1;
      }
      assert steps[..|steps|] == steps;
      MarkStepsKeeps(g0, steps);
    }

    /** One turn of find_paths: both loops asked for first, then each one
        found is marked and kept. */
    method VisitSegment(s: nat, normal: Vec3, find: LoopFinder, ghost st: PathsState) returns (accepted: seq<Walk>)
      requires Valid() && s < |segments| && st.graph == Snapshot()
      modifies this
      ensures Valid()
      ensures Snapshot() == Turn(st, normal, s, find).graph
      ensures Turn(st, normal, s, find).walks == st.walks + accepted
    {
      ghost var w0 := st.walks;
      var seg := segments[s];
      var forward: Option<Walk> := None;
      var backward: Option<Walk> := None;
      if !seg.visitedForward {
        forward := find(Snapshot(), normal, s, false);
      }
      if !seg.visitedReversed {
        backward := find(Snapshot(), normal, s, true);
      }
      accepted := [];
      if forward.Some? {
        MarkWalk(forward.value.steps);
        accepted := accepted + [forward.value];
      }
      ghost var st1 := Accept(st, forward);
      assert Snapshot() == st1.graph && st1.walks == w0 + accepted;
      if backward.Some? {
        MarkWalk(backward.value.steps);
        accepted := accepted + [backward.value];
      }
    }

    /** Turn s of find_paths, from the state the first s turns leave. */
    method VisitNext(s: nat, normal: Vec3, find: LoopFinder, ghost st0: PathsState) returns (accepted: seq<Walk>)
      requires s < |st0.graph.segments| && GraphWellFormed(st0.graph) && Unique(st0.graph)
      requires Snapshot() == FindPathsSpec(st0, normal, s, find).graph
      modifies this
      ensures Snapshot() == FindPathsSpec(st0, normal, s + 1, find).graph
      ensures FindPathsSpec(st0, normal, s + 1, find).walks == FindPathsSpec(st0, normal, s, find).walks + accepted
    {
      FindPathsStep(st0, normal, s, find);
      FindPathsMonotone(st0, normal, s, find);
      SameEndsKeep(st0.graph, Snapshot());
      accepted := VisitSegment(s, normal, find, FindPathsSpec(st0, normal, s, find));
    }

    /** find_paths: for each segment, a loop in each unvisited orientation;
        the steps of each loop found are marked and its points returned. */
    method FindPaths(normal: Vec3, find: LoopFinder) returns (paths: seq<seq<Vec3>>)
      requires Valid()
      modifies this
      ensures Valid()
      ensures var r := FindPathsSpec(PathsState(old(Snapshot()), []), normal, |old(segments)|, find);
        Snapshot() == r.graph && paths == PointsOf(r.walks)
    {
      ghost var st0 := PathsState(Snapshot(), []);
      ghost var walks: seq<Walk> := [];
      paths := [];
      var n := |segments|;
      var s := 0;
      while s < n
        invariant 0 <= s <= n == |st0.graph.segments|
        invariant Snapshot() == FindPathsSpec(st0, normal, s, find).graph
        invariant walks == FindPathsSpec(st0, normal, s, find).walks && paths == PointsOf(walks)
      {
        var accepted := VisitNext(s, normal, find, st0);
        PointsOfAppend(walks, accepted);
        paths := paths + PointsOf(accepted);
        walks := walks + accepted;
        s := s + 1;
      }
      FindPathsMonotone(st0, normal, n, find);
      SameEndsKeep(st0.graph, Snapshot());
    }
  }

  /** The t-value of a vertex on an edge, with the vector primitives. */
  method TValueOf(line: Line, v: Vec3) returns (t: real)
    ensures t == TValue(line, v)
  {
    var back := ScalMult(line.a, -1.0);
    var rel := VecAdd(v, back);
    assert rel.value == Plus(v, Scale(line.a, -1.0));
    var d := Dot(line.t, rel.value);
    t := d.value;
  }

  /** The first loop of add_edge: each vertex with its t-value. */
  method EdgePointsOf(ar: Arena, e: nat) returns (points: seq<Keyed<Vec3>>)
    requires WellFormed(ar) && e < |ar.edgeStore|
    ensures points == EdgePoints(ar, e)
  {
    var ed := ar.edgeStore[e];
    points := [];
    var i := 0;
    while i < |ed.vertices|
      invariant 0 <= i <= |ed.vertices|
      invariant points == EdgePoints(ar, e)[..i]
    {
      var v := ar.vertexStore[ed.vertices[i]].v;
      var t := TValueOf(LineOf(ed), v);
      points := points + [Keyed(v, t)];
      i := i + 1;
    }
  }

  /** find_edge_traversals: builds the segment graph of face f of the
      polyhedron and, when it has at least three segments, its loops. */
  method FindEdgeTraversals(poly: Polyhedron, f: nat, find: LoopFinder) returns (loops: seq<seq<Vec3>>)
    requires poly.Valid() && f < |poly.faceStore|
    ensures loops == TraversalsSpec(poly.Snapshot(), f, poly.zoneNumber, find)
    ensures |AddEdges(Graph([], []), poly.Snapshot(), poly.faceStore[f].edges, poly.zoneNumber).segments| < 3 ==> loops == []
  {
    var ar := poly.Snapshot();
    var graph := new SegmentGraph();
    var ids := ar.faceStore[f].edges;
    var i := 0;
    while i < |ids|
      invariant 0 <= i <= |ids|
      invariant graph.Valid()
      invariant graph.Snapshot() == AddEdges(Graph([], []), ar, ids[..i], poly.zoneNumber)
    {
      AddEdgesStep(Graph([], []), ar, ids, i, poly.zoneNumber);
      graph.AddEdge(ar, ids[i], poly.zoneNumber);
      i := i + 1;
    }
    assert ids[..|ids|] == ids;
    if |graph.segments| < 3 {
      return [];
    }
    loops := graph.FindPaths(ar.faceStore[f].n, find);
  }
}
