/** The earlier draft of the builder (the top-level geometry_calc.js). Its
    vector primitives and reciprocal_lattice are the ones of module Vectors;
    what is its own is a simpler add_plane_to_polyhedron: the plane is
    appended as the last face, its loop over the faces has an empty body (so
    no edge is ever created), and every vertex strictly beyond the plane, with
    no tolerance, is deactivated.

    The draft hands dot the whole vertex record instead of its position. A
    record has no length, so dot's length check fails on the first vertex and
    the call throws. AddPlaneAsWritten keeps that; AddPlane is the evidently
    intended sweep over positions. */
module Draft {
  import opened Vectors
  import opened Polyhedra

  /** What the vertex loop hands dot as its first argument: the vertex
      record itself (as written) or the vertex position (as intended). */
  datatype Argument = WholeVertex | Position

  /** A first argument of dot: an array of numbers, or a vertex record. */
  datatype Operand = Numbers(xs: Vec) | Record(vertex: Vertex)

  function OperandOf(arg: Argument, w: Vertex): Operand
  {
    match arg
    case WholeVertex => Record(w)
    case Position => Numbers(w.v)
  }

  /** The length property of an operand: a record has none (undefined). */
  function LengthOf(x: Operand): Option<nat>
  {
    match x
    case Numbers(xs) => Some(|xs|)
    case Record(_) => None
  }

  /** dot on an operand: the length check fails unless the operand is an
      array as long as b, and an undefined length never equals a number. */
  function DotOperand(x: Operand, b: Vec): (r: Result<real>)
    ensures r.Ok? <==> x.Numbers? && |x.xs| == |b|
  {
    if LengthOf(x) == Some(|b|) then Ok(Inner(x.xs, b)) else Err(DimensionMismatch)
  }

  /** The vertices after the loop, and the error it threw, if any. */
  datatype Sweep = Sweep(vertices: seq<Vertex>, failure: Option<VecError>)

  /** One turn of the vertex loop: dot(argument, n) either throws or
      decides whether the vertex lies strictly beyond the plane, in which
      case it is deactivated. */
  function Visit(w: Vertex, plane: Face, arg: Argument): (r: Result<Vertex>)
    ensures r.Ok? <==> arg.Position?
    ensures r.Ok? ==> r.value.v == w.v && (r.value.active <==> w.active && Inner(w.v, plane.n) <= plane.a)
  {
    match DotOperand(OperandOf(arg, w), plane.n)
    case Err(e) => Err(e)
    case Ok(d) => Ok(if d > plane.a then w.(active := false) else w)
  }

  /** The vertex loop of add_plane_to_polyhedron over vs, in order; once
      dot throws, the loop stops and the remaining vertices are untouched. */
  function SweepSpec(vs: seq<Vertex>, plane: Face, arg: Argument): (r: Sweep)
    ensures |r.vertices| == |vs|
    decreases |vs|
  {
    if vs == [] then Sweep([], None)
    else
      var n := |vs| - 1;
      var r0 := SweepSpec(vs[..n], plane, arg);
      if r0.failure.Some? then Sweep(r0.vertices + [vs[n]], r0.failure)
      else
        match Visit(vs[n], plane, arg)
        case Err(e) => Sweep(r0.vertices + [vs[n]], Some(e))
        case Ok(w) => Sweep(r0.vertices + [w], None)
  }

  lemma SweepStep(vs: seq<Vertex>, plane: Face, arg: Argument, i: nat)
    requires i < |vs|
    ensures SweepSpec(vs[..i + 1], plane, arg) ==
      var r0 := SweepSpec(vs[..i], plane, arg);
      if r0.failure.Some? then Sweep(r0.vertices + [vs[i]], r0.failure)
      else
        match Visit(vs[i], plane, arg)
        case Err(e) => Sweep(r0.vertices + [vs[i]], Some(e))
        case Ok(w) => Sweep(r0.vertices + [w], None)
  {
    assert vs[..i + 1][..i] == vs[..i];
  }

  /** Once the loop has thrown, the vertices not yet visited stay as they
      were and the error is the one thrown. */
  lemma {:induction false} SweepAfterFailure(vs: seq<Vertex>, plane: Face, arg: Argument, i: nat, j: nat)
    requires i <= j <= |vs| && SweepSpec(vs[..i], plane, arg).failure.Some?
    ensures SweepSpec(vs[..j], plane, arg)
         == Sweep(SweepSpec(vs[..i], plane, arg).vertices + vs[i..j], SweepSpec(vs[..i], plane, arg).failure)
    decreases j - i
  {
    if j > i {
      SweepAfterFailure(vs, plane, arg, i, j - 1);
      SweepStep(vs, plane, arg, j - 1);
      assert vs[i..j] == vs[i..j - 1] + [vs[j - 1]];
    }
  }

  /** What the loop has established after i turns: the first i vertices
      are swept without an error and the rest are as they were. */
  ghost predicate SweptTo(vs0: seq<Vertex>, vs: seq<Vertex>, i: nat, plane: Face, arg: Argument)
  {
    i <= |vs0| == |vs| && SweepSpec(vs0[..i], plane, arg) == Sweep(vs[..i], None) && vs[i..] == vs0[i..]
  }

  /** When dot throws at vertex i, the loop's outcome is that error, with
      the vertices as they are. */
  lemma SweepThrowsAt(vs0: seq<Vertex>, vs: seq<Vertex>, i: nat, plane: Face, arg: Argument, e: VecError)
    requires SweptTo(vs0, vs, i, plane, arg) && i < |vs0| && Visit(vs[i], plane, arg) == Err(e)
    ensures SweepSpec(vs0, plane, arg) == Sweep(vs, Some(e))
  {
    assert vs[i] == vs0[i];
    SweepStep(vs0, plane, arg, i);
    SweepAfterFailure(vs0, plane, arg, i + 1, |vs0|);
    assert vs[..i] + [vs0[i]] + vs0[i + 1..] == vs;
    assert vs0[..|vs0|] == vs0;
  }

  /** When dot succeeds at vertex i, the loop goes on with the visited
      vertex in its place. */
  lemma SweepGoesOn(vs0: seq<Vertex>, vs: seq<Vertex>, i: nat, plane: Face, arg: Argument, w: Vertex)
    requires SweptTo(vs0, vs, i, plane, arg) && i < |vs0| && Visit(vs[i], plane, arg) == Ok(w)
    ensures SweptTo(vs0, vs[i := w], i + 1, plane, arg)
  {
    assert vs[i] == vs0[i];
    SweepStep(vs0, plane, arg, i);
    assert vs[i := w][..i + 1] == vs[..i] + [w];
  }

  /** After the last turn the loop's outcome is the swept list. */
  lemma SweptAll(vs0: seq<Vertex>, vs: seq<Vertex>, plane: Face, arg: Argument)
    requires SweptTo(vs0, vs, |vs0|, plane, arg)
    ensures SweepSpec(vs0, plane, arg) == Sweep(vs, None)
  {
    assert vs0[..|vs0|] == vs0 && vs[..|vs|] == vs;
  }

  /** As written: with any vertex at all the loop throws at the first one,
      and no vertex changes. */
  lemma {:induction false} SweepRecordsThrows(vs: seq<Vertex>, plane: Face)
    ensures SweepSpec(vs, plane, WholeVertex).vertices == vs
    ensures SweepSpec(vs, plane, WholeVertex).failure == if vs == [] then None else Some(DimensionMismatch)
    decreases |vs|
  {
    if vs != [] {
      var n := |vs| - 1;
      SweepRecordsThrows(vs[..n], plane);
      assert vs == vs[..n] + [vs[n]];
    }
  }

  /** As intended: the loop never throws and deactivates exactly the
      vertices strictly beyond the plane, with no tolerance; positions never
      change and no vertex is reactivated. */
  lemma {:induction false} SweepPositionsExactly(vs: seq<Vertex>, plane: Face)
    ensures SweepSpec(vs, plane, Position).failure == None
    ensures forall k :: 0 <= k < |vs| ==>
      SweepSpec(vs, plane, Position).vertices[k].v == vs[k].v
      && (SweepSpec(vs, plane, Position).vertices[k].active <==> vs[k].active && Inner(vs[k].v, plane.n) <= plane.a)
    decreases |vs|
  {
    if vs != [] {
      var n := |vs| - 1;
      SweepPositionsExactly(vs[..n], plane);
      var r0 := SweepSpec(vs[..n], plane, Position);
      assert SweepSpec(vs, plane, Position).vertices == r0.vertices
        + [if Inner(vs[n].v, plane.n) > plane.a then vs[n].(active := false) else vs[n]];
    }
  }

  /** A concrete case of the discrepancy: one active vertex at the origin
      and the plane x <= 1. As written the call throws; as intended it keeps
      the vertex active. */
  lemma DraftThrowsOnInnerVertex()
    ensures var w := Vertex([0.0, 0.0, 0.0], true);
      var plane := Face([1.0, 0.0, 0.0], 1.0, [], true);
      SweepSpec([w], plane, WholeVertex).failure == Some(DimensionMismatch)
      && SweepSpec([w], plane, Position) == Sweep([w], None)
  {
    var w := Vertex([0.0, 0.0, 0.0], true);
    var plane := Face([1.0, 0.0, 0.0], 1.0, [], true);
    assert [w][..0] == [];
    assert Inner(w.v, plane.n) == 0.0 by {
      Inner3(w.v, plane.n);
    }
  }

  /** The draft's polyhedron: its faces and its vertices, in list order.
      The draft has no edges to speak of, so a vertex is referred to only by
      this list and is kept here by value. */
  class DraftPolyhedron {
    var faces: seq<Face>
    var vertices: seq<Vertex>

    constructor (faces: seq<Face>, vertices: seq<Vertex>)
      ensures this.faces == faces && this.vertices == vertices
    {
      this.faces := faces;
      this.vertices := vertices;
    }

    /** The vertex loop, handing dot the given argument for each vertex. */
    method DeactivateBeyond(plane: Face, arg: Argument) returns (failure: Option<VecError>)
      modifies this
      ensures faces == old(faces)
      ensures Sweep(vertices, failure) == SweepSpec(old(vertices), plane, arg)
    {
      ghost var vs0 := vertices;
      var vs := vertices;
      var i := 0;
      while i < |vs|
        invariant SweptTo(vs0, vs, i, plane, arg)
        invariant faces == old(faces)
      {
        var d := DotOperand(OperandOf(arg, vs[i]), plane.n);
        if d.Err? {
          SweepThrowsAt(vs0, vs, i, plane, arg, d.error);
          vertices := vs;
          return Some(d.error);
        }
        var w := if d.value > plane.a then vs[i].(active := false) else vs[i];
        SweepGoesOn(vs0, vs, i, plane, arg, w);
        vs := vs[i := w];
        i := i + 1;
      }
      SweptAll(vs0, vs, plane, arg);
      vertices := vs;
      return None;
    }

    /** add_plane_to_polyhedron as written: the plane becomes the last face,
        then dot is handed the vertex record, which throws at the first
        vertex. */
    method AddPlaneAsWritten(plane: Face) returns (failure: Option<VecError>)
      modifies this
      ensures faces == old(faces) + [plane]
      ensures vertices == old(vertices)
      ensures failure.Some? <==> old(vertices) != []
    {
      faces := faces + [plane];
      failure := DeactivateBeyond(plane, WholeVertex);
      SweepRecordsThrows(old(vertices), plane);
    }

    /** add_plane_to_polyhedron as intended: the plane becomes the last face
        and exactly the vertices strictly beyond it are deactivated. */
    method AddPlane(plane: Face)
      modifies this
      ensures faces == old(faces) + [plane]
      ensures |vertices| == |old(vertices)|
      ensures forall k :: 0 <= k < |vertices| ==>
        vertices[k].v == old(vertices)[k].v
        && (vertices[k].active <==> old(vertices)[k].active && Inner(old(vertices)[k].v, plane.n) <= plane.a)
    {
      faces := faces + [plane];
      var failure := DeactivateBeyond(plane, Position);
      SweepPositionsExactly(old(vertices), plane);
    }
  }
}
