/** Vector primitives and the reciprocal-lattice transform.
    Vectors are sequences of reals; the floating-point tolerance of the
    original is the exact constant Tol. */
module Vectors {

  type Vec = seq<real>

  /** A point or direction in three dimensions. */
  type Vec3 = v: seq<real> | |v| == 3 witness [0.0, 0.0, 0.0]

  /** The ways in which a primitive call fails (the original throws). */
  datatype VecError =
    | DimensionMismatch   // dot, vec_add, vectors_approx_equal on vectors of different lengths
    | InvalidDimension    // cross on a vector whose length is not 3
    | MissingVector       // fewer than three lattice vectors were given
    | DegenerateLattice   // zero triple product: the original divides by zero

  datatype Result<+T> = Ok(value: T) | Err(error: VecError)

  /** The one tolerance of the system, 10^-6. */
  const Tol: real := 0.000001

  /** approx_equal: |x - y| < 10^-6 */
  predicate ApproxEqual(x: real, y: real)
  {
    (if x - y < 0.0 then y - x else x - y) < Tol
  }

  /** The sum of componentwise products: what dot computes. */
  function Inner(a: Vec, b: Vec): real
    requires |a| == |b|
    decreases |a|
  {
    if |a| == 0 then 0.0 else Inner(a[..|a| - 1], b[..|b| - 1]) + a[|a| - 1] * b[|b| - 1]
  }

  /** The componentwise product of v with s: what scal_mult computes. */
  function Scale(v: Vec, s: real): Vec
  {
    seq(|v|, i requires 0 <= i < |v| => v[i] * s)
  }

  /** The componentwise sum: what vec_add computes. */
  function Plus(a: Vec, b: Vec): Vec
    requires |a| == |b|
  {
    seq(|a|, i requires 0 <= i < |a| => a[i] + b[i])
  }

  /** Componentwise tolerance equality: what vectors_approx_equal decides. */
  predicate ApproxEqualVec(a: Vec, b: Vec)
    requires |a| == |b|
  {
    forall i :: 0 <= i < |a| ==> ApproxEqual(a[i], b[i])
  }

  /** The cross-product formula. */
  function Cross3(a: Vec3, b: Vec3): Vec3
  {
    [a[1] * b[2] - a[2] * b[1],
     a[2] * b[0] - a[0] * b[2],
     a[0] * b[1] - a[1] * b[0]]
  }

  /** dot: fails on a length mismatch, otherwise sums the products in a loop. */
  method Dot(a: Vec, b: Vec) returns (r: Result<real>)
    ensures r.Err? <==> |a| != |b|
    ensures r.Err? ==> r.error == DimensionMismatch
    ensures r.Ok? ==> |a| == |b| && r.value == Inner(a, b)
  {
    if |a| != |b| {
      return Err(DimensionMismatch);
    }
    var s := 0.0;
    var i := 0;
    while i < |a|
      invariant 0 <= i <= |a|
      invariant s == Inner(a[..i], b[..i])
    {
      assert a[..i + 1][..i] == a[..i];
      assert b[..i + 1][..i] == b[..i];
      s := s + a[i] * b[i];
      i := i + 1;
    }
    assert a[..|a|] == a && b[..|b|] == b;
    return Ok(s);
  }

  /** cross: fails unless both vectors have three components. */
  function Cross(a: Vec, b: Vec): (r: Result<Vec>)
    ensures r.Err? <==> (|a| != 3 || |b| != 3)
    ensures r.Err? ==> r.error == InvalidDimension
    ensures r.Ok? ==> |r.value| == 3 && Inner(a, r.value) == 0.0 && Inner(b, r.value) == 0.0
  {
    if |a| != 3 || |b| != 3 then Err(InvalidDimension)
    else
      CrossOrthogonal(a, b);
      Ok(Cross3(a, b))
  }

  /** scal_mult: a vector of the same length, each component multiplied by s. */
  method ScalMult(v: Vec, s: real) returns (r: Vec)
    ensures |r| == |v|
    ensures forall i :: 0 <= i < |v| ==> r[i] == v[i] * s
    ensures r == Scale(v, s)
  {
    r := [];
    var i := 0;
    while i < |v|
      invariant 0 <= i <= |v|
      invariant |r| == i
      invariant forall k :: 0 <= k < i ==> r[k] == v[k] * s
    {
      r := r + [v[i] * s];
      i := i + 1;
    }
    assert forall k :: 0 <= k < |v| ==> r[k] == Scale(v, s)[k];
  }

  /** vec_add: fails on a length mismatch, otherwise adds componentwise. */
  method VecAdd(a: Vec, b: Vec) returns (r: Result<Vec>)
    ensures r.Err? <==> |a| != |b|
    ensures r.Err? ==> r.error == DimensionMismatch
    ensures r.Ok? ==> |r.value| == |a| && forall i :: 0 <= i < |a| ==> r.value[i] == a[i] + b[i]
  {
    if |a| != |b| {
      return Err(DimensionMismatch);
    }
    var acc: Vec := [];
    var i := 0;
    while i < |a|
      invariant 0 <= i <= |a|
      invariant |acc| == i
      invariant forall k :: 0 <= k < i ==> acc[k] == a[k] + b[k]
    {
      acc := acc + [a[i] + b[i]];
      i := i + 1;
    }
    return Ok(acc);
  }

  /** vectors_approx_equal: fails on a length mismatch; otherwise true exactly
      when every pair of components is within the tolerance. */
  method VectorsApproxEqual(a: Vec, b: Vec) returns (r: Result<bool>)
    ensures r.Err? <==> |a| != |b|
    ensures r.Err? ==> r.error == DimensionMismatch
    ensures r.Ok? ==> (r.value <==> forall i :: 0 <= i < |a| ==> ApproxEqual(a[i], b[i]))
  {
    if |a| != |b| {
      return Err(DimensionMismatch);
    }
    var i := 0;
    while i < |a|
      invariant 0 <= i <= |a|
      invariant forall k :: 0 <= k < i ==> ApproxEqual(a[k], b[k])
    {
      if !ApproxEqual(a[i], b[i]) {
        return Ok(false);
      }
      i := i + 1;
    }
    return Ok(true);
  }

  /** The inner product of two 3-vectors, written out. */
  lemma Inner3(a: Vec3, b: Vec3)
    ensures Inner(a, b) == a[0] * b[0] + a[1] * b[1] + a[2] * b[2]
  {
    assert a[..3] == a && b[..3] == b;
    assert a[..2][..1] == a[..1] && b[..2][..1] == b[..1];
    assert a[..1][..0] == [] && b[..1][..0] == [];
    assert Inner(a[..1], b[..1]) == a[0] * b[0];
    assert Inner(a[..2], b[..2]) == a[0] * b[0] + a[1] * b[1];
  }

  /** Scaling one side scales the inner product. */
  lemma {:induction false} InnerScale(v: Vec, w: Vec, s: real)
    requires |v| == |w|
    ensures Inner(Scale(v, s), w) == s * Inner(v, w)
    decreases |v|
  {
    if |v| > 0 {
      var n := |v| - 1;
      assert |Scale(v, s)[..n]| == |Scale(v[..n], s)| == n;
      assert forall i :: 0 <= i < n ==> Scale(v, s)[..n][i] == Scale(v[..n], s)[i];
      assert Scale(v, s)[..n] == Scale(v[..n], s);
      assert Scale(v, s)[n] == v[n] * s;
      InnerScale(v[..n], w[..n], s);
    }
  }

  /** The inner product is symmetric. */
  lemma {:induction false} InnerSymmetric(a: Vec, b: Vec)
    requires |a| == |b|
    ensures Inner(a, b) == Inner(b, a)
    decreases |a|
  {
    if |a| > 0 {
      InnerSymmetric(a[..|a| - 1], b[..|b| - 1]);
    }
  }

  /** The cross product is orthogonal to both of its arguments. */
  lemma CrossOrthogonal(a: Vec3, b: Vec3)
    ensures Inner(a, Cross3(a, b)) == 0.0
    ensures Inner(b, Cross3(a, b)) == 0.0
  {
    Inner3(a, Cross3(a, b));
    Inner3(b, Cross3(a, b));
    var c := Cross3(a, b);
    assert a[0] * c[0] + a[1] * c[1] + a[2] * c[2]
        == a[0] * (a[1] * b[2] - a[2] * b[1]) + a[1] * (a[2] * b[0] - a[0] * b[2]) + a[2] * (a[0] * b[1] - a[1] * b[0]);
    assert b[0] * c[0] + b[1] * c[1] + b[2] * c[2]
        == b[0] * (a[1] * b[2] - a[2] * b[1]) + b[1] * (a[2] * b[0] - a[0] * b[2]) + b[2] * (a[0] * b[1] - a[1] * b[0]);
  }

  /** The triple product a . (b x c). */
  function Triple(a: Vec3, b: Vec3, c: Vec3): real
  {
    Inner(a, Cross3(b, c))
  }

  /** The triple product is invariant under cyclic rotation. */
  lemma TripleCyclic(a: Vec3, b: Vec3, c: Vec3)
    ensures Triple(a, b, c) == Triple(b, c, a) == Triple(c, a, b)
  {
    var x, y, z := Cross3(b, c), Cross3(c, a), Cross3(a, b);
    assert x == [b[1] * c[2] - b[2] * c[1], b[2] * c[0] - b[0] * c[2], b[0] * c[1] - b[1] * c[0]];
    assert y == [c[1] * a[2] - c[2] * a[1], c[2] * a[0] - c[0] * a[2], c[0] * a[1] - c[1] * a[0]];
    assert z == [a[1] * b[2] - a[2] * b[1], a[2] * b[0] - a[0] * b[2], a[0] * b[1] - a[1] * b[0]];
    Inner3(a, x);
    Inner3(b, y);
    Inner3(c, z);
    assert Triple(b, c, a) == Inner(b, y) == b[0] * y[0] + b[1] * y[1] + b[2] * y[2];
    assert Triple(c, a, b) == Inner(c, z) == c[0] * z[0] + c[1] * z[1] + c[2] * z[2];
    assert Triple(a, b, c) == Inner(a, x) == a[0] * x[0] + a[1] * x[1] + a[2] * x[2];
    var e := a[0] * b[1] * c[2] - a[0] * b[2] * c[1] + a[1] * b[2] * c[0]
           - a[1] * b[0] * c[2] + a[2] * b[0] * c[1] - a[2] * b[1] * c[0];
    assert a[0] * x[0] == a[0] * b[1] * c[2] - a[0] * b[2] * c[1];
    assert a[1] * x[1] == a[1] * b[2] * c[0] - a[1] * b[0] * c[2];
    assert a[2] * x[2] == a[2] * b[0] * c[1] - a[2] * b[1] * c[0];
    assert b[0] * y[0] == a[2] * b[0] * c[1] - a[1] * b[0] * c[2];
    assert b[1] * y[1] == a[0] * b[1] * c[2] - a[2] * b[1] * c[0];
    assert b[2] * y[2] == a[1] * b[2] * c[0] - a[0] * b[2] * c[1];
    assert c[0] * z[0] == a[1] * b[2] * c[0] - a[2] * b[1] * c[0];
    assert c[1] * z[1] == a[2] * b[0] * c[1] - a[0] * b[2] * c[1];
    assert c[2] * z[2] == a[0] * b[1] * c[2] - a[1] * b[0] * c[2];
    assert Triple(a, b, c) == e;
    assert Triple(b, c, a) == e;
    assert Triple(c, a, b) == e;
  }

  /** reciprocal_lattice: the dual basis b_i = (a_j x a_k) / (a_0 . (a_1 x a_2)),
      with the factor 2 pi left out. */
  function ReciprocalLattice(lattice: seq<Vec>): (r: Result<seq<Vec3>>)
    ensures r.Ok? <==> |lattice| >= 3 && |lattice[0]| == 3 && |lattice[1]| == 3 && |lattice[2]| == 3
                        && Triple(lattice[0], lattice[1], lattice[2]) != 0.0
    ensures r.Ok? ==> |r.value| == 3
  {
    if |lattice| < 3 then Err(MissingVector)
    else if |lattice[1]| != 3 || |lattice[2]| != 3 then Err(InvalidDimension)
    else if |lattice[0]| != 3 then Err(DimensionMismatch)
    else
      var v := Triple(lattice[0], lattice[1], lattice[2]);
      if v == 0.0 then Err(DegenerateLattice)
      else
        var b0: Vec3 := Scale(Cross3(lattice[1], lattice[2]), 1.0 / v);
        var b1: Vec3 := Scale(Cross3(lattice[2], lattice[0]), 1.0 / v);
        var b2: Vec3 := Scale(Cross3(lattice[0], lattice[1]), 1.0 / v);
        Ok([b0, b1, b2])
  }

  /** The inner product with a scaled vector, taken from the other side. */
  lemma InnerScaledRight(u: Vec3, x: Vec3, s: real)
    ensures Inner(u, Scale(x, s)) == s * Inner(x, u)
  {
    InnerSymmetric(u, Scale(x, s));
    InnerScale(x, u, s);
  }

  /** The reciprocal basis is dual to the lattice: a_i . b_j is 1 when i = j
      and 0 otherwise. */
  lemma ReciprocalDuality(lattice: seq<Vec>)
    requires ReciprocalLattice(lattice).Ok?
    ensures var b := ReciprocalLattice(lattice).value;
            forall i, j :: 0 <= i < 3 && 0 <= j < 3 ==>
              Inner(lattice[i], b[j]) == if i == j then 1.0 else 0.0
  {
    var a0: Vec3, a1: Vec3, a2: Vec3 := lattice[0], lattice[1], lattice[2];
    var v := Triple(a0, a1, a2);
    var s := 1.0 / v;
    var b := ReciprocalLattice(lattice).value;
    TripleCyclic(a0, a1, a2);
    CrossOrthogonal(a1, a2);
    CrossOrthogonal(a2, a0);
    CrossOrthogonal(a0, a1);
    var cs := [Cross3(a1, a2), Cross3(a2, a0), Cross3(a0, a1)];
    forall i, j | 0 <= i < 3 && 0 <= j < 3
      ensures Inner(lattice[i], b[j]) == if i == j then 1.0 else 0.0
    {
      var ai: Vec3 := lattice[i];
      InnerScaledRight(ai, cs[j], s);
      InnerSymmetric(cs[j], ai);
      assert s * v == 1.0;
    }
  }
}
