/** Vectors, axis-aligned bounding boxes and node transforms.

    Coordinates are reals rather than IEEE floats. A node transform is the
    engine's 4x4 matrix restricted to a translation column and a diagonal
    scale; rotation is not modelled. */
module Geometry {
  import opened Base

  datatype Vec3 = Vec3(x: real, y: real, z: real)

  function Zero(): Vec3 { Vec3(0.0, 0.0, 0.0) }

  function Splat(s: real): Vec3 { Vec3(s, s, s) }

  function Add(a: Vec3, b: Vec3): Vec3 { Vec3(a.x + b.x, a.y + b.y, a.z + b.z) }

  function Sub(a: Vec3, b: Vec3): Vec3 { Vec3(a.x - b.x, a.y - b.y, a.z - b.z) }

  function Neg(a: Vec3): Vec3 { Vec3(-a.x, -a.y, -a.z) }

  function Scale(a: Vec3, k: real): Vec3 { Vec3(a.x * k, a.y * k, a.z * k) }

  /** Componentwise product (glm's `vec3 * vec3`). */
  function Mul(a: Vec3, b: Vec3): Vec3 { Vec3(a.x * b.x, a.y * b.y, a.z * b.z) }

  function Dot(a: Vec3, b: Vec3): real { a.x * b.x + a.y * b.y + a.z * b.z }

  /** Squared Euclidean distance; monotone in glm::distance. */
  function SqDist(a: Vec3, b: Vec3): real { Dot(Sub(a, b), Sub(a, b)) }

  function MinV(a: Vec3, b: Vec3): Vec3 { Vec3(Min(a.x, b.x), Min(a.y, b.y), Min(a.z, b.z)) }

  function MaxV(a: Vec3, b: Vec3): Vec3 { Vec3(Max(a.x, b.x), Max(a.y, b.y), Max(a.z, b.z)) }

  /** Float division where a zero divisor, which gives a non-finite value in
      IEEE arithmetic, is modelled as 0. */
  function SafeDiv(a: real, b: real): real { if b == 0.0 then 0.0 else a / b }

  /** Componentwise division (glm's `vec3 / vec3`). */
  function DivV(a: Vec3, b: Vec3): Vec3 { Vec3(SafeDiv(a.x, b.x), SafeDiv(a.y, b.y), SafeDiv(a.z, b.z)) }

  predicate NonZero(v: Vec3) { v.x != 0.0 && v.y != 0.0 && v.z != 0.0 }

  /** glm::normalize, left uninterpreted: every operation that needs it takes
      it as a parameter, and nothing is assumed about it. */
  type Normalizer = Vec3 -> Vec3

  /** Componentwise `<=`. */
  predicate LessEq(a: Vec3, b: Vec3) { a.x <= b.x && a.y <= b.y && a.z <= b.z }

  // ---------------------------------------------------------------------------
  // BoundingBox

  /** An axis-aligned box. Nothing forces `min <= max`: an inverted box is a
      legal value and simply contains no point. */
  datatype Box = Box(min: Vec3, max: Vec3)

  /** The default-constructed box, (0,0,0)..(1,1,1). */
  function DefaultBox(): Box { Box(Splat(0.0), Splat(1.0)) }

  /** A box whose min does not exceed its max on any axis. */
  predicate WellFormed(b: Box) { LessEq(b.min, b.max) }

  /** Inclusive range test on all three axes. */
  predicate Contains(b: Box, p: Vec3) {
    p.x >= b.min.x && p.x <= b.max.x && p.y >= b.min.y &&
    p.y <= b.max.y && p.z >= b.min.z && p.z <= b.max.z
  }

  /** Axis-aligned overlap test; touching faces count. */
  predicate Intersects(a: Box, b: Box) {
    a.min.x <= b.max.x && a.max.x >= b.min.x && a.min.y <= b.max.y &&
    a.max.y >= b.min.y && a.min.z <= b.max.z && a.max.z >= b.min.z
  }

  function Merge(a: Box, b: Box): Box { Box(MinV(a.min, b.min), MaxV(a.max, b.max)) }

  /** `expand` updates the box value in place; the model returns the new value. */
  function Expand(b: Box, p: Vec3): Box { Box(MinV(b.min, p), MaxV(b.max, p)) }

  function Center(b: Box): Vec3 { Scale(Add(b.min, b.max), 0.5) }

  function Size(b: Box): Vec3 { Sub(b.max, b.min) }

  /** `c` encloses `b`: every corner bound of `b` lies within `c`. */
  predicate Encloses(c: Box, b: Box) { LessEq(c.min, b.min) && LessEq(b.max, c.max) }

  lemma IntersectsSymmetric(a: Box, b: Box)
    ensures Intersects(a, b) <==> Intersects(b, a)
  {
  }

  /** Every face is part of the box: a point with one coordinate on that
      axis's `min` or `max` and the other two within range is contained. */
  lemma ContainsInclusive(b: Box, p: Vec3)
    requires WellFormed(b)
    requires ((p.x == b.min.x || p.x == b.max.x) && b.min.y <= p.y <= b.max.y && b.min.z <= p.z <= b.max.z) ||
             ((p.y == b.min.y || p.y == b.max.y) && b.min.x <= p.x <= b.max.x && b.min.z <= p.z <= b.max.z) ||
             ((p.z == b.min.z || p.z == b.max.z) && b.min.x <= p.x <= b.max.x && b.min.y <= p.y <= b.max.y)
    ensures Contains(b, p)
  {
  }

  /** A point contained in both boxes is a witness of their intersection. */
  lemma CommonPointIntersects(a: Box, b: Box, p: Vec3)
    requires Contains(a, p) && Contains(b, p)
    ensures Intersects(a, b)
  {
  }

  /** For well-formed boxes the overlap test is exact: it holds iff some point
      lies in both boxes. */
  lemma IntersectsIffCommonPoint(a: Box, b: Box)
    requires WellFormed(a) && WellFormed(b)
    ensures Intersects(a, b) <==> exists p :: Contains(a, p) && Contains(b, p)
  {
    if Intersects(a, b) {
      var p := MaxV(a.min, b.min);
      assert Contains(a, p) && Contains(b, p);
    }
  }

  lemma MergeCommutative(a: Box, b: Box)
    ensures Merge(a, b) == Merge(b, a)
  {
  }

  /** The union box contains every point either input contains. */
  lemma MergeContains(a: Box, b: Box, p: Vec3)
    requires Contains(a, p) || Contains(b, p)
    ensures Contains(Merge(a, b), p)
  {
  }

  /** The union encloses both inputs, and any box enclosing both encloses the
      union, so it is the smallest such box. */
  lemma MergeSmallest(a: Box, b: Box, c: Box)
    ensures Encloses(Merge(a, b), a) && Encloses(Merge(a, b), b)
    ensures Encloses(c, a) && Encloses(c, b) ==> Encloses(c, Merge(a, b))
  {
  }

  /** After `expand(p)` the box contains `p`, keeps every point it contained,
      and a second `expand(p)` changes nothing. */
  lemma ExpandProperties(b: Box, p: Vec3, q: Vec3)
    ensures Contains(Expand(b, p), p)
    ensures Contains(b, q) ==> Contains(Expand(b, p), q)
    ensures Expand(Expand(b, p), p) == Expand(b, p)
  {
  }

  /** Expanding keeps a well-formed box well-formed, and the result is the
      smallest box enclosing both the old box and the point. */
  lemma ExpandWellFormed(b: Box, p: Vec3, c: Box)
    requires WellFormed(b)
    ensures WellFormed(Expand(b, p))
    ensures Encloses(c, b) && Contains(c, p) ==> Encloses(c, Expand(b, p))
  {
  }

  /** Centre and size determine the box back: min = c - s/2, max = c + s/2. */
  lemma CenterSizeRoundTrip(b: Box)
    ensures Sub(Center(b), Scale(Size(b), 0.5)) == b.min
    ensures Add(Center(b), Scale(Size(b), 0.5)) == b.max
  {
  }

  // ---------------------------------------------------------------------------
  // Transforms

  /** A node's 4x4 matrix restricted to translation + diagonal scale: column 3
      holds `translation`, the diagonal holds `scale`. */
  datatype Transform = Transform(translation: Vec3, scale: Vec3)

  function Identity(): Transform { Transform(Zero(), Splat(1.0)) }

  /** Matrix product `outer * inner`. */
  function Compose(outer: Transform, inner: Transform): Transform {
    Transform(Add(Mul(outer.scale, inner.translation), outer.translation), Mul(outer.scale, inner.scale))
  }

  /** `m * vec4(p, 1)`, dropping w. */
  function Apply(m: Transform, p: Vec3): Vec3 { Add(Mul(m.scale, p), m.translation) }

  /** `inverse(m) * vec4(p, 1)`; a zero scale component (a singular matrix)
      yields 0 on that axis. */
  function InverseApply(m: Transform, p: Vec3): Vec3 { DivV(Sub(p, m.translation), m.scale) }

  /** Applying a product is applying its factors in turn. */
  lemma ApplyCompose(outer: Transform, inner: Transform, p: Vec3)
    ensures Apply(Compose(outer, inner), p) == Apply(outer, Apply(inner, p))
  {
  }

  /** Componentwise division by a vector without zero components is undone
      by multiplying back. */
  lemma DivMulCancel(s: Vec3, d: Vec3)
    requires NonZero(d)
    ensures Mul(DivV(s, d), d) == s
  {
  }

  /** The inverse undoes the transform when it is invertible. */
  lemma ApplyInverse(m: Transform, p: Vec3)
    requires NonZero(m.scale)
    ensures Apply(m, InverseApply(m, p)) == p
  {
  }
}
