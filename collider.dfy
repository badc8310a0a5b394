/** Colliders: the per-collider cache of world-space points, SAT axes and
    bounds, and the value types exchanged by the narrow phase.

    The owner node's world transform is handed to each operation as
    `pose: Option<Transform>`; `None` stands for an owner whose weak pointer
    no longer locks. */
module Colliders {
  import opened Base
  import opened Geometry

  /** Result of a SAT test; the default value is all zeros. */
  datatype SatProjection = SatProjection(mtv: Vec3, point: Vec3, normal: Vec3)

  function NoProjection(): SatProjection { SatProjection(Zero(), Zero(), Zero()) }

  /** `did_collide` as written: true exactly when the MTV is the zero
      vector, which is the projection of separated colliders. */
  predicate DidCollide(p: SatProjection) { p.mtv == Zero() }

  /** A contact between the nodes `a` and `b`. */
  datatype Collision = Collision(a: NodeId, b: NodeId, mtv: Vec3, normal: Vec3, point: Vec3)

  /** The `Collision` constructor: the two nodes plus the projection's data. */
  function MakeCollision(a: NodeId, b: NodeId, proj: SatProjection): (c: Collision)
    ensures c.a == a && c.b == b
    ensures c.mtv == proj.mtv && c.normal == proj.normal && c.point == proj.point
  {
    Collision(a, b, proj.mtv, proj.normal, proj.point)
  }

  // ---------------------------------------------------------------------------
  // Specification functions

  /** The eight local corners a box collider of `size` is built with: every
      coordinate is plus or minus half the size, the centre is not added. */
  function BoxCorners(size: Vec3): seq<Vec3> {
    var h := Scale(size, 0.5);
    [ Vec3(h.x, h.y, h.z), Vec3(-h.x, h.y, h.z), Vec3(-h.x, -h.y, h.z), Vec3(h.x, -h.y, h.z),
      Vec3(h.x, h.y, -h.z), Vec3(-h.x, h.y, -h.z), Vec3(-h.x, -h.y, -h.z), Vec3(h.x, -h.y, -h.z) ]
  }

  /** Each local point carried to world space by the owner's transform. */
  function WorldPoints(m: Transform, ls: seq<Vec3>): (r: seq<Vec3>)
    ensures |r| == |ls|
  {
    seq(|ls|, i requires 0 <= i < |ls| => Apply(m, ls[i]))
  }

  /** The axes from point `i` to the points `i+1 .. j-1`, in order. */
  function AxisRun(ps: seq<Vec3>, normalize: Normalizer, i: nat, j: nat): (r: seq<Vec3>)
    requires i < j <= |ps|
    ensures |r| == j - i - 1
  {
    seq(j - i - 1, k requires 0 <= k < j - i - 1 => normalize(Sub(ps[i + 1 + k], ps[i])))
  }

  /** The axes for all pairs whose first index is below `i`, ordered by
      first index and then by second. */
  function AxisRows(ps: seq<Vec3>, normalize: Normalizer, i: nat): seq<Vec3>
    requires i <= |ps|
  {
    if i == 0 then [] else AxisRows(ps, normalize, i - 1) + AxisRun(ps, normalize, i - 1, |ps|)
  }

  /** One normalised axis per pair `i < j` of points, in lexicographic order. */
  function PairAxes(ps: seq<Vec3>, normalize: Normalizer): seq<Vec3> {
    AxisRows(ps, normalize, |ps|)
  }

  /** `b` expanded by every point of `ps` in order. */
  function ExpandAll(b: Box, ps: seq<Vec3>): Box {
    if ps == [] then b else Expand(ExpandAll(b, ps[..|ps| - 1]), ps[|ps| - 1])
  }

  /** The bounds of a non-empty point list: the degenerate box at the first
      point, expanded by every point. */
  function BoundsOf(ps: seq<Vec3>): Box
    requires |ps| > 0
  {
    ExpandAll(Box(ps[0], ps[0]), ps)
  }

  /** Smallest projection of the points onto `axis`. */
  function DotMin(ps: seq<Vec3>, axis: Vec3): real
    requires |ps| > 0
  {
    if |ps| == 1 then Dot(ps[0], axis) else Min(DotMin(ps[..|ps| - 1], axis), Dot(ps[|ps| - 1], axis))
  }

  /** Largest projection of the points onto `axis`. */
  function DotMax(ps: seq<Vec3>, axis: Vec3): real
    requires |ps| > 0
  {
    if |ps| == 1 then Dot(ps[0], axis) else Max(DotMax(ps[..|ps| - 1], axis), Dot(ps[|ps| - 1], axis))
  }

  // ---------------------------------------------------------------------------
  // Lemmas about the specification functions

  /** The corners are pairwise distinct when no size component is zero, and
      for a non-negative size they are exactly bounded by -size/2 .. size/2. */
  lemma {:induction false} BoxCornersShape(size: Vec3)
    ensures |BoxCorners(size)| == 8
    ensures NonZero(size) ==> forall i, j :: 0 <= i < j < 8 ==> BoxCorners(size)[i] != BoxCorners(size)[j]
    ensures LessEq(Zero(), size) ==> BoundsOf(BoxCorners(size)) == Box(Neg(Scale(size, 0.5)), Scale(size, 0.5))
  {
    var cs := BoxCorners(size);
    var h := Scale(size, 0.5);
    if LessEq(Zero(), size) {
      assert cs[..1] == [cs[0]] && cs[..2] == cs[..1] + [cs[1]] && cs[..3] == cs[..2] + [cs[2]];
      assert cs[..4] == cs[..3] + [cs[3]] && cs[..5] == cs[..4] + [cs[4]] && cs[..6] == cs[..5] + [cs[5]];
      assert cs[..7] == cs[..6] + [cs[6]] && cs[..8] == cs;
      var b0 := Box(cs[0], cs[0]);
      assert ExpandAll(b0, cs[..1]) == b0;
      assert ExpandAll(b0, cs[..2]) == Box(Vec3(-h.x, h.y, h.z), h);
      assert ExpandAll(b0, cs[..3]) == Box(Vec3(-h.x, -h.y, h.z), h);
      assert ExpandAll(b0, cs[..4]) == Box(Vec3(-h.x, -h.y, h.z), h);
      assert ExpandAll(b0, cs[..5]) == Box(Vec3(-h.x, -h.y, -h.z), h);
      assert ExpandAll(b0, cs[..6]) == Box(Vec3(-h.x, -h.y, -h.z), h);
      assert ExpandAll(b0, cs[..7]) == Box(Vec3(-h.x, -h.y, -h.z), h);
      assert ExpandAll(b0, cs[..8]) == Box(Vec3(-h.x, -h.y, -h.z), h);
    }
  }

  /** Counting the pairs: the rows below `i` hold i(2n-i-1)/2 axes, so all
      of them hold n(n-1)/2. */
  lemma {:induction false} AxisRowsCount(ps: seq<Vec3>, normalize: Normalizer, i: nat)
    requires i <= |ps|
    ensures 2 * |AxisRows(ps, normalize, i)| == i * (2 * |ps| - i - 1)
  {
    if i > 0 {
      AxisRowsCount(ps, normalize, i - 1);
    }
  }

  lemma PairAxesCount(ps: seq<Vec3>, normalize: Normalizer)
    ensures 2 * |PairAxes(ps, normalize)| == |ps| * (|ps| - 1)
  {
    AxisRowsCount(ps, normalize, |ps|);
  }

  /** Every point lies inside the bounds, which are well-formed, and each
      face of the bounds is touched by some point. */
  lemma {:induction false} ExpandAllBounds(b: Box, ps: seq<Vec3>)
    requires |ps| > 0 && b == Box(ps[0], ps[0])
    ensures WellFormed(ExpandAll(b, ps))
    ensures forall i :: 0 <= i < |ps| ==> Contains(ExpandAll(b, ps), ps[i])
    ensures exists i :: 0 <= i < |ps| && ps[i].x == ExpandAll(b, ps).min.x
    ensures exists i :: 0 <= i < |ps| && ps[i].y == ExpandAll(b, ps).min.y
    ensures exists i :: 0 <= i < |ps| && ps[i].z == ExpandAll(b, ps).min.z
    ensures exists i :: 0 <= i < |ps| && ps[i].x == ExpandAll(b, ps).max.x
    ensures exists i :: 0 <= i < |ps| && ps[i].y == ExpandAll(b, ps).max.y
    ensures exists i :: 0 <= i < |ps| && ps[i].z == ExpandAll(b, ps).max.z
  {
    var n := |ps|;
    var r := ExpandAll(b, ps);
    if n == 1 {
      assert ps[..0] == [];
      assert r == b;
    } else {
      var init := ps[..n - 1];
      assert init[0] == ps[0];
      ExpandAllBounds(b, init);
      var q := ExpandAll(b, init);
      assert r == Expand(q, ps[n - 1]);
      forall i | 0 <= i < n ensures Contains(r, ps[i]) {
        if i < n - 1 { assert ps[i] == init[i]; }
      }
      var ix :| 0 <= ix < n - 1 && init[ix].x == q.min.x;
      var iy :| 0 <= iy < n - 1 && init[iy].y == q.min.y;
      var iz :| 0 <= iz < n - 1 && init[iz].z == q.min.z;
      var jx :| 0 <= jx < n - 1 && init[jx].x == q.max.x;
      var jy :| 0 <= jy < n - 1 && init[jy].y == q.max.y;
      var jz :| 0 <= jz < n - 1 && init[jz].z == q.max.z;
      var last := n - 1;
      assert ps[if r.min.x == q.min.x then ix else last].x == r.min.x;
      assert ps[if r.min.y == q.min.y then iy else last].y == r.min.y;
      assert ps[if r.min.z == q.min.z then iz else last].z == r.min.z;
      assert ps[if r.max.x == q.max.x then jx else last].x == r.max.x;
      assert ps[if r.max.y == q.max.y then jy else last].y == r.max.y;
      assert ps[if r.max.z == q.max.z then jz else last].z == r.max.z;
    }
  }

  /** The bounds of a point list contain every point, are well-formed, and
      have every min and max component attained by some point. */
  lemma BoundsOfTight(ps: seq<Vec3>)
    requires |ps| > 0
    ensures WellFormed(BoundsOf(ps))
    ensures forall i :: 0 <= i < |ps| ==> Contains(BoundsOf(ps), ps[i])
    ensures exists i :: 0 <= i < |ps| && ps[i].x == BoundsOf(ps).min.x
    ensures exists i :: 0 <= i < |ps| && ps[i].x == BoundsOf(ps).max.x
    ensures exists i :: 0 <= i < |ps| && ps[i].y == BoundsOf(ps).min.y
    ensures exists i :: 0 <= i < |ps| && ps[i].y == BoundsOf(ps).max.y
    ensures exists i :: 0 <= i < |ps| && ps[i].z == BoundsOf(ps).min.z
    ensures exists i :: 0 <= i < |ps| && ps[i].z == BoundsOf(ps).max.z
  {
    ExpandAllBounds(Box(ps[0], ps[0]), ps);
  }

  /** The projection interval: `min <= max`, every point's projection lies
      inside it, and both ends are attained. */
  lemma {:induction false} DotExtent(ps: seq<Vec3>, axis: Vec3)
    requires |ps| > 0
    ensures DotMin(ps, axis) <= DotMax(ps, axis)
    ensures forall i :: 0 <= i < |ps| ==> DotMin(ps, axis) <= Dot(ps[i], axis) <= DotMax(ps, axis)
    ensures exists i :: 0 <= i < |ps| && Dot(ps[i], axis) == DotMin(ps, axis)
    ensures exists i :: 0 <= i < |ps| && Dot(ps[i], axis) == DotMax(ps, axis)
  {
    var n := |ps|;
    if n > 1 {
      var init := ps[..n - 1];
      DotExtent(init, axis);
      forall i | 0 <= i < n ensures DotMin(ps, axis) <= Dot(ps[i], axis) <= DotMax(ps, axis) {
        if i < n - 1 { assert ps[i] == init[i]; }
      }
      var a :| 0 <= a < n - 1 && Dot(init[a], axis) == DotMin(init, axis);
      var b :| 0 <= b < n - 1 && Dot(init[b], axis) == DotMax(init, axis);
      assert Dot(ps[if DotMin(ps, axis) == DotMin(init, axis) then a else n - 1], axis) == DotMin(ps, axis);
      assert Dot(ps[if DotMax(ps, axis) == DotMax(init, axis) then b else n - 1], axis) == DotMax(ps, axis);
    }
  }

  // ---------------------------------------------------------------------------
  // The collider component

  /** A box collider attached to node `owner` as component `id`. */
  class Collider {
    const id: ComponentId
    const owner: NodeId
    var center: Vec3
    var size: Vec3
    var localPoints: seq<Vec3>
    var points: seq<Vec3>
    var axes: seq<Vec3>
    var bounds: Box
    var isDirty: bool
    var lastPosition: Vec3

    /** `BoxCollider(center, size)`: eight local corners, nothing computed in
        world space yet, and dirty. */
    constructor (id: ComponentId, owner: NodeId, center: Vec3, size: Vec3)
      ensures this.id == id && this.owner == owner
      ensures this.center == center && this.size == size
      ensures localPoints == BoxCorners(size) && |localPoints| == 8
      ensures points == [] && axes == [] && bounds == DefaultBox()
      ensures isDirty && lastPosition == Zero()
    {
      this.id := id;
      this.owner := owner;
      this.center := center;
      this.size := size;
      var h := Scale(size, 0.5);
      localPoints := [ Vec3(h.x, h.y, h.z), Vec3(-h.x, h.y, h.z), Vec3(-h.x, -h.y, h.z), Vec3(h.x, -h.y, h.z),
                       Vec3(h.x, h.y, -h.z), Vec3(-h.x, h.y, -h.z), Vec3(-h.x, -h.y, -h.z), Vec3(h.x, -h.y, -h.z) ];
      points := [];
      axes := [];
      bounds := DefaultBox();
      isDirty := true;
      lastPosition := Zero();
    }

    /** The collider's centre in world space: the owner's position plus the
        local centre offset. */
    function GetCenter(pose: Transform): Vec3
      reads this
    {
      Add(pose.translation, center)
    }

    /** Resizes `points` to the local point count and writes each local point
        carried to world space. An expired owner yields an empty list and
        leaves `points` alone. */
    method GetWorldPoints(pose: Option<Transform>) returns (r: seq<Vec3>)
      modifies this`points
      ensures pose.None? ==> r == [] && points == old(points)
      ensures pose.Some? ==> points == WorldPoints(pose.value, localPoints) && r == points
    {
      if pose.None? {
        return [];
      }
      var m := pose.value;
      var n := |localPoints|;
      if |points| != n {
        points := if |points| < n then points + seq(n - |points|, _ => Zero()) else points[..n];
      }
      var i := 0;
      while i < n
        invariant 0 <= i <= n && |points| == n
        invariant forall k :: 0 <= k < i ==> points[k] == Apply(m, localPoints[k])
      {
        points := points[i := Apply(m, localPoints[i])];
        i := i + 1;
      }
      r := points;
    }

    /** Discards the previous axes and rebuilds one normalised axis per pair
        of points. */
    method GetWorldAxes(normalize: Normalizer) returns (r: seq<Vec3>)
      modifies this`axes
      ensures axes == PairAxes(points, normalize) && r == axes
    {
      axes := [];
      var n := |points|;
      var i := 0;
      while i < n
        invariant 0 <= i <= n
        invariant axes == AxisRows(points, normalize, i)
      {
        var j := i + 1;
        while j < n
          invariant i + 1 <= j <= n
          invariant axes == AxisRows(points, normalize, i) + AxisRun(points, normalize, i, j)
        {
          assert AxisRun(points, normalize, i, j + 1) == AxisRun(points, normalize, i, j) + [normalize(Sub(points[j], points[i]))];
          axes := axes + [normalize(Sub(points[j], points[i]))];
          j := j + 1;
        }
        i := i + 1;
      }
      r := axes;
    }

    /** The default box when there are no points (the field is then left
        alone); otherwise `bounds` becomes the bounds of the points. */
    method GetWorldBounds() returns (r: Box)
      modifies this`bounds
      ensures |points| == 0 ==> r == DefaultBox() && bounds == old(bounds)
      ensures |points| > 0 ==> bounds == BoundsOf(points) && r == bounds
    {
      if |points| == 0 {
        return DefaultBox();
      }
      bounds := Box(points[0], points[0]);
      var i := 0;
      while i < |points|
        invariant 0 <= i <= |points|
        invariant bounds == ExpandAll(Box(points[0], points[0]), points[..i])
      {
        assert points[..i + 1][..i] == points[..i];
        bounds := Expand(bounds, points[i]);
        i := i + 1;
      }
      assert points[..i] == points;
      r := bounds;
    }

    /** Projects the points onto `axis`. With no points the incoming values
        come back unchanged; otherwise the result is the projection
        interval. */
    method Project(axis: Vec3, min0: real, max0: real) returns (mn: real, mx: real)
      ensures |points| == 0 ==> mn == min0 && mx == max0
      ensures |points| > 0 ==> mn == DotMin(points, axis) && mx == DotMax(points, axis)
    {
      if |points| == 0 {
        return min0, max0;
      }
      mn := Dot(points[0], axis);
      mx := mn;
      var i := 1;
      while i < |points|
        invariant 1 <= i <= |points|
        invariant mn == DotMin(points[..i], axis) && mx == DotMax(points[..i], axis)
      {
        assert points[..i + 1][..i] == points[..i];
        var projection := Dot(points[i], axis);
        mn := Min(mn, projection);
        mx := Max(mx, projection);
        i := i + 1;
      }
      assert points[..i] == points;
    }

    /** Recomputes points, axes and bounds from the owner's transform and
        clears the dirty flag; with an expired owner nothing changes. */
    method TransformCollider(pose: Option<Transform>, normalize: Normalizer)
      modifies this`points, this`axes, this`bounds, this`isDirty
      ensures pose.None? ==> points == old(points) && axes == old(axes) && bounds == old(bounds) && isDirty == old(isDirty)
      ensures pose.Some? ==> Recomputed(pose.value, normalize) && !isDirty
    {
      if pose.None? {
        return;
      }
      isDirty := false;
      points := GetWorldPoints(pose);
      axes := GetWorldAxes(normalize);
      bounds := GetWorldBounds();
    }

    /** The cached world data agree with the local points under `m`. */
    ghost predicate Recomputed(m: Transform, normalize: Normalizer)
      reads this
    {
      points == WorldPoints(m, localPoints) && axes == PairAxes(points, normalize) &&
      bounds == (if |points| == 0 then DefaultBox() else BoundsOf(points))
    }

    /** Dirty tracking: a moved owner marks the collider dirty, the position
        is recorded, and a dirty collider is recomputed, which clears the
        flag. */
    method Update(pose: Option<Transform>, normalize: Normalizer)
      modifies this`points, this`axes, this`bounds, this`isDirty, this`lastPosition
      ensures pose.None? ==> points == old(points) && axes == old(axes) && bounds == old(bounds) &&
                             isDirty == old(isDirty) && lastPosition == old(lastPosition)
      ensures pose.Some? ==> lastPosition == pose.value.translation && !isDirty
      ensures pose.Some? && (old(isDirty) || old(lastPosition) != pose.value.translation) ==>
                Recomputed(pose.value, normalize)
      ensures pose.Some? && !old(isDirty) && old(lastPosition) == pose.value.translation ==>
                points == old(points) && axes == old(axes) && bounds == old(bounds)
    {
      if pose.Some? {
        var position := pose.value.translation;
        if lastPosition != position {
          isDirty := true;
        }
        lastPosition := position;
        if isDirty {
          TransformCollider(pose, normalize);
        }
      }
    }

    /** The points taken two at a time, which is the point list itself. */
    method GetIndices() returns (r: seq<Vec3>)
      requires |points| % 2 == 0
      ensures r == points
    {
      r := [];
      var i := 0;
      while i < |points|
        invariant 0 <= i <= |points| && i % 2 == 0
        invariant r == points[..i]
      {
        r := r + [points[i], points[i + 1]];
        assert points[..i + 2] == points[..i] + [points[i], points[i + 1]];
        i := i + 2;
      }
      assert points[..i] == points;
    }

    /** `get_closest_point_to` as written: the loop variable shadows the
        query point, so every distance is zero, the first point wins and the
        query is ignored; no points give the zero vector. */
    method GetClosestPointTo(query: Vec3) returns (r: Vec3)
      ensures |points| > 0 ==> r == points[0]
      ensures |points| == 0 ==> r == Zero()
    {
      var min: Option<real> := None;
      var closest := Zero();
      var i := 0;
      while i < |points|
        invariant 0 <= i <= |points|
        invariant i == 0 ==> min.None?
        invariant i > 0 ==> min == Some(0.0) && closest == points[0]
      {
        var point := points[i];
        var distance := SqDist(point, point);
        if min.None? || distance < min.value {
          min := Some(distance);
          closest := point;
        }
        i := i + 1;
      }
      if min.None? {
        return Zero();
      }
      r := closest;
    }
  }
}
