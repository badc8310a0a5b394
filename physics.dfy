/** Rigid bodies, the narrow-phase separating-axis test, collision
    resolution and the physics step that ties them to the octree.

    `Physics` keeps the colliders and rigid bodies created through it, the
    octree root and the shared node arena. A step integrates every body,
    rebuilds the tree from the colliders' owners and then, collider by
    collider, queries the tree, runs the separating-axis test against each
    other node's collider and resolves the contacts it finds. */
module Physics {
  import opened Base
  import opened Geometry
  import opened Colliders
  import SceneGraph
  import opened Octrees

  /** The downward acceleration `integrate` applies, per unit of time. */
  const Gravity: real := 9.81

  /** The size of the octree root on every axis: -1000..1000. */
  const WorldExtent: real := 1000.0

  // ---------------------------------------------------------------------------
  // Node footprints

  /** The box the octree files a node under: its world position plus and
      minus half its world scale. Nodes outside the arena get the default
      box; the tree only ever sees live nodes. */
  function NodeBounds(nodes: SceneGraph.Nodes, n: NodeId): Box {
    if n in nodes then
      var p := SceneGraph.PositionOf(nodes, n, |nodes|);
      var h := Scale(SceneGraph.ScaleOf(nodes, n, |nodes|), 0.5);
      Box(Sub(p, h), Add(p, h))
    else DefaultBox()
  }

  /** The footprint of every node in the current arena. */
  function FootprintOf(nodes: SceneGraph.Nodes): Footprint {
    (n: NodeId) => NodeBounds(nodes, n)
  }

  /** A node's footprint is centred on its position and has its scale as
      size, so a node of non-negative scale lies inside its footprint. */
  lemma NodeBoundsCentred(nodes: SceneGraph.Nodes, n: NodeId)
    requires n in nodes
    ensures Center(NodeBounds(nodes, n)) == SceneGraph.PositionOf(nodes, n, |nodes|)
    ensures Size(NodeBounds(nodes, n)) == SceneGraph.ScaleOf(nodes, n, |nodes|)
    ensures LessEq(Zero(), SceneGraph.ScaleOf(nodes, n, |nodes|)) ==>
      Contains(NodeBounds(nodes, n), SceneGraph.PositionOf(nodes, n, |nodes|))
  {
  }

  // ---------------------------------------------------------------------------
  // Rigid-body quantities

  /** `compute_inertia`: a twelfth of the mass times the sum of the squared
      scale components. */
  function BoxInertia(mass: real, scale: Vec3): real {
    (1.0 / 12.0) * mass * (scale.x * scale.x + scale.y * scale.y + scale.z * scale.z)
  }

  /** A non-negative mass gives a non-negative inertia, and a cube of side
      `a` gets a quarter of `mass * a * a`. */
  lemma BoxInertiaProperties(mass: real, scale: Vec3, a: real)
    ensures mass >= 0.0 ==> BoxInertia(mass, scale) >= 0.0
    ensures BoxInertia(mass, Splat(a)) == mass * a * a / 4.0
  {
    assert scale.x * scale.x + scale.y * scale.y + scale.z * scale.z >= 0.0;
    if mass >= 0.0 {
      assert BoxInertia(mass, scale) == (mass / 12.0) * (scale.x * scale.x + scale.y * scale.y + scale.z * scale.z);
    }
  }

  /** The velocity `integrate` leaves behind: gravity lowers the y component
      by 9.81 per unit of time when the body uses gravity. */
  function AfterGravity(v: Vec3, usingGravity: bool, dt: real): Vec3 {
    if usingGravity then v.(y := v.y - Gravity * dt) else v
  }

  /** Drag scales every component by the same factor: a factor in [0, 1]
      never speeds a component up, and a non-zero factor never brings a
      moving body to rest, so the snap to zero `apply_drag` intends for
      slow bodies never happens. */
  lemma DragProperties(v: Vec3, drag: real)
    ensures 0.0 <= drag <= 1.0 ==>
      Abs(Scale(v, drag).x) <= Abs(v.x) && Abs(Scale(v, drag).y) <= Abs(v.y) && Abs(Scale(v, drag).z) <= Abs(v.z)
    ensures drag != 0.0 && v != Zero() ==> Scale(v, drag) != Zero()
  {
    if 0.0 <= drag <= 1.0 {
      AbsScale(v.x, drag);
      AbsScale(v.y, drag);
      AbsScale(v.z, drag);
    }
  }

  function Abs(r: real): real { if r < 0.0 then -r else r }

  lemma AbsScale(r: real, k: real)
    requires 0.0 <= k <= 1.0
    ensures Abs(r * k) <= Abs(r)
  {
    if r >= 0.0 {
      assert r * k <= r * 1.0;
    } else {
      assert r * k >= r * 1.0;
    }
  }

  /** Gravity touches only the vertical component, by exactly 9.81 per unit
      of time, and `k` steps of length `dt` lower it by `k` times that. */
  lemma {:induction false} GravitySteps(v: Vec3, dt: real, k: nat)
    ensures AfterGravity(v, false, dt) == v
    ensures Fall(v, dt, k).x == v.x && Fall(v, dt, k).z == v.z
    ensures Fall(v, dt, k).y == v.y - (k as real) * Gravity * dt
  {
    if k > 0 {
      GravitySteps(v, dt, k - 1);
    }
  }

  /** `k` gravity steps of length `dt`. */
  function Fall(v: Vec3, dt: real, k: nat): Vec3 {
    if k == 0 then v else AfterGravity(Fall(v, dt, k - 1), true, dt)
  }

  // ---------------------------------------------------------------------------
  // The separating-axis test

  /** How far the projections of two point sets onto `axis` overlap; a
      negative value is a gap. */
  function Overlap(ap: seq<Vec3>, bp: seq<Vec3>, axis: Vec3): real
    requires |ap| > 0 && |bp| > 0
  {
    Min(DotMax(ap, axis), DotMax(bp, axis)) - Max(DotMin(ap, axis), DotMin(bp, axis))
  }

  /** The state of the axis loop: stopped at a gap, or the smallest overlap
      so far (none before the first axis). */
  datatype Scan = Separated | NoneYet | Best(axis: Vec3, overlap: real)

  /** The axis loop of `sat_project` over the first `k` axes: a negative
      overlap stops it; otherwise a strictly smaller overlap replaces the
      best one, so ties keep the earlier axis. */
  function ScanAxes(ap: seq<Vec3>, bp: seq<Vec3>, axes: seq<Vec3>, k: nat): Scan
    requires |ap| > 0 && |bp| > 0 && k <= |axes|
  {
    if k == 0 then NoneYet
    else
      var prev := ScanAxes(ap, bp, axes, k - 1);
      var o := Overlap(ap, bp, axes[k - 1]);
      if prev.Separated? then Separated
      else if o < 0.0 then Separated
      else if prev.NoneYet? || o < prev.overlap then Best(axes[k - 1], o)
      else prev
  }

  /** `sat_project(a, b)`: the minimum translation vector along the axis of
      smallest overlap, turned to point from `a`'s centre towards `b`'s,
      with its normalisation as the normal and `a`'s closest point as the
      contact point (which, as written, is `a`'s first point). A gap on any
      axis gives the empty projection. */
  function SatOf(ap: seq<Vec3>, bp: seq<Vec3>, axes: seq<Vec3>, aCenter: Vec3, bCenter: Vec3, normalize: Normalizer): SatProjection {
    if |ap| == 0 || |bp| == 0 then NoProjection()
    else
      match ScanAxes(ap, bp, axes, |axes|)
      case Separated => NoProjection()
      case NoneYet => NoProjection()
      case Best(axis, overlap) =>
        var mtv0 := Scale(axis, overlap);
        var mtv := if Dot(Sub(bCenter, aCenter), mtv0) < 0.0 then Neg(mtv0) else mtv0;
        SatProjection(mtv, ap[0], normalize(mtv))
  }

  /** The loop stops at a gap exactly when some axis shows one. */
  lemma {:induction false} ScanSeparatedIff(ap: seq<Vec3>, bp: seq<Vec3>, axes: seq<Vec3>, k: nat)
    requires |ap| > 0 && |bp| > 0 && k <= |axes|
    ensures ScanAxes(ap, bp, axes, k).Separated? <==> exists j :: 0 <= j < k && Overlap(ap, bp, axes[j]) < 0.0
  {
    if k > 0 {
      ScanSeparatedIff(ap, bp, axes, k - 1);
    }
  }

  /** Once stopped, the loop stays stopped. */
  lemma {:induction false} ScanStaysSeparated(ap: seq<Vec3>, bp: seq<Vec3>, axes: seq<Vec3>, k: nat)
    requires |ap| > 0 && |bp| > 0 && 0 < k <= |axes| && ScanAxes(ap, bp, axes, k).Separated?
    ensures ScanAxes(ap, bp, axes, |axes|).Separated?
    decreases |axes| - k
  {
    if k < |axes| {
      ScanStaysSeparated(ap, bp, axes, k + 1);
    }
  }

  /** Without a gap, the loop ends on the first axis of smallest overlap
      (once there is at least one axis). */
  lemma {:induction false} ScanBest(ap: seq<Vec3>, bp: seq<Vec3>, axes: seq<Vec3>, k: nat)
    requires |ap| > 0 && |bp| > 0 && k <= |axes|
    ensures ScanAxes(ap, bp, axes, k).NoneYet? <==> k == 0
    ensures ScanAxes(ap, bp, axes, k).Best? ==>
      var s := ScanAxes(ap, bp, axes, k);
      s.overlap >= 0.0 &&
      (exists j :: 0 <= j < k && axes[j] == s.axis && Overlap(ap, bp, axes[j]) == s.overlap &&
         forall i :: 0 <= i < j ==> s.overlap < Overlap(ap, bp, axes[i])) &&
      forall i :: 0 <= i < k ==> s.overlap <= Overlap(ap, bp, axes[i])
  {
    if k > 0 {
      ScanBest(ap, bp, axes, k - 1);
      var s := ScanAxes(ap, bp, axes, k);
      var prev := ScanAxes(ap, bp, axes, k - 1);
      if s.Best? && s != prev {
        assert axes[k - 1] == s.axis && Overlap(ap, bp, axes[k - 1]) == s.overlap;
      }
    }
  }

  /** The translation vector never points from `b` back towards `a`. */
  lemma SatPointsAway(ap: seq<Vec3>, bp: seq<Vec3>, axes: seq<Vec3>, aCenter: Vec3, bCenter: Vec3, normalize: Normalizer)
    ensures Dot(Sub(bCenter, aCenter), SatOf(ap, bp, axes, aCenter, bCenter, normalize).mtv) >= 0.0
  {
    var r := SatOf(ap, bp, axes, aCenter, bCenter, normalize);
    if |ap| > 0 && |bp| > 0 && ScanAxes(ap, bp, axes, |axes|).Best? {
      var s := ScanAxes(ap, bp, axes, |axes|);
      var mtv0 := Scale(s.axis, s.overlap);
      DotNeg(Sub(bCenter, aCenter), mtv0);
    }
  }

  /** Turning a vector round negates its dot products. */
  lemma DotNeg(a: Vec3, b: Vec3)
    ensures Dot(a, Neg(b)) == -Dot(a, b)
  {
  }

  /** A gap on any axis gives the zero translation vector, for which
      `did_collide` answers true: the predicate is named the wrong way
      round. */
  lemma SeparatedGivesZero(ap: seq<Vec3>, bp: seq<Vec3>, axes: seq<Vec3>, aCenter: Vec3, bCenter: Vec3, normalize: Normalizer, j: nat)
    requires |ap| > 0 && |bp| > 0 && j < |axes| && Overlap(ap, bp, axes[j]) < 0.0
    ensures SatOf(ap, bp, axes, aCenter, bCenter, normalize) == NoProjection()
    ensures DidCollide(SatOf(ap, bp, axes, aCenter, bCenter, normalize))
  {
    ScanSeparatedIff(ap, bp, axes, |axes|);
  }

  /** Two point sets that share a point overlap on every axis, so the test
      never reports a gap for them. */
  lemma SharedPointNeverSeparated(ap: seq<Vec3>, bp: seq<Vec3>, axes: seq<Vec3>, i: nat, j: nat)
    requires i < |ap| && j < |bp| && ap[i] == bp[j]
    ensures forall k :: 0 <= k < |axes| ==> Overlap(ap, bp, axes[k]) >= 0.0
    ensures !ScanAxes(ap, bp, axes, |axes|).Separated?
  {
    forall k | 0 <= k < |axes| ensures Overlap(ap, bp, axes[k]) >= 0.0 {
      DotExtent(ap, axes[k]);
      DotExtent(bp, axes[k]);
    }
    ScanSeparatedIff(ap, bp, axes, |axes|);
  }

  // ---------------------------------------------------------------------------
  // Collision response on values

  /** `resolve_static_to_dynamic_collision`'s new velocity: the impulse is
      the normal speed divided by the inverse mass, and 0.8 of it is taken
      off along the normal. */
  function StaticBounce(v: Vec3, n: Vec3, mass: real): Vec3
    requires mass != 0.0
  {
    var impulse := Dot(v, n) / (1.0 / mass);
    Sub(v, Scale(n, impulse * 0.8))
  }

  /** Dividing by an inverse is multiplying. */
  lemma DivByInverse(a: real, m: real)
    requires m != 0.0
    ensures a / (1.0 / m) == a * m
  {
  }

  /** Taking `k` times `n` off `v` takes `k` times `n . n` off `v . n`. */
  lemma DotSubScale(v: Vec3, n: Vec3, k: real)
    ensures Dot(Sub(v, Scale(n, k)), n) == Dot(v, n) - k * Dot(n, n)
  {
    assert (v.x - n.x * k) * n.x == v.x * n.x - k * (n.x * n.x);
    assert (v.y - n.y * k) * n.y == v.y * n.y - k * (n.y * n.y);
    assert (v.z - n.z * k) * n.z == v.z * n.z - k * (n.z * n.z);
  }

  /** Along a unit normal the static response multiplies the normal speed
      by `1 - 0.8 * mass`: a unit mass keeps a fifth of its approach speed
      and only a mass above 1.25 turns round. */
  lemma StaticBounceNormal(v: Vec3, n: Vec3, mass: real)
    requires mass != 0.0 && Dot(n, n) == 1.0
    ensures Dot(StaticBounce(v, n, mass), n) == Dot(v, n) * (1.0 - 0.8 * mass)
  {
    DivByInverse(Dot(v, n), mass);
    DotSubScale(v, n, Dot(v, n) / (1.0 / mass) * 0.8);
  }

  /** A mass of 5 moving down at speed 1 onto an upward normal leaves
      upward at speed 3. */
  lemma StaticBounceExample()
    ensures StaticBounce(Vec3(0.0, -1.0, 0.0), Vec3(0.0, 1.0, 0.0), 5.0) == Vec3(0.0, 3.0, 0.0)
  {
    var v, n := Vec3(0.0, -1.0, 0.0), Vec3(0.0, 1.0, 0.0);
    assert Dot(v, n) == -1.0;
    DivByInverse(-1.0, 5.0);
    assert Dot(v, n) / (1.0 / 5.0) * 0.8 == -4.0;
    assert Scale(n, -4.0) == Vec3(0.0, -4.0, 0.0);
  }

  /** `resolve_dynamic_collision`'s impulse: the relative normal speed over
      the sum of the inverse masses (a zero sum, which gives a non-finite
      value in floats, gives 0 here). */
  function DynamicImpulse(va: Vec3, vb: Vec3, n: Vec3, ma: real, mb: real): real
    requires ma != 0.0 && mb != 0.0
  {
    SafeDiv(Dot(Sub(vb, va), n), 1.0 / ma + 1.0 / mb)
  }

  /** The two new velocities of a dynamic contact. */
  function DynamicVelocities(va: Vec3, vb: Vec3, n: Vec3, ma: real, mb: real): (Vec3, Vec3)
    requires ma != 0.0 && mb != 0.0
  {
    var impulse := DynamicImpulse(va, vb, n, ma, mb);
    (Add(va, Scale(n, impulse / ma)), Sub(vb, Scale(n, impulse / mb)))
  }

  /** Adding a vector and then subtracting it again changes nothing. */
  lemma AddSubCancel(v: Vec3, d: Vec3)
    ensures Sub(Add(v, d), d) == v
  {
  }

  /** Adding `i / m` times `n` to `v` and scaling by `m` adds `i` times `n`. */
  lemma ScaleAddDiv(v: Vec3, n: Vec3, i: real, m: real)
    requires m != 0.0
    ensures Scale(Add(v, Scale(n, i / m)), m) == Add(Scale(v, m), Scale(n, i))
    ensures Scale(Sub(v, Scale(n, i / m)), m) == Sub(Scale(v, m), Scale(n, i))
  {
    assert (v.x + n.x * (i / m)) * m == v.x * m + n.x * i;
    assert (v.y + n.y * (i / m)) * m == v.y * m + n.y * i;
    assert (v.z + n.z * (i / m)) * m == v.z * m + n.z * i;
    assert (v.x - n.x * (i / m)) * m == v.x * m - n.x * i;
    assert (v.y - n.y * (i / m)) * m == v.y * m - n.y * i;
    assert (v.z - n.z * (i / m)) * m == v.z * m - n.z * i;
  }

  /** A dynamic contact conserves momentum. */
  lemma DynamicMomentum(va: Vec3, vb: Vec3, n: Vec3, ma: real, mb: real)
    requires ma != 0.0 && mb != 0.0
    ensures var (va', vb') := DynamicVelocities(va, vb, n, ma, mb);
      Add(Scale(va', ma), Scale(vb', mb)) == Add(Scale(va, ma), Scale(vb, mb))
  {
    var impulse := DynamicImpulse(va, vb, n, ma, mb);
    ScaleAddDiv(va, n, impulse, ma);
    ScaleAddDiv(vb, n, impulse, mb);
  }

  /** Along a unit normal a dynamic contact leaves no relative normal speed
      (a perfectly inelastic response), unless the inverse masses cancel. */
  lemma DynamicStopsApproach(va: Vec3, vb: Vec3, n: Vec3, ma: real, mb: real)
    requires ma != 0.0 && mb != 0.0 && Dot(n, n) == 1.0 && 1.0 / ma + 1.0 / mb != 0.0
    ensures var (va', vb') := DynamicVelocities(va, vb, n, ma, mb); Dot(Sub(vb', va'), n) == 0.0
  {
    var impulse := DynamicImpulse(va, vb, n, ma, mb);
    var (va', vb') := DynamicVelocities(va, vb, n, ma, mb);
    var w := 1.0 / ma + 1.0 / mb;
    var d := Dot(Sub(vb, va), n);
    assert impulse == d / w;
    assert impulse / ma + impulse / mb == impulse * w;
    assert Sub(vb', va') == Sub(Sub(vb, va), Scale(n, impulse / ma + impulse / mb));
    DotSubScale(Sub(vb, va), n, impulse * w);
    assert impulse * w == d;
  }

  /** One more motion moves one more live owner. */
  lemma MovedSnoc(nodes: SceneGraph.Nodes, ms: seq<(NodeId, Vec3)>, i: nat, dt: real)
    requires i < |ms|
    ensures Moved(nodes, ms[..i + 1], dt) == MoveOne(Moved(nodes, ms[..i], dt), ms[i].0, ms[i].1, dt)
  {
    assert ms[..i + 1][..i] == ms[..i];
  }

  /** One more collider adds its owner when that owner is alive. */
  lemma LiveOwnersSnoc(cs: seq<Collider>, i: nat, nodes: SceneGraph.Nodes)
    requires i < |cs|
    ensures LiveOwners(cs[..i + 1], nodes) ==
      if cs[i].owner in nodes then LiveOwners(cs[..i], nodes) + [cs[i].owner] else LiveOwners(cs[..i], nodes)
  {
    assert cs[..i + 1][..i] == cs[..i];
  }

  /** `t1` is `t0` followed by collision reports only. */
  predicate OnlyReports(t0: seq<SceneGraph.Event>, t1: seq<SceneGraph.Event>) {
    |t0| <= |t1| && t1[..|t0|] == t0 && forall k :: |t0| <= k < |t1| ==> t1[k].Collided?
  }

  /** Reporting a collision to a node's components adds reports only. */
  lemma ReportsAppend(t: seq<SceneGraph.Event>, cs: seq<SceneGraph.Component>, col: Collision)
    ensures OnlyReports(t, t + SceneGraph.CollisionEvents(cs, col))
  {
    assert (t + SceneGraph.CollisionEvents(cs, col))[..|t|] == t;
  }

  lemma ReportsTrans(t0: seq<SceneGraph.Event>, t1: seq<SceneGraph.Event>, t2: seq<SceneGraph.Event>)
    requires OnlyReports(t0, t1) && OnlyReports(t1, t2)
    ensures OnlyReports(t0, t2)
  {
    assert t2[..|t0|] == t1[..|t1|][..|t0|];
  }

  // ---------------------------------------------------------------------------
  // The rigid-body component

  /** A rigid body attached to node `owner` as component `id`. */
  class Rigidbody {
    const id: ComponentId
    const owner: NodeId
    var velocity: Vec3
    var angular: Vec3
    var inertia: real
    var mass: real
    var drag: real
    var usingGravity: bool

    /** `Rigidbody(mass, drag)`: at rest and using gravity. */
    constructor (id: ComponentId, owner: NodeId, mass: real, drag: real)
      ensures this.id == id && this.owner == owner && this.mass == mass && this.drag == drag
      ensures velocity == Zero() && angular == Zero() && usingGravity && inertia == 0.0
    {
      this.id := id;
      this.owner := owner;
      this.mass := mass;
      this.drag := drag;
      velocity := Zero();
      angular := Zero();
      inertia := 0.0;
      usingGravity := true;
    }

    /** `compute_inertia`: stores and returns the inertia of the owner's
        world scale. */
    method ComputeInertia(nodes: SceneGraph.Nodes) returns (r: real)
      requires owner in nodes
      modifies this`inertia
      ensures r == inertia == BoxInertia(mass, SceneGraph.ScaleOf(nodes, owner, |nodes|))
    {
      var scale := SceneGraph.ScaleOf(nodes, owner, |nodes|);
      inertia := (1.0 / 12.0) * mass * (scale.x * scale.x + scale.y * scale.y + scale.z * scale.z);
      r := inertia;
    }

    /** `apply_drag`. The guard compares `length()` of the vector, which for
        a glm vector is its component count 3, with 0.0001; it always holds,
        so both vectors are always scaled by the drag factor. */
    method ApplyDrag()
      modifies this`velocity, this`angular
      ensures velocity == Scale(old(velocity), drag) && angular == Scale(old(angular), drag)
    {
      var componentCount := 3;
      if componentCount as real > 0.0001 {
        velocity := Scale(velocity, drag);
      }
      if componentCount as real > 0.0001 {
        angular := Scale(angular, drag);
      }
    }

    /** `integrate`: a live owner is translated by velocity times `dt`, and
        then gravity acts on the velocity; an expired owner changes
        nothing. */
    method Integrate(world: SceneGraph.World, dt: real)
      requires world.Valid()
      modifies world`nodes, this`velocity
      ensures world.Valid() && world.nodes.Keys == old(world.nodes.Keys)
      ensures owner in old(world.nodes) ==>
        world.nodes == SceneGraph.SetPositionOf(old(world.nodes), owner,
          Add(SceneGraph.PositionOf(old(world.nodes), owner, |old(world.nodes)|), Scale(old(velocity), dt))) &&
        velocity == AfterGravity(old(velocity), usingGravity, dt)
      ensures owner !in old(world.nodes) ==> world.nodes == old(world.nodes) && velocity == old(velocity)
    {
      if owner in world.nodes {
        world.Translate(owner, Scale(velocity, dt));
        if usingGravity {
          velocity := velocity.(y := velocity.y - Gravity * dt);
        }
      }
    }
  }

  // ---------------------------------------------------------------------------
  // Integration of a whole list of bodies

  /** The owner of each body and the velocity it moves with after drag. */
  ghost function Motions(rbs: seq<Rigidbody>): (r: seq<(NodeId, Vec3)>)
    reads set b | b in rbs
    ensures |r| == |rbs|
    ensures forall j :: 0 <= j < |rbs| ==> r[j] == (rbs[j].owner, Scale(rbs[j].velocity, rbs[j].drag))
  {
    if rbs == [] then []
    else
      var last := rbs[|rbs| - 1];
      Motions(rbs[..|rbs| - 1]) + [(last.owner, Scale(last.velocity, last.drag))]
  }

  /** The arena after each live owner in `ms`, in order, is translated by
      its velocity times `dt`. */
  function Moved(nodes: SceneGraph.Nodes, ms: seq<(NodeId, Vec3)>, dt: real): (r: SceneGraph.Nodes)
    ensures r.Keys == nodes.Keys
  {
    if ms == [] then nodes
    else
      var (n, v) := ms[|ms| - 1];
      MoveOne(Moved(nodes, ms[..|ms| - 1], dt), n, v, dt)
  }

  /** The arena after `n`, when alive, is translated by `v` times `dt`. */
  function MoveOne(nodes: SceneGraph.Nodes, n: NodeId, v: Vec3, dt: real): (r: SceneGraph.Nodes)
    ensures r.Keys == nodes.Keys
  {
    if n in nodes then
      var next := SceneGraph.SetPositionOf(nodes, n, Add(SceneGraph.PositionOf(nodes, n, |nodes|), Scale(v, dt)));
      assert next.Keys == nodes.Keys;
      next
    else nodes
  }

  /** The owners of the colliders whose owner is alive, in list order. */
  function LiveOwners(cs: seq<Collider>, nodes: SceneGraph.Nodes): (r: seq<NodeId>)
    ensures forall j :: 0 <= j < |r| ==> r[j] in nodes
    ensures forall j :: 0 <= j < |cs| && cs[j].owner in nodes ==> cs[j].owner in r
  {
    if cs == [] then []
    else
      var prev := LiveOwners(cs[..|cs| - 1], nodes);
      var c := cs[|cs| - 1];
      var r := if c.owner in nodes then prev + [c.owner] else prev;
      assert forall j :: 0 <= j < |cs| - 1 ==> cs[j] == cs[..|cs| - 1][j];
      r
  }

  /** The component `get_component<T>()` answers for node `n`: the first
      one whose type matches. */
  function ComponentOf(nodes: SceneGraph.Nodes, n: NodeId, t: SceneGraph.Kind): Option<SceneGraph.Component>
    requires n in nodes
  {
    var k := SceneGraph.FirstMatch(nodes[n].components, t);
    if k < 0 then None else Some(nodes[n].components[k])
  }

  /** The first body of `rbs`, from index `j` on, listed under `id`. */
  function ListedBody(rbs: seq<Rigidbody>, id: ComponentId, j: nat): (r: Option<Rigidbody>)
    requires j <= |rbs|
    ensures r.Some? ==> r.value.id == id && r.value in rbs
    ensures r.None? <==> forall k :: j <= k < |rbs| ==> rbs[k].id != id
    decreases |rbs| - j
  {
    if j == |rbs| then None
    else if rbs[j].id == id then Some(rbs[j])
    else ListedBody(rbs, id, j + 1)
  }

  /** The first collider of `cs`, from index `j` on, listed under `id`. */
  function ListedCollider(cs: seq<Collider>, id: ComponentId, j: nat): (r: Option<Collider>)
    requires j <= |cs|
    ensures r.Some? ==> r.value.id == id && r.value in cs
    ensures r.None? <==> forall k :: j <= k < |cs| ==> cs[k].id != id
    decreases |cs| - j
  {
    if j == |cs| then None
    else if cs[j].id == id then Some(cs[j])
    else ListedCollider(cs, id, j + 1)
  }

  /** `node->get_component<Rigidbody>()` as this system resolves it: the
      first listed body under the id of `n`'s first rigid-body component. */
  function BodyOf(nodes: SceneGraph.Nodes, rbs: seq<Rigidbody>, n: NodeId): Option<Rigidbody>
    requires n in nodes
  {
    var comp := ComponentOf(nodes, n, SceneGraph.Rigidbody);
    if comp.None? then None else ListedBody(rbs, comp.value.id, 0)
  }

  /** `node->get_component<Collider>()`, resolved the same way. */
  function ColliderOf(nodes: SceneGraph.Nodes, cs: seq<Collider>, n: NodeId): Option<Collider>
    requires n in nodes
  {
    var comp := ComponentOf(nodes, n, SceneGraph.Collider);
    if comp.None? then None else ListedCollider(cs, comp.value.id, 0)
  }

  /** A side of a collision is static when it has no rigid body or its
      body's mass is 0. */
  predicate IsStatic(r: Option<Rigidbody>)
    reads if r.Some? then {r.value} else {}
  {
    r.None? || r.value.mass == 0.0
  }

  // ---------------------------------------------------------------------------
  // The physics system

  class Physics {
    const world: SceneGraph.World
    const maxObjects: int
    var root: Octree
    var colliders: seq<Collider>
    var rigidbodies: seq<Rigidbody>

    /** The arena is well formed, every collider's owner is alive and each
        body is listed once. */
    ghost predicate Bodies()
      reads this`colliders, this`rigidbodies, world`nodes, world`owner, world`nextNode, world`nextComponent, world`awakened
    {
      world.Valid() &&
      (forall j :: 0 <= j < |colliders| ==> colliders[j].owner in world.nodes) &&
      (forall i, j :: 0 <= i < j < |rigidbodies| ==> rigidbodies[i] != rigidbodies[j])
    }

    /** The arena and the bodies are well formed, the tree is well formed
        and apart from them, and it only holds live nodes. */
    ghost predicate Valid()
      reads this, world, root, root.Repr
    {
      Bodies() && root.Valid() && world !in root.Repr && this !in root.Repr &&
      Held(root.model) <= world.nodes.Keys &&
      (forall j :: 0 <= j < |rigidbodies| ==> rigidbodies[j] !in root.Repr)
    }

    /** A physics system over `world` with an empty root cell of the given
        level spanning -1000..1000 on every axis. */
    constructor (world: SceneGraph.World, maxLevels: int, maxObjects: int)
      requires world.Valid()
      ensures Valid() && this.world == world && this.maxObjects == maxObjects
      ensures root.model == Cell(maxLevels, Box(Splat(-WorldExtent), Splat(WorldExtent)), [], [])
      ensures colliders == [] && rigidbodies == []
    {
      this.world := world;
      this.maxObjects := maxObjects;
      root := new Octree(maxLevels, Box(Splat(-WorldExtent), Splat(WorldExtent)));
      colliders := [];
      rigidbodies := [];
    }

    /** `add_collider<BoxCollider>(node, center, size)`: a box collider
        component on the node, also listed here. */
    method AddCollider(n: NodeId, center: Vec3, size: Vec3) returns (c: Collider)
      requires Valid() && n in world.nodes
      modifies this`colliders, world`nodes, world`owner, world`nextComponent
      ensures Valid() && fresh(c)
      ensures colliders == old(colliders) + [c] && c.owner == n && c.center == center && c.size == size
      ensures c.id !in old(world.owner) && world.owner == old(world.owner)[c.id := n]
      ensures world.nodes == old(world.nodes)[n := old(world.nodes)[n].(components :=
                old(world.nodes)[n].components + [SceneGraph.Component(c.id, SceneGraph.BoxCollider)])]
    {
      var comp := world.AddComponent(n, SceneGraph.BoxCollider);
      assert world.nodes.Keys == old(world.nodes.Keys);
      assert Valid();
      c := new Collider(comp.id, n, center, size);
      PushCollider(c);
    }

    /** Lists a collider whose owner is alive. */
    method PushCollider(c: Collider)
      requires Valid() && c.owner in world.nodes
      modifies this`colliders
      ensures Valid() && colliders == old(colliders) + [c]
    {
      colliders := colliders + [c];
    }

    /** `add_rigidbody(node, mass, drag)`: a rigid-body component on the
        node, also listed here. */
    method AddRigidbody(n: NodeId, mass: real, drag: real) returns (rb: Rigidbody)
      requires Valid() && n in world.nodes
      modifies this`rigidbodies, world`nodes, world`owner, world`nextComponent
      ensures Valid() && fresh(rb)
      ensures rigidbodies == old(rigidbodies) + [rb] && rb.owner == n && rb.mass == mass && rb.drag == drag
      ensures rb.velocity == Zero() && rb.usingGravity
      ensures rb.id !in old(world.owner) && world.owner == old(world.owner)[rb.id := n]
      ensures world.nodes == old(world.nodes)[n := old(world.nodes)[n].(components :=
                old(world.nodes)[n].components + [SceneGraph.Component(rb.id, SceneGraph.Rigidbody)])]
    {
      var comp := world.AddComponent(n, SceneGraph.Rigidbody);
      assert world.nodes.Keys == old(world.nodes.Keys);
      assert Valid();
      rb := new Rigidbody(comp.id, n, mass, drag);
      PushBody(rb);
    }

    /** Lists a body that is neither listed nor part of the tree. */
    method PushBody(rb: Rigidbody)
      requires Valid() && rb !in root.Repr && forall j :: 0 <= j < |rigidbodies| ==> rigidbodies[j] != rb
      modifies this`rigidbodies
      ensures Valid() && rigidbodies == old(rigidbodies) + [rb]
    {
      rigidbodies := rigidbodies + [rb];
    }

    /** `update(dt)`: integrate, rebuild the tree, detect and resolve. */
    method Update(dt: real, normalize: Normalizer)
      requires Valid()
      modifies world, root.Repr, rigidbodies`velocity, rigidbodies`angular
      ensures Valid()
      ensures world.nodes.Keys == old(world.nodes.Keys)
      ensures OnlyReports(old(world.trace), world.trace)
    {
      IntegrateAll(dt);
      Rebuild();
      DetectAndResolve(normalize);
    }

    /** The first loop of `update`: drag, then integration, for every body
        in list order. */
    method IntegrateAll(dt: real)
      requires Bodies()
      modifies world`nodes, rigidbodies`velocity, rigidbodies`angular
      ensures Bodies() && world.nodes.Keys == old(world.nodes.Keys)
      ensures world.nodes == Moved(old(world.nodes), old(Motions(rigidbodies)), dt)
      ensures forall j :: 0 <= j < |rigidbodies| ==>
        (rigidbodies[j].velocity, rigidbodies[j].angular) == Integrated(old(rigidbodies[j].velocity), old(rigidbodies[j].angular),
          rigidbodies[j].drag, rigidbodies[j].usingGravity, rigidbodies[j].owner in old(world.nodes), dt)
    {
      ghost var ms, n0 := Motions(rigidbodies), world.nodes;
      var i := 0;
      while i < |rigidbodies|
        invariant 0 <= i <= |rigidbodies|
        invariant Bodies() && world.nodes.Keys == old(world.nodes.Keys)
        invariant world.nodes == Moved(old(world.nodes), ms[..i], dt)
        invariant forall j {:trigger rigidbodies[j]} :: 0 <= j < i ==>
          (rigidbodies[j].velocity, rigidbodies[j].angular) == Integrated(old(rigidbodies[j].velocity), old(rigidbodies[j].angular),
            rigidbodies[j].drag, rigidbodies[j].usingGravity, rigidbodies[j].owner in n0, dt)
        invariant forall j {:trigger rigidbodies[j]} :: i <= j < |rigidbodies| ==>
          rigidbodies[j].velocity == old(rigidbodies[j].velocity) && rigidbodies[j].angular == old(rigidbodies[j].angular)
      {
        var rb := rigidbodies[i];
        assert ms[i] == (rb.owner, Scale(rb.velocity, rb.drag));
        MovedSnoc(old(world.nodes), ms, i, dt);
        StepBody(i, dt);
        i := i + 1;
      }
      assert ms[..i] == ms;
    }

    /** What the first phase leaves in a body that started with velocity
        `v0` and angular velocity `a0`: both scaled by the drag factor, and
        the velocity then given a gravity step if the body's node is alive. */
    static function Integrated(v0: Vec3, a0: Vec3, drag: real, usingGravity: bool, live: bool, dt: real): (Vec3, Vec3)
    {
      var v := Scale(v0, drag);
      (if live then AfterGravity(v, usingGravity, dt) else v, Scale(a0, drag))
    }

    /** The loop body of the first phase for one body. */
    method StepBody(i: nat, dt: real)
      requires Bodies() && i < |rigidbodies|
      modifies world`nodes, rigidbodies`velocity, rigidbodies`angular
      ensures Bodies() && world.nodes.Keys == old(world.nodes.Keys)
      ensures forall j {:trigger rigidbodies[j]} :: 0 <= j < |rigidbodies| && j != i ==>
        rigidbodies[j].velocity == old(rigidbodies[j].velocity) && rigidbodies[j].angular == old(rigidbodies[j].angular)
      ensures var rb := rigidbodies[i];
        (rb.velocity, rb.angular) == Integrated(old(rb.velocity), old(rb.angular), rb.drag, rb.usingGravity, rb.owner in old(world.nodes), dt) &&
        world.nodes == MoveOne(old(world.nodes), rb.owner, Scale(old(rb.velocity), rb.drag), dt)
    {
      var rb := rigidbodies[i];
      assert forall j :: 0 <= j < |rigidbodies| && j != i ==> rigidbodies[j] != rb;
      rb.ApplyDrag();
      rb.Integrate(world, dt);
    }

    /** The second phase of `update`: clear the tree and insert the owner of
        every collider whose owner is alive. */
    method Rebuild()
      requires Valid()
      modifies root.Repr
      ensures Valid() && fresh(root.Repr - old(root.Repr))
      ensures root.model == InsertAll(ClearCell(old(root.model)), LiveOwners(colliders, world.nodes), FootprintOf(world.nodes), maxObjects)
    {
      ghost var start := ClearCell(root.model);
      ClearHeld(root.model);
      root.Clear();
      var fp := FootprintOf(world.nodes);
      var i := 0;
      while i < |colliders|
        invariant 0 <= i <= |colliders|
        invariant colliders == old(colliders) && rigidbodies == old(rigidbodies) && root == old(root)
        invariant Valid() && fresh(root.Repr - old(root.Repr))
        invariant root.model == InsertAll(start, LiveOwners(colliders[..i], world.nodes), fp, maxObjects)
      {
        InsertNth(i, start, fp);
        i := i + 1;
      }
      assert colliders[..i] == colliders;
    }

    /** One pass of the second phase's loop: collider `i`'s owner is
        inserted when it is alive. */
    method InsertNth(i: nat, ghost start: Cell, fp: Footprint)
      requires Valid() && i < |colliders| && WellLeveled(start)
      requires root.model == InsertAll(start, LiveOwners(colliders[..i], world.nodes), fp, maxObjects)
      modifies root.Repr
      ensures Valid() && fresh(root.Repr - old(root.Repr))
      ensures root.model == InsertAll(start, LiveOwners(colliders[..i + 1], world.nodes), fp, maxObjects)
    {
      var c := colliders[i];
      LiveOwnersSnoc(colliders, i, world.nodes);
      if c.owner in world.nodes {
        InsertAllSnoc(start, LiveOwners(colliders[..i], world.nodes), c.owner, fp, maxObjects);
        InsertLive(c.owner, fp);
      }
    }

    /** The loop body of the second phase for a collider whose owner `n`
        is alive. */
    method InsertLive(n: NodeId, fp: Footprint)
      requires Valid() && n in world.nodes
      modifies root.Repr
      ensures Valid() && fresh(root.Repr - old(root.Repr))
      ensures root.model == InsertCell(old(root.model), n, fp, maxObjects)
    {
      InsertHeld(root.model, n, fp, maxObjects);
      root.Insert(n, fp, maxObjects);
    }

    /** The third phase of `update`: for every collider with a live owner,
        the nodes the tree returns for the collider's bounds are checked
        against it and every contact is resolved and reported. */
    method DetectAndResolve(normalize: Normalizer)
      requires Valid()
      modifies world`nodes, world`trace, rigidbodies`velocity
      ensures Valid() && world.nodes.Keys == old(world.nodes.Keys)
      ensures OnlyReports(old(world.trace), world.trace)
    {
      var i := 0;
      while i < |colliders|
        invariant 0 <= i <= |colliders|
        invariant Valid() && world.nodes.Keys == old(world.nodes.Keys)
        invariant OnlyReports(old(world.trace), world.trace)
      {
        ghost var t := world.trace;
        DetectFor(colliders[i], normalize);
        ReportsTrans(old(world.trace), t, world.trace);
        i := i + 1;
      }
    }

    /** The body of the detection loop: a collider whose owner is alive
        queries the tree with its bounds and every hit is resolved. */
    method DetectFor(c: Collider, normalize: Normalizer)
      requires Valid()
      modifies world`nodes, world`trace, rigidbodies`velocity
      ensures Valid() && world.nodes.Keys == old(world.nodes.Keys)
      ensures OnlyReports(old(world.trace), world.trace)
    {
      if c.owner in world.nodes {
        var hits := root.Query(c.bounds, FootprintOf(world.nodes));
        QuerySound(root.model, c.bounds, FootprintOf(world.nodes));
        ResolveHits(c, hits, normalize);
      } else {
        assert world.trace[..|world.trace|] == world.trace;
      }
    }

    /** The loop over one query result, in an unspecified order: every other
        node with a listed collider is checked by the narrow phase, and a non-zero translation
        vector is resolved and then reported to the other node and to the
        collider's own node. */
    method ResolveHits(c: Collider, hits: set<NodeId>, normalize: Normalizer)
      requires Bodies() && c.owner in world.nodes && hits <= world.nodes.Keys
      modifies world`nodes, world`trace, rigidbodies`velocity
      ensures Bodies() && world.nodes.Keys == old(world.nodes.Keys)
      ensures OnlyReports(old(world.trace), world.trace)
    {
      var rest := hits;
      while rest != {}
        invariant rest <= hits
        invariant Bodies() && world.nodes.Keys == old(world.nodes.Keys)
        invariant OnlyReports(old(world.trace), world.trace)
        decreases |rest|
      {
        var other :| other in rest;
        rest := rest - {other};
        if other != c.owner {
          ghost var t := world.trace;
          ResolvePair(c, other, normalize);
          ReportsTrans(old(world.trace), t, world.trace);
        }
      }
    }

    /** One iteration of the query loop: `other`'s collider, if it has one
        this system lists, is checked against `c`; a non-zero translation
        vector is resolved and reported to `other` and then to `c`'s node. */
    method ResolvePair(c: Collider, other: NodeId, normalize: Normalizer)
      requires Bodies() && c.owner in world.nodes && other in world.nodes
      modifies world`nodes, world`trace, rigidbodies`velocity
      ensures Bodies() && world.nodes.Keys == old(world.nodes.Keys)
      ensures OnlyReports(old(world.trace), world.trace)
      ensures var oc := ColliderOf(old(world.nodes), colliders, other);
        oc.None? ==>
          world.nodes == old(world.nodes) && world.trace == old(world.trace) &&
          forall j :: 0 <= j < |rigidbodies| ==> rigidbodies[j].velocity == old(rigidbodies[j].velocity)
      ensures var oc := ColliderOf(old(world.nodes), colliders, other);
        oc.Some? ==>
          var proj := SatOf(c.points, oc.value.points, c.axes + oc.value.axes,
                            Add(SceneGraph.PositionOf(old(world.nodes), c.owner, |old(world.nodes)|), c.center),
                            Add(SceneGraph.PositionOf(old(world.nodes), oc.value.owner, |old(world.nodes)|), oc.value.center), normalize);
          proj.mtv == Zero() ==>
            world.nodes == old(world.nodes) && world.trace == old(world.trace) &&
            forall j :: 0 <= j < |rigidbodies| ==> rigidbodies[j].velocity == old(rigidbodies[j].velocity)
      ensures var oc := ColliderOf(old(world.nodes), colliders, other);
        oc.Some? ==>
          var proj := SatOf(c.points, oc.value.points, c.axes + oc.value.axes,
                            Add(SceneGraph.PositionOf(old(world.nodes), c.owner, |old(world.nodes)|), c.center),
                            Add(SceneGraph.PositionOf(old(world.nodes), oc.value.owner, |old(world.nodes)|), oc.value.center), normalize);
          var col := MakeCollision(c.owner, other, proj);
          var ra, rb := BodyOf(old(world.nodes), rigidbodies, c.owner), BodyOf(old(world.nodes), rigidbodies, other);
          var out := if !IsStatic(ra) && IsStatic(rb) then col.(mtv := Neg(col.mtv)) else col;
          proj.mtv != Zero() ==>
            world.trace == old(world.trace) + SceneGraph.CollisionEvents(world.nodes[other].components, out)
                                            + SceneGraph.CollisionEvents(world.nodes[c.owner].components, out)
    {
      var oc := FindCollider(other);
      if oc.Some? {
        ResolveAgainst(c, oc.value, other, normalize);
      }
    }

    /** The narrow phase of one iteration once `other`'s collider `o` is
        known: a zero translation vector changes nothing, otherwise the
        collision is resolved and reported to `other` and then to `c`'s node. */
    method ResolveAgainst(c: Collider, o: Collider, other: NodeId, normalize: Normalizer)
      requires Bodies() && c.owner in world.nodes && o.owner in world.nodes && other in world.nodes
      modifies world`nodes, world`trace, rigidbodies`velocity
      ensures Bodies() && world.nodes.Keys == old(world.nodes.Keys)
      ensures OnlyReports(old(world.trace), world.trace)
      ensures var proj := SatOf(c.points, o.points, c.axes + o.axes,
                                Add(SceneGraph.PositionOf(old(world.nodes), c.owner, |old(world.nodes)|), c.center),
                                Add(SceneGraph.PositionOf(old(world.nodes), o.owner, |old(world.nodes)|), o.center), normalize);
        proj.mtv == Zero() ==>
          world.nodes == old(world.nodes) && world.trace == old(world.trace) &&
          forall j :: 0 <= j < |rigidbodies| ==> rigidbodies[j].velocity == old(rigidbodies[j].velocity)
      ensures var proj := SatOf(c.points, o.points, c.axes + o.axes,
                                Add(SceneGraph.PositionOf(old(world.nodes), c.owner, |old(world.nodes)|), c.center),
                                Add(SceneGraph.PositionOf(old(world.nodes), o.owner, |old(world.nodes)|), o.center), normalize);
        var col := MakeCollision(c.owner, other, proj);
        var ra, rb := BodyOf(old(world.nodes), rigidbodies, c.owner), BodyOf(old(world.nodes), rigidbodies, other);
        var out := if !IsStatic(ra) && IsStatic(rb) then col.(mtv := Neg(col.mtv)) else col;
        proj.mtv != Zero() ==>
          world.trace == old(world.trace) + SceneGraph.CollisionEvents(world.nodes[other].components, out)
                                          + SceneGraph.CollisionEvents(world.nodes[c.owner].components, out)
    {
      var proj := SatProject(c, o, normalize);
      if proj.mtv != Zero() {
        ResolveAndReport(MakeCollision(c.owner, other, proj), normalize);
      }
    }

    /** The collision is resolved, and the collision that resolution hands
        back is reported to `col.b`'s components and then to `col.a`'s. */
    method ResolveAndReport(col: Collision, normalize: Normalizer)
      requires Bodies() && col.a in world.nodes && col.b in world.nodes
      modifies world`nodes, world`trace, rigidbodies`velocity
      ensures Bodies() && world.nodes.Keys == old(world.nodes.Keys)
      ensures OnlyReports(old(world.trace), world.trace)
      ensures var ra, rb := BodyOf(old(world.nodes), rigidbodies, col.a), BodyOf(old(world.nodes), rigidbodies, col.b);
        var out := if !IsStatic(ra) && IsStatic(rb) then col.(mtv := Neg(col.mtv)) else col;
        world.trace == old(world.trace) + SceneGraph.CollisionEvents(world.nodes[col.b].components, out)
                                        + SceneGraph.CollisionEvents(world.nodes[col.a].components, out)
    {
      var out := ResolveCollisionDiscrete(col, normalize);
      Report(col.b, col.a, out);
    }

    /** The end of the query loop's body: the collision is reported to
        `first`'s components and then to `second`'s. */
    method Report(first: NodeId, second: NodeId, col: Collision)
      requires Bodies() && first in world.nodes && second in world.nodes
      modifies world`trace
      ensures Bodies()
      ensures world.trace == old(world.trace) + SceneGraph.CollisionEvents(world.nodes[first].components, col)
                                              + SceneGraph.CollisionEvents(world.nodes[second].components, col)
      ensures OnlyReports(old(world.trace), world.trace)
    {
      ghost var t0 := world.trace;
      world.OnCollision(first, col);
      ghost var t1 := world.trace;
      world.OnCollision(second, col);
      ReportsAppend(t0, world.nodes[first].components, col);
      ReportsAppend(t1, world.nodes[second].components, col);
      ReportsTrans(t0, t1, world.trace);
    }

    /** `other->get_component<Collider>()`, resolved to the first collider
        this system lists under that component's id. */
    method FindCollider(n: NodeId) returns (r: Option<Collider>)
      requires n in world.nodes
      ensures var comp := ComponentOf(world.nodes, n, SceneGraph.Collider);
        r.Some? <==> comp.Some? && exists j :: 0 <= j < |colliders| && colliders[j].id == comp.value.id
      ensures r.Some? ==>
        r.value.id == ComponentOf(world.nodes, n, SceneGraph.Collider).value.id &&
        exists j :: 0 <= j < |colliders| && colliders[j] == r.value && forall k :: 0 <= k < j ==> colliders[k].id != r.value.id
      ensures r == ColliderOf(world.nodes, colliders, n)
    {
      var comp := world.GetComponent(n, SceneGraph.Collider);
      if comp.None? {
        return None;
      }
      var j := 0;
      while j < |colliders|
        invariant 0 <= j <= |colliders|
        invariant forall k :: 0 <= k < j ==> colliders[k].id != comp.value.id
        invariant ListedCollider(colliders, comp.value.id, 0) == ListedCollider(colliders, comp.value.id, j)
      {
        if colliders[j].id == comp.value.id {
          return Some(colliders[j]);
        }
        j := j + 1;
      }
      return None;
    }

    /** `node->get_component<Rigidbody>()`, resolved to the first body this
        system lists under that component's id. */
    method FindBody(n: NodeId) returns (r: Option<Rigidbody>)
      requires n in world.nodes
      ensures var comp := ComponentOf(world.nodes, n, SceneGraph.Rigidbody);
        r.Some? <==> comp.Some? && exists j :: 0 <= j < |rigidbodies| && rigidbodies[j].id == comp.value.id
      ensures r.Some? ==>
        r.value.id == ComponentOf(world.nodes, n, SceneGraph.Rigidbody).value.id &&
        exists j :: 0 <= j < |rigidbodies| && rigidbodies[j] == r.value && forall k :: 0 <= k < j ==> rigidbodies[k].id != r.value.id
      ensures r == BodyOf(world.nodes, rigidbodies, n)
    {
      var comp := world.GetComponent(n, SceneGraph.Rigidbody);
      if comp.None? {
        return None;
      }
      var j := 0;
      while j < |rigidbodies|
        invariant 0 <= j <= |rigidbodies|
        invariant forall k :: 0 <= k < j ==> rigidbodies[k].id != comp.value.id
        invariant ListedBody(rigidbodies, comp.value.id, 0) == ListedBody(rigidbodies, comp.value.id, j)
      {
        if rigidbodies[j].id == comp.value.id {
          return Some(rigidbodies[j]);
        }
        j := j + 1;
      }
      return None;
    }

    /** `sat_project(a, b)` over the colliders' cached world points and
        axes, with both owners' positions for the centres. */
    method SatProject(a: Collider, b: Collider, normalize: Normalizer) returns (r: SatProjection)
      requires a.owner in world.nodes && b.owner in world.nodes
      ensures r == SatOf(a.points, b.points, a.axes + b.axes,
                         Add(SceneGraph.PositionOf(world.nodes, a.owner, |world.nodes|), a.center),
                         Add(SceneGraph.PositionOf(world.nodes, b.owner, |world.nodes|), b.center), normalize)
    {
      if |a.points| == 0 || |b.points| == 0 {
        return NoProjection();
      }
      var best := ScanAll(a, b, a.axes + b.axes);
      if !best.Best? {
        return NoProjection();
      }
      var aCenter := a.GetCenter(SceneGraph.WorldTransformOf(world.nodes, a.owner, |world.nodes|));
      var bCenter := b.GetCenter(SceneGraph.WorldTransformOf(world.nodes, b.owner, |world.nodes|));
      SceneGraph.PositionIsWorldTranslation(world.nodes, a.owner, |world.nodes|);
      SceneGraph.PositionIsWorldTranslation(world.nodes, b.owner, |world.nodes|);
      var direction := Sub(bCenter, aCenter);
      var mtv := Scale(best.axis, best.overlap);
      if Dot(direction, mtv) < 0.0 {
        mtv := Neg(mtv);
      }
      var point := a.GetClosestPointTo(Add(bCenter, mtv));
      r := SatProjection(mtv, point, normalize(mtv));
    }

    /** The axis loop of `sat_project`, leaving at the first gap. */
    method ScanAll(a: Collider, b: Collider, axes: seq<Vec3>) returns (best: Scan)
      requires |a.points| > 0 && |b.points| > 0
      ensures best == ScanAxes(a.points, b.points, axes, |axes|)
    {
      best := NoneYet;
      var i := 0;
      while i < |axes|
        invariant 0 <= i <= |axes|
        invariant best == ScanAxes(a.points, b.points, axes, i) && !best.Separated?
      {
        var min1, max1 := a.Project(axes[i], 0.0, 0.0);
        var min2, max2 := b.Project(axes[i], 0.0, 0.0);
        var current := Min(max1, max2) - Max(min1, min2);
        assert current == Overlap(a.points, b.points, axes[i]);
        if current < 0.0 {
          ScanStaysSeparated(a.points, b.points, axes, i + 1);
          return Separated;
        }
        if best.NoneYet? || current < best.overlap {
          best := Best(axes[i], current);
        }
        i := i + 1;
      }
    }

    /** `resolve_collision_discrete`: a side without a listed rigid body or
        with zero mass is static. Two static sides are left alone; one
        static side pushes the other (the translation vector is turned
        round first when `b` is the static one, and the turned collision is
        what the callers report); otherwise both move. */
    method ResolveCollisionDiscrete(col: Collision, normalize: Normalizer) returns (out: Collision)
      requires Bodies() && col.a in world.nodes && col.b in world.nodes
      modifies world`nodes, rigidbodies`velocity
      ensures Bodies() && world.nodes.Keys == old(world.nodes.Keys)
      ensures world.trace == old(world.trace)
      ensures var ra, rb := BodyOf(old(world.nodes), rigidbodies, col.a), BodyOf(old(world.nodes), rigidbodies, col.b);
        out == if !IsStatic(ra) && IsStatic(rb) then col.(mtv := Neg(col.mtv)) else col
      ensures var ra, rb := BodyOf(old(world.nodes), rigidbodies, col.a), BodyOf(old(world.nodes), rigidbodies, col.b);
        IsStatic(ra) && IsStatic(rb) ==>
          out == col && world.nodes == old(world.nodes) &&
          forall j :: 0 <= j < |rigidbodies| ==> rigidbodies[j].velocity == old(rigidbodies[j].velocity)
      ensures var ra, rb := BodyOf(old(world.nodes), rigidbodies, col.a), BodyOf(old(world.nodes), rigidbodies, col.b);
        IsStatic(ra) && !IsStatic(rb) ==>
          out == col &&
          world.nodes == SceneGraph.SetPositionOf(old(world.nodes), col.b,
            Add(SceneGraph.PositionOf(old(world.nodes), col.b, |old(world.nodes)|), Scale(col.mtv, 0.5))) &&
          rb.value.velocity == StaticBounce(old(rb.value.velocity), normalize(col.mtv), old(rb.value.mass)) &&
          forall j :: 0 <= j < |rigidbodies| && rigidbodies[j] != rb.value ==> rigidbodies[j].velocity == old(rigidbodies[j].velocity)
      ensures var ra, rb := BodyOf(old(world.nodes), rigidbodies, col.a), BodyOf(old(world.nodes), rigidbodies, col.b);
        !IsStatic(ra) && IsStatic(rb) ==>
          out == col.(mtv := Neg(col.mtv)) &&
          world.nodes == SceneGraph.SetPositionOf(old(world.nodes), col.a,
            Add(SceneGraph.PositionOf(old(world.nodes), col.a, |old(world.nodes)|), Scale(Neg(col.mtv), 0.5))) &&
          ra.value.velocity == StaticBounce(old(ra.value.velocity), normalize(Neg(col.mtv)), old(ra.value.mass)) &&
          forall j :: 0 <= j < |rigidbodies| && rigidbodies[j] != ra.value ==> rigidbodies[j].velocity == old(rigidbodies[j].velocity)
      ensures var ra, rb := BodyOf(old(world.nodes), rigidbodies, col.a), BodyOf(old(world.nodes), rigidbodies, col.b);
        !IsStatic(ra) && !IsStatic(rb) ==>
          out == col &&
          (var mid := SceneGraph.SetPositionOf(old(world.nodes), col.a,
             Add(SceneGraph.PositionOf(old(world.nodes), col.a, |old(world.nodes)|), Neg(Scale(col.mtv, 0.5))));
           col.b in mid &&
           world.nodes == SceneGraph.SetPositionOf(mid, col.b, Add(SceneGraph.PositionOf(mid, col.b, |mid|), Scale(col.mtv, 0.5)))) &&
          (ra.value != rb.value ==>
             (ra.value.velocity, rb.value.velocity) ==
             DynamicVelocities(old(ra.value.velocity), old(rb.value.velocity), col.normal, old(ra.value.mass), old(rb.value.mass))) &&
          (ra.value == rb.value ==> ra.value.velocity == old(ra.value.velocity)) &&
          forall j :: 0 <= j < |rigidbodies| && rigidbodies[j] != ra.value && rigidbodies[j] != rb.value ==>
            rigidbodies[j].velocity == old(rigidbodies[j].velocity)
    {
      var rbA := BodyOf(world.nodes, rigidbodies, col.a);
      var rbB := BodyOf(world.nodes, rigidbodies, col.b);
      out := ResolveBodies(col, rbA, rbB, normalize);
    }

    /** The dispatch of `resolve_collision_discrete` once both sides' bodies
        have been looked up. */
    method ResolveBodies(col: Collision, ra: Option<Rigidbody>, rb: Option<Rigidbody>, normalize: Normalizer)
      returns (out: Collision)
      requires Bodies() && col.a in world.nodes && col.b in world.nodes
      requires ra.Some? ==> ra.value in rigidbodies
      requires rb.Some? ==> rb.value in rigidbodies
      modifies world`nodes, rigidbodies`velocity
      ensures Bodies() && world.nodes.Keys == old(world.nodes.Keys)
      ensures world.trace == old(world.trace)
      ensures out == if !IsStatic(ra) && IsStatic(rb) then col.(mtv := Neg(col.mtv)) else col
      ensures IsStatic(ra) && IsStatic(rb) ==>
          out == col && world.nodes == old(world.nodes) &&
          forall j :: 0 <= j < |rigidbodies| ==> rigidbodies[j].velocity == old(rigidbodies[j].velocity)
      ensures IsStatic(ra) && !IsStatic(rb) ==>
          out == col &&
          world.nodes == SceneGraph.SetPositionOf(old(world.nodes), col.b,
            Add(SceneGraph.PositionOf(old(world.nodes), col.b, |old(world.nodes)|), Scale(col.mtv, 0.5))) &&
          rb.value.velocity == StaticBounce(old(rb.value.velocity), normalize(col.mtv), old(rb.value.mass)) &&
          forall j :: 0 <= j < |rigidbodies| && rigidbodies[j] != rb.value ==> rigidbodies[j].velocity == old(rigidbodies[j].velocity)
      ensures !IsStatic(ra) && IsStatic(rb) ==>
          out == col.(mtv := Neg(col.mtv)) &&
          world.nodes == SceneGraph.SetPositionOf(old(world.nodes), col.a,
            Add(SceneGraph.PositionOf(old(world.nodes), col.a, |old(world.nodes)|), Scale(Neg(col.mtv), 0.5))) &&
          ra.value.velocity == StaticBounce(old(ra.value.velocity), normalize(Neg(col.mtv)), old(ra.value.mass)) &&
          forall j :: 0 <= j < |rigidbodies| && rigidbodies[j] != ra.value ==> rigidbodies[j].velocity == old(rigidbodies[j].velocity)
      ensures !IsStatic(ra) && !IsStatic(rb) ==>
          out == col &&
          (var mid := SceneGraph.SetPositionOf(old(world.nodes), col.a,
             Add(SceneGraph.PositionOf(old(world.nodes), col.a, |old(world.nodes)|), Neg(Scale(col.mtv, 0.5))));
           col.b in mid &&
           world.nodes == SceneGraph.SetPositionOf(mid, col.b, Add(SceneGraph.PositionOf(mid, col.b, |mid|), Scale(col.mtv, 0.5)))) &&
          (ra.value != rb.value ==>
             (ra.value.velocity, rb.value.velocity) ==
             DynamicVelocities(old(ra.value.velocity), old(rb.value.velocity), col.normal, old(ra.value.mass), old(rb.value.mass))) &&
          (ra.value == rb.value ==> ra.value.velocity == old(ra.value.velocity)) &&
          forall j :: 0 <= j < |rigidbodies| && rigidbodies[j] != ra.value && rigidbodies[j] != rb.value ==>
            rigidbodies[j].velocity == old(rigidbodies[j].velocity)
    {
      out := col;
      if IsStatic(ra) && IsStatic(rb) {
        return;
      }
      if IsStatic(ra) {
        ResolveStaticToDynamic(out, col.b, rb.value, normalize);
        return;
      }
      if IsStatic(rb) {
        out := out.(mtv := Neg(out.mtv));
        ResolveStaticToDynamic(out, col.a, ra.value, normalize);
        return;
      }
      ResolveDynamic(out, col.a, col.b, ra.value, rb.value);
    }

    /** `resolve_static_to_dynamic_collision`: the moving node is pushed by
        half the translation vector and its body gets the static response
        along the normalised vector. */
    method ResolveStaticToDynamic(col: Collision, n: NodeId, rb: Rigidbody, normalize: Normalizer)
      requires Bodies() && n in world.nodes && rb in rigidbodies && rb.mass != 0.0
      modifies world`nodes, rb`velocity
      ensures Bodies() && world.nodes.Keys == old(world.nodes.Keys)
      ensures world.nodes == SceneGraph.SetPositionOf(old(world.nodes), n,
                Add(SceneGraph.PositionOf(old(world.nodes), n, |old(world.nodes)|), Scale(col.mtv, 0.5)))
      ensures rb.velocity == StaticBounce(old(rb.velocity), normalize(col.mtv), rb.mass)
    {
      world.Translate(n, Scale(col.mtv, 0.5));
      var normal := normalize(col.mtv);
      var impulse := Dot(rb.velocity, normal) / (1.0 / rb.mass);
      rb.velocity := Sub(rb.velocity, Scale(normal, impulse * 0.8));
    }

    /** `resolve_dynamic_collision`: each node is pushed half the
        translation vector apart, `a` backwards and `b` forwards, and the
        velocities get the dynamic response along the collision normal. */
    method ResolveDynamic(col: Collision, na: NodeId, nb: NodeId, ra: Rigidbody, rb: Rigidbody)
      requires Bodies() && na in world.nodes && nb in world.nodes
      requires ra in rigidbodies && rb in rigidbodies && ra.mass != 0.0 && rb.mass != 0.0
      modifies world`nodes, ra`velocity, rb`velocity
      ensures Bodies() && world.nodes.Keys == old(world.nodes.Keys)
      ensures var mid := SceneGraph.SetPositionOf(old(world.nodes), na,
                Add(SceneGraph.PositionOf(old(world.nodes), na, |old(world.nodes)|), Neg(Scale(col.mtv, 0.5))));
              nb in mid &&
              world.nodes == SceneGraph.SetPositionOf(mid, nb, Add(SceneGraph.PositionOf(mid, nb, |mid|), Scale(col.mtv, 0.5)))
      ensures ra != rb ==>
        (ra.velocity, rb.velocity) == DynamicVelocities(old(ra.velocity), old(rb.velocity), col.normal, ra.mass, rb.mass)
      ensures ra == rb ==> ra.velocity == old(ra.velocity)
    {
      var correction := Scale(col.mtv, 0.5);
      world.Translate(na, Neg(correction));
      world.Translate(nb, correction);
      ghost var v0 := (ra.velocity, rb.velocity);
      var relVel := Sub(rb.velocity, ra.velocity);
      var impulse := SafeDiv(Dot(relVel, col.normal), 1.0 / ra.mass + 1.0 / rb.mass);
      assert impulse == DynamicImpulse(v0.0, v0.1, col.normal, ra.mass, rb.mass);
      var pushA := Scale(col.normal, impulse / ra.mass);
      var pushB := Scale(col.normal, impulse / rb.mass);
      ra.velocity := Add(ra.velocity, pushA);
      rb.velocity := Sub(rb.velocity, pushB);
      if ra == rb {
        AddSubCancel(v0.0, pushA);
      }
    }
  }
}
