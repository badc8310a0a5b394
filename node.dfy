/** The scene graph: nodes with a local transform, a parent, children and
    components.

    Nodes are shared objects in the engine, linked by shared pointers to
    children and weak pointers to the parent. The model keeps every node in
    one arena, a `World` indexed by `NodeId`, so that a parent link is a
    handle like any other. Components are tagged by their `Kind`; their
    virtual callbacks (`awake`, `update`, `on_collision`) are recorded as
    events in `trace` instead of being run, and their `is_awake` flags are
    the set `awakened`. This holds for colliders and mesh renderers too:
    the walks here never call `Colliders.Collider.Update` or
    `Rendering.MeshRenderer.Awake`. */
module SceneGraph {
  import opened Base
  import opened Geometry
  import Colliders

  /** The concrete component types the engine attaches to nodes. */
  datatype Kind = Collider | BoxCollider | Rigidbody | MeshRenderer | Camera | Light | Behaviour(name: string)

  /** `dynamic_pointer_cast<T>` succeeds: same type, or a box collider asked
      for as a collider. */
  predicate IsA(k: Kind, t: Kind) {
    k == t || (k == BoxCollider && t == Collider)
  }

  datatype Component = Component(id: ComponentId, kind: Kind)

  datatype NodeRec = NodeRec(transform: Transform, parent: Option<NodeId>, children: seq<NodeId>, components: seq<Component>)

  /** A call of one of a component's virtual callbacks. */
  datatype Event =
    | Awoken(c: ComponentId)
    | Updated(c: ComponentId, dt: real)
    | Collided(c: ComponentId, collision: Colliders.Collision)

  type Nodes = map<NodeId, NodeRec>

  // ---------------------------------------------------------------------------
  // Transform getters, following the parent chain

  /** `get_transform`: the parent's world transform times the local one. A
      cyclic parent chain recurses without end in the engine; `fuel` bounds
      the walk (callers pass the node count, which an acyclic chain never
      exhausts). */
  function WorldTransformOf(nodes: Nodes, n: NodeId, fuel: nat): Transform
    requires n in nodes
    decreases fuel
  {
    var p := nodes[n].parent;
    if p.Some? && p.value in nodes && fuel > 0 then Compose(WorldTransformOf(nodes, p.value, fuel - 1), nodes[n].transform)
    else nodes[n].transform
  }

  /** `get_position`: the local translation, carried through the parent's
      world transform when there is a live parent. */
  function PositionOf(nodes: Nodes, n: NodeId, fuel: nat): Vec3
    requires n in nodes
  {
    var p := nodes[n].parent;
    var t := nodes[n].transform.translation;
    if p.Some? && p.value in nodes && fuel > 0 then Apply(WorldTransformOf(nodes, p.value, fuel - 1), t) else t
  }

  /** `get_scale`: the local diagonal times the parent's world scale. */
  function ScaleOf(nodes: Nodes, n: NodeId, fuel: nat): Vec3
    requires n in nodes
    decreases fuel
  {
    var p := nodes[n].parent;
    var s := nodes[n].transform.scale;
    if p.Some? && p.value in nodes && fuel > 0 then Mul(s, ScaleOf(nodes, p.value, fuel - 1)) else s
  }

  /** The walk up from `m` within `fuel` steps never reaches `n`. */
  ghost predicate ChainAvoids(nodes: Nodes, m: NodeId, n: NodeId, fuel: nat)
    decreases fuel
  {
    m != n &&
    (m in nodes && nodes[m].parent.Some? && nodes[m].parent.value in nodes && fuel > 0 ==>
       ChainAvoids(nodes, nodes[m].parent.value, n, fuel - 1))
  }

  /** `nodes` with node `n`'s local transform replaced. */
  function WithTransform(nodes: Nodes, n: NodeId, m: Transform): Nodes
    requires n in nodes
  {
    nodes[n := nodes[n].(transform := m)]
  }

  /** The node map after `set_position(p)`: the local translation becomes `p`
      carried through the inverse of the parent's world transform, or `p`
      itself without a live parent. */
  function SetPositionOf(nodes: Nodes, n: NodeId, p: Vec3): Nodes
    requires n in nodes
  {
    var par := nodes[n].parent;
    var t := if par.Some? && par.value in nodes then InverseApply(WorldTransformOf(nodes, par.value, |nodes| - 1), p) else p;
    WithTransform(nodes, n, nodes[n].transform.(translation := t))
  }

  /** The node map after `set_scale(s)`: the local diagonal becomes `s`
      divided by the parent's world scale, or `s` without a live parent. */
  function SetScaleOf(nodes: Nodes, n: NodeId, s: Vec3): Nodes
    requires n in nodes
  {
    var par := nodes[n].parent;
    var d := if par.Some? && par.value in nodes then DivV(s, ScaleOf(nodes, par.value, |nodes| - 1)) else s;
    WithTransform(nodes, n, nodes[n].transform.(scale := d))
  }

  /** The position is the translation column of the world transform. */
  lemma PositionIsWorldTranslation(nodes: Nodes, n: NodeId, fuel: nat)
    requires n in nodes
    ensures PositionOf(nodes, n, fuel) == WorldTransformOf(nodes, n, fuel).translation
  {
  }

  /** The scale getter agrees with the diagonal of the world transform. */
  lemma {:induction false} ScaleIsWorldScale(nodes: Nodes, n: NodeId, fuel: nat)
    requires n in nodes
    ensures ScaleOf(nodes, n, fuel) == WorldTransformOf(nodes, n, fuel).scale
    decreases fuel
  {
    var p := nodes[n].parent;
    if p.Some? && p.value in nodes && fuel > 0 {
      ScaleIsWorldScale(nodes, p.value, fuel - 1);
    }
  }

  /** Changing one node's transform leaves the world transform and the
      scale of every node whose parent chain avoids it unchanged. */
  lemma {:induction false} TransformFrame(nodes: Nodes, n: NodeId, m: Transform, k: NodeId, fuel: nat)
    requires n in nodes && k in nodes
    requires ChainAvoids(nodes, k, n, fuel)
    ensures WorldTransformOf(WithTransform(nodes, n, m), k, fuel) == WorldTransformOf(nodes, k, fuel)
    ensures ScaleOf(WithTransform(nodes, n, m), k, fuel) == ScaleOf(nodes, k, fuel)
    decreases fuel
  {
    var p := nodes[k].parent;
    if p.Some? && p.value in nodes && fuel > 0 {
      TransformFrame(nodes, n, m, p.value, fuel - 1);
    }
  }

  /** `get_position` after `set_position(p)` gives back `p`: always for a
      node without a live parent, and below a parent whose world scale has
      no zero component and whose chain does not lead back to the node. */
  lemma SetPositionRoundTrip(nodes: Nodes, n: NodeId, p: Vec3)
    requires n in nodes
    requires var par := nodes[n].parent;
      par.Some? && par.value in nodes ==>
        NonZero(WorldTransformOf(nodes, par.value, |nodes| - 1).scale) &&
        ChainAvoids(nodes, par.value, n, |nodes| - 1)
    ensures var after := SetPositionOf(nodes, n, p); PositionOf(after, n, |after|) == p
  {
    var par := nodes[n].parent;
    var after := SetPositionOf(nodes, n, p);
    assert after.Keys == nodes.Keys;
    if par.Some? && par.value in nodes {
      TransformFrame(nodes, n, after[n].transform, par.value, |nodes| - 1);
      ApplyInverse(WorldTransformOf(nodes, par.value, |nodes| - 1), p);
    }
  }

  /** `get_scale` after `set_scale(s)` gives back `s` under the same
      conditions on the parent. */
  lemma SetScaleRoundTrip(nodes: Nodes, n: NodeId, s: Vec3)
    requires n in nodes
    requires var par := nodes[n].parent;
      par.Some? && par.value in nodes ==>
        NonZero(ScaleOf(nodes, par.value, |nodes| - 1)) &&
        ChainAvoids(nodes, par.value, n, |nodes| - 1)
    ensures var after := SetScaleOf(nodes, n, s); ScaleOf(after, n, |after|) == s
  {
    var par := nodes[n].parent;
    var after := SetScaleOf(nodes, n, s);
    assert after.Keys == nodes.Keys;
    if par.Some? && par.value in nodes {
      var ps := ScaleOf(nodes, par.value, |nodes| - 1);
      TransformFrame(nodes, n, after[n].transform, par.value, |nodes| - 1);
      assert ScaleOf(after, n, |after|) == Mul(DivV(s, ps), ps);
      DivMulCancel(s, ps);
    }
  }

  /** `translate(t)` moves the node's position by exactly `t`, under the
      conditions of the position round trip. */
  lemma TranslateAdds(nodes: Nodes, n: NodeId, t: Vec3)
    requires n in nodes
    requires var par := nodes[n].parent;
      par.Some? && par.value in nodes ==>
        NonZero(WorldTransformOf(nodes, par.value, |nodes| - 1).scale) &&
        ChainAvoids(nodes, par.value, n, |nodes| - 1)
    ensures var after := SetPositionOf(nodes, n, Add(PositionOf(nodes, n, |nodes|), t));
      PositionOf(after, n, |after|) == Add(PositionOf(nodes, n, |nodes|), t)
  {
    SetPositionRoundTrip(nodes, n, Add(PositionOf(nodes, n, |nodes|), t));
  }

  // ---------------------------------------------------------------------------
  // Component lists

  /** Index of the first component matching `t`, or -1. */
  function FirstMatch(cs: seq<Component>, t: Kind): (r: int)
    ensures -1 <= r < |cs|
    ensures r >= 0 ==> IsA(cs[r].kind, t) && forall j :: 0 <= j < r ==> !IsA(cs[j].kind, t)
    ensures r == -1 ==> forall j :: 0 <= j < |cs| ==> !IsA(cs[j].kind, t)
  {
    if cs == [] then -1
    else if IsA(cs[0].kind, t) then 0
    else
      var r := FirstMatch(cs[1..], t);
      if r == -1 then -1 else r + 1
  }

  /** `cs` without its first component matching `t`. */
  function RemoveFirst(cs: seq<Component>, t: Kind): seq<Component> {
    var i := FirstMatch(cs, t);
    if i < 0 then cs else cs[..i] + cs[i + 1..]
  }

  /** Removal takes out exactly one matching component, the first, keeps the
      rest in order, and changes nothing when none matches. */
  lemma RemoveFirstShape(cs: seq<Component>, t: Kind)
    ensures FirstMatch(cs, t) < 0 ==> RemoveFirst(cs, t) == cs
    ensures FirstMatch(cs, t) >= 0 ==>
      |RemoveFirst(cs, t)| == |cs| - 1 &&
      multiset(RemoveFirst(cs, t)) + multiset{cs[FirstMatch(cs, t)]} == multiset(cs) &&
      forall j :: 0 <= j < FirstMatch(cs, t) ==> RemoveFirst(cs, t)[j] == cs[j] && !IsA(cs[j].kind, t)
  {
    var i := FirstMatch(cs, t);
    if i >= 0 {
      assert cs == cs[..i] + [cs[i]] + cs[i + 1..];
    }
  }

  /** The first match is the index a left-to-right scan stops at. */
  lemma FirstMatchAt(cs: seq<Component>, t: Kind, i: nat)
    requires i <= |cs| && forall j :: 0 <= j < i ==> !IsA(cs[j].kind, t)
    requires i < |cs| ==> IsA(cs[i].kind, t)
    ensures FirstMatch(cs, t) == if i < |cs| then i else -1
  {
  }

  /** Ids of a component list. */
  function Ids(cs: seq<Component>): set<ComponentId> {
    set i | 0 <= i < |cs| :: cs[i].id
  }

  // ---------------------------------------------------------------------------
  // Callbacks

  /** `awake` over the components `cs`, given the components already awake:
      the events it emits and the new awake set. */
  function AwakeSteps(cs: seq<Component>, aw: set<ComponentId>): (seq<Event>, set<ComponentId>) {
    if cs == [] then ([], aw)
    else
      var prev := AwakeSteps(cs[..|cs| - 1], aw);
      var c := cs[|cs| - 1];
      if c.id in prev.1 then prev else (prev.0 + [Awoken(c.id)], prev.1 + {c.id})
  }

  /** After `awake` every listed component is awake; a component is awoken
      iff it is listed and was not awake before, and at most once. */
  lemma {:induction false} AwakeStepsExact(cs: seq<Component>, aw: set<ComponentId>)
    ensures AwakeSteps(cs, aw).1 == aw + Ids(cs)
    ensures forall c :: Awoken(c) in AwakeSteps(cs, aw).0 <==> c in Ids(cs) && c !in aw
    ensures forall i, j :: 0 <= i < j < |AwakeSteps(cs, aw).0| ==> AwakeSteps(cs, aw).0[i] != AwakeSteps(cs, aw).0[j]
    ensures forall e :: e in AwakeSteps(cs, aw).0 ==> e.Awoken?
  {
    if cs != [] {
      var init := cs[..|cs| - 1];
      AwakeStepsExact(init, aw);
      assert cs == init + [cs[|cs| - 1]];
      assert Ids(cs) == Ids(init) + {cs[|cs| - 1].id} by {
        forall x | x in Ids(cs) ensures x in Ids(init) + {cs[|cs| - 1].id} {
          var i :| 0 <= i < |cs| && cs[i].id == x;
          if i < |cs| - 1 { assert init[i] == cs[i]; }
        }
        forall x | x in Ids(init) ensures x in Ids(cs) {
          var i :| 0 <= i < |init| && init[i].id == x;
          assert cs[i] == init[i];
        }
      }
    }
  }

  /** Awake is once-only: a second call emits nothing and changes nothing. */
  lemma {:induction false} AwakeIdempotent(cs: seq<Component>, aw: set<ComponentId>)
    ensures AwakeSteps(cs, AwakeSteps(cs, aw).1) == ([], AwakeSteps(cs, aw).1)
  {
    AwakeStepsExact(cs, aw);
    AwakeNoop(cs, AwakeSteps(cs, aw).1);
  }

  /** Awake emits nothing when every listed component is already awake. */
  lemma {:induction false} AwakeNoop(cs: seq<Component>, aw: set<ComponentId>)
    requires Ids(cs) <= aw
    ensures AwakeSteps(cs, aw) == ([], aw)
  {
    if cs != [] {
      var init := cs[..|cs| - 1];
      assert Ids(init) <= Ids(cs) by {
        forall x | x in Ids(init) ensures x in Ids(cs) {
          var i :| 0 <= i < |init| && init[i].id == x;
          assert cs[i] == init[i];
        }
      }
      AwakeNoop(init, aw);
      assert cs[|cs| - 1].id in Ids(cs);
    }
  }

  /** One `Updated` event per component, in order. */
  function UpdateEvents(cs: seq<Component>, dt: real): (r: seq<Event>)
    ensures |r| == |cs|
  {
    seq(|cs|, i requires 0 <= i < |cs| => Updated(cs[i].id, dt))
  }

  /** One `Collided` event per component, in order. */
  function CollisionEvents(cs: seq<Component>, col: Colliders.Collision): (r: seq<Event>)
    ensures |r| == |cs|
  {
    seq(|cs|, i requires 0 <= i < |cs| => Collided(cs[i].id, col))
  }

  /** Regrouping a four-part concatenation. */
  lemma ConcatRegroup<T>(a: seq<T>, b: seq<T>, c: seq<T>, d: seq<T>)
    ensures a + b + c + d == a + (b + c + d)
  {
  }

  /** The component loop of `Node::update` over the first `k` components:
      before each component's update the whole node is awoken. */
  function ComponentLoop(cs: seq<Component>, k: nat, aw: set<ComponentId>, dt: real): (seq<Event>, set<ComponentId>)
    requires k <= |cs|
  {
    if k == 0 then ([], aw)
    else
      var prev := ComponentLoop(cs, k - 1, aw, dt);
      var awake := AwakeSteps(cs, prev.1);
      (prev.0 + awake.0 + [Updated(cs[k - 1].id, dt)], awake.1)
  }

  /** All awakenings happen before the first update: the loop emits the
      awake events of the whole node once, then one update per component. */
  lemma {:induction false} ComponentLoopShape(cs: seq<Component>, k: nat, aw: set<ComponentId>, dt: real)
    requires 0 < k <= |cs|
    ensures ComponentLoop(cs, k, aw, dt) == (AwakeSteps(cs, aw).0 + UpdateEvents(cs[..k], dt), AwakeSteps(cs, aw).1)
  {
    var first := AwakeSteps(cs, aw);
    if k == 1 {
      assert ComponentLoop(cs, 0, aw, dt) == ([], aw);
      assert UpdateEvents(cs[..1], dt) == [Updated(cs[0].id, dt)];
      assert ComponentLoop(cs, 1, aw, dt).0 == [] + first.0 + [Updated(cs[0].id, dt)];
      assert ComponentLoop(cs, 1, aw, dt).0 == first.0 + UpdateEvents(cs[..1], dt);
      assert ComponentLoop(cs, 1, aw, dt).1 == first.1;
    } else {
      ComponentLoopShape(cs, k - 1, aw, dt);
      AwakeIdempotent(cs, aw);
      var prev := ComponentLoop(cs, k - 1, aw, dt);
      assert prev == (first.0 + UpdateEvents(cs[..k - 1], dt), first.1);
      assert AwakeSteps(cs, prev.1) == ([], first.1);
      assert UpdateEvents(cs[..k], dt) == UpdateEvents(cs[..k - 1], dt) + [Updated(cs[k - 1].id, dt)];
      calc {
        ComponentLoop(cs, k, aw, dt).0;
        prev.0 + [] + [Updated(cs[k - 1].id, dt)];
        first.0 + (UpdateEvents(cs[..k - 1], dt) + [Updated(cs[k - 1].id, dt)]);
      }
    }
  }

  /** `Node::update` on node `n` and, recursively, its children in order.
      The recursion depth is bounded by `fuel`. */
  function UpdateTree(nodes: Nodes, n: NodeId, dt: real, aw: set<ComponentId>, fuel: nat): (seq<Event>, set<ComponentId>)
    decreases fuel, 1, 0
  {
    if n !in nodes then ([], aw)
    else
      var cs := nodes[n].components;
      var own := ComponentLoop(cs, |cs|, aw, dt);
      var kids := UpdateChildren(nodes, nodes[n].children, |nodes[n].children|, dt, own.1, fuel);
      (own.0 + kids.0, kids.1)
  }

  /** The children loop of `Node::update` over the first `k` children. */
  function UpdateChildren(nodes: Nodes, kids: seq<NodeId>, k: nat, dt: real, aw: set<ComponentId>, fuel: nat): (seq<Event>, set<ComponentId>)
    requires k <= |kids|
    decreases fuel, 0, k
  {
    if k == 0 || fuel == 0 then ([], aw)
    else
      var prev := UpdateChildren(nodes, kids, k - 1, dt, aw, fuel);
      var child := UpdateTree(nodes, kids[k - 1], dt, prev.1, fuel - 1);
      (prev.0 + child.0, child.1)
  }

  /** Every downward path from `n` takes fewer than `h` child steps: the
      subtree under `n` is less than `h` levels deep. */
  ghost predicate Bounded(nodes: Nodes, n: NodeId, h: nat)
    decreases h
  {
    n in nodes ==>
      forall i :: 0 <= i < |nodes[n].children| ==> h > 0 && Bounded(nodes, nodes[n].children[i], h - 1)
  }

  /** Fuel beyond the depth of the subtree changes nothing: with `fuel` at
      least a bound `h` on the subtree's depth, the fuel-bounded update is
      the one that `h` gives, so every such fuel walks the whole subtree as
      the unbounded recursion does. */
  lemma {:induction false} UpdateTreeFuel(nodes: Nodes, n: NodeId, dt: real, aw: set<ComponentId>, h: nat, fuel: nat)
    requires Bounded(nodes, n, h) && h <= fuel
    ensures UpdateTree(nodes, n, dt, aw, fuel) == UpdateTree(nodes, n, dt, aw, h)
    decreases h, 1
  {
    if n in nodes {
      var cs := nodes[n].components;
      var own := ComponentLoop(cs, |cs|, aw, dt);
      UpdateChildrenFuel(nodes, n, |nodes[n].children|, dt, own.1, h, fuel);
    }
  }

  /** The children loop of a bounded node: the same for every fuel of at
      least the bound. */
  lemma {:induction false} UpdateChildrenFuel(nodes: Nodes, n: NodeId, k: nat, dt: real, aw: set<ComponentId>, h: nat, fuel: nat)
    requires n in nodes && k <= |nodes[n].children|
    requires Bounded(nodes, n, h) && h <= fuel
    ensures UpdateChildren(nodes, nodes[n].children, k, dt, aw, fuel) == UpdateChildren(nodes, nodes[n].children, k, dt, aw, h)
    decreases h, 0, k
  {
    var kids := nodes[n].children;
    if k > 0 {
      assert h > 0 && Bounded(nodes, kids[k - 1], h - 1);
      UpdateChildrenFuel(nodes, n, k - 1, dt, aw, h, fuel);
      var prev := UpdateChildren(nodes, kids, k - 1, dt, aw, h);
      UpdateTreeFuel(nodes, kids[k - 1], dt, prev.1, h - 1, fuel - 1);
    }
  }

  // ---------------------------------------------------------------------------
  // Hierarchy

  /** Consecutive entries of `path` are parent-to-child edges. */
  ghost predicate IsPath(nodes: Nodes, path: seq<NodeId>) {
    (forall i :: 0 <= i < |path| ==> path[i] in nodes) &&
    (forall i :: 0 <= i < |path| - 1 ==> path[i + 1] in nodes[path[i]].children)
  }

  /** A path of at least one edge that returns to where it started. */
  ghost predicate IsCycle(nodes: Nodes, path: seq<NodeId>) {
    |path| >= 2 && IsPath(nodes, path) && path[0] == path[|path| - 1]
  }

  /** A bound on the subtree at the start of a path covers the path: it is
      at least the path's number of steps, and what is left of it bounds the
      subtree at the path's end. */
  lemma {:induction false} PathBounded(nodes: Nodes, p: seq<NodeId>, h: nat)
    requires IsPath(nodes, p) && |p| >= 1 && Bounded(nodes, p[0], h)
    ensures h >= |p| - 1 && Bounded(nodes, p[|p| - 1], h - (|p| - 1))
    decreases |p|
  {
    if |p| > 1 {
      var q := p[..|p| - 1];
      assert IsPath(nodes, q);
      PathBounded(nodes, q, h);
      var m := p[|p| - 2];
      assert p[|p| - 1] in nodes[m].children;
      var j :| 0 <= j < |nodes[m].children| && nodes[m].children[j] == p[|p| - 1];
    }
  }

  /** A node on a cycle has no bounded subtree: no fuel reaches the end of
      its update, just as `Node::update` on it never returns. */
  lemma {:induction false} CycleUnbounded(nodes: Nodes, p: seq<NodeId>, h: nat)
    requires IsCycle(nodes, p)
    ensures !Bounded(nodes, p[0], h)
    decreases h
  {
    if Bounded(nodes, p[0], h) {
      PathBounded(nodes, p, h);
      CycleUnbounded(nodes, p, h - (|p| - 1));
    }
  }

  /** The node map after `add_child` accepted `child` under `self`. */
  function AttachOf(nodes: Nodes, self: NodeId, child: NodeId): Nodes
    requires self in nodes && child in nodes
  {
    var withChild := nodes[self := nodes[self].(children := nodes[self].children + [child])];
    withChild[child := withChild[child].(parent := Some(self))]
  }

  /** The check does not catch attaching an ancestor: with `a` the parent of
      a childless `b`, the check for `b.add_child(a)` walks no children, and
      accepting it creates the cycle a, b, a. */
  lemma AttachAncestorMakesCycle(nodes: Nodes, a: NodeId, b: NodeId)
    requires a in nodes && b in nodes && a != b
    requires nodes[a].children == [b] && nodes[b].children == []
    ensures IsCycle(AttachOf(nodes, b, a), [a, b, a])
  {
  }

  /** Every child link names a node of the arena. */
  ghost predicate ChildrenIn(nodes: Nodes) {
    forall n, i :: n in nodes && 0 <= i < |nodes[n].children| ==> nodes[n].children[i] in nodes
  }

  /** Arena closure: parents, children and component owners resolve, and
      the counters are beyond every handle in use. */
  ghost predicate Closed(nodes: Nodes, owner: map<ComponentId, NodeId>, nextNode: NodeId, nextComponent: ComponentId) {
    (forall n :: n in nodes ==> n < nextNode) &&
    (forall c :: c in owner ==> c < nextComponent && owner[c] in nodes) &&
    (forall n :: n in nodes && nodes[n].parent.Some? ==> nodes[n].parent.value in nodes) &&
    ChildrenIn(nodes) &&
    (forall n, i :: n in nodes && 0 <= i < |nodes[n].components| ==>
       nodes[n].components[i].id in owner && owner[nodes[n].components[i].id] == n)
  }

  /** Every id in `ids` has been issued: it is below the next free id. */
  ghost predicate Issued(ids: set<ComponentId>, next: ComponentId) {
    forall c :: c in ids ==> c < next
  }

  /** Keeping only some of a node's components keeps the arena closed. */
  lemma ClosedKeepSome(nodes: Nodes, owner: map<ComponentId, NodeId>, nextNode: NodeId, nextComponent: ComponentId, n: NodeId, rest: seq<Component>)
    requires Closed(nodes, owner, nextNode, nextComponent) && n in nodes
    requires forall k :: 0 <= k < |rest| ==> rest[k] in nodes[n].components
    ensures Closed(nodes[n := nodes[n].(components := rest)], owner, nextNode, nextComponent)
  {
    var cs := nodes[n].components;
    forall k | 0 <= k < |rest| ensures rest[k].id in owner && owner[rest[k].id] == n {
      assert rest[k] in cs;
      var j :| 0 <= j < |cs| && cs[j] == rest[k];
    }
  }

  /** Every node in the arena. */
  class World {
    var nodes: Nodes
    var awakened: set<ComponentId>
    var owner: map<ComponentId, NodeId>
    var trace: seq<Event>
    var nextNode: NodeId
    var nextComponent: ComponentId

    /** The arena is closed, and only issued component ids are awake. */
    ghost predicate Valid()
      reads this`nodes, this`owner, this`nextNode, this`nextComponent, this`awakened
    {
      Closed(nodes, owner, nextNode, nextComponent) && Issued(awakened, nextComponent)
    }

    constructor ()
      ensures Valid()
      ensures nodes == map[] && owner == map[] && awakened == {} && trace == []
    {
      nodes := map[];
      awakened := {};
      owner := map[];
      trace := [];
      nextNode := 0;
      nextComponent := 0;
    }

    /** `Node()`: a new node with the identity transform, no parent, no
        children and no components. */
    method NewNode() returns (n: NodeId)
      requires Valid()
      modifies this`nodes, this`nextNode
      ensures Valid()
      ensures n !in old(nodes)
      ensures nodes == old(nodes)[n := NodeRec(Identity(), None, [], [])]
    {
      n := nextNode;
      nodes := nodes[n := NodeRec(Identity(), None, [], [])];
      nextNode := nextNode + 1;
    }

    /** `set_position`. */
    method SetPosition(n: NodeId, p: Vec3)
      requires Valid() && n in nodes
      modifies this`nodes
      ensures Valid()
      ensures nodes == SetPositionOf(old(nodes), n, p)
    {
      var par := nodes[n].parent;
      var t := p;
      if par.Some? && par.value in nodes {
        t := InverseApply(WorldTransformOf(nodes, par.value, |nodes| - 1), p);
      }
      nodes := nodes[n := nodes[n].(transform := nodes[n].transform.(translation := t))];
    }

    /** `translate`: set the position to the current position plus `t`. */
    method Translate(n: NodeId, t: Vec3)
      requires Valid() && n in nodes
      modifies this`nodes
      ensures Valid()
      ensures nodes == SetPositionOf(old(nodes), n, Add(PositionOf(old(nodes), n, |old(nodes)|), t))
    {
      SetPosition(n, Add(PositionOf(nodes, n, |nodes|), t));
    }

    /** `set_scale`. */
    method SetScale(n: NodeId, s: Vec3)
      requires Valid() && n in nodes
      modifies this`nodes
      ensures Valid()
      ensures nodes == SetScaleOf(old(nodes), n, s)
    {
      var par := nodes[n].parent;
      var d := s;
      if par.Some? && par.value in nodes {
        d := DivV(s, ScaleOf(nodes, par.value, |nodes| - 1));
      }
      nodes := nodes[n := nodes[n].(transform := nodes[n].transform.(scale := d))];
    }

    /** `scale`: multiply the current scale by `s`. */
    method ScaleBy(n: NodeId, s: Vec3)
      requires Valid() && n in nodes
      modifies this`nodes
      ensures Valid()
      ensures nodes == SetScaleOf(old(nodes), n, Mul(ScaleOf(old(nodes), n, |old(nodes)|), s))
    {
      SetScale(n, Mul(ScaleOf(nodes, n, |nodes|), s));
    }

    /** `add_component<T>`: a new component appended at the end of the list
        and owned by `n`. */
    method AddComponent(n: NodeId, kind: Kind) returns (c: Component)
      requires Valid() && n in nodes
      modifies this`nodes, this`owner, this`nextComponent
      ensures Valid()
      ensures c.kind == kind && c.id !in old(owner) && owner == old(owner)[c.id := n]
      ensures c.id !in awakened
      ensures nodes == old(nodes)[n := old(nodes)[n].(components := old(nodes)[n].components + [c])]
    {
      c := Component(nextComponent, kind);
      nodes := nodes[n := nodes[n].(components := nodes[n].components + [c])];
      owner := owner[c.id := n];
      nextComponent := nextComponent + 1;
    }

    /** `get_component<T>`: the first component matching `T`, or none. */
    method GetComponent(n: NodeId, t: Kind) returns (r: Option<Component>)
      requires n in nodes
      ensures r.None? <==> forall j :: 0 <= j < |nodes[n].components| ==> !IsA(nodes[n].components[j].kind, t)
      ensures r.Some? ==> r.value == nodes[n].components[FirstMatch(nodes[n].components, t)]
    {
      var cs := nodes[n].components;
      var i := 0;
      while i < |cs|
        invariant 0 <= i <= |cs|
        invariant forall j :: 0 <= j < i ==> !IsA(cs[j].kind, t)
      {
        if IsA(cs[i].kind, t) {
          return Some(cs[i]);
        }
        i := i + 1;
      }
      return None;
    }

    /** `remove_component<T>`: erase the first match only. */
    method RemoveComponent(n: NodeId, t: Kind)
      requires Valid() && n in nodes
      modifies this`nodes
      ensures Valid()
      ensures nodes == old(nodes)[n := old(nodes)[n].(components := RemoveFirst(old(nodes)[n].components, t))]
    {
      var cs := nodes[n].components;
      var i := 0;
      while i < |cs| && !IsA(cs[i].kind, t)
        invariant 0 <= i <= |cs|
        invariant forall j :: 0 <= j < i ==> !IsA(cs[j].kind, t)
      {
        i := i + 1;
      }
      FirstMatchAt(cs, t, i);
      if i < |cs| {
        EraseAt(n, i);
      } else {
        assert old(nodes)[n := old(nodes)[n].(components := cs)] == old(nodes);
      }
    }

    /** Erases the component at index `i` of `n`. */
    method EraseAt(n: NodeId, i: nat)
      requires Valid() && n in nodes && i < |nodes[n].components|
      modifies this`nodes
      ensures Valid()
      ensures var cs := old(nodes)[n].components; nodes == old(nodes)[n := old(nodes)[n].(components := cs[..i] + cs[i + 1..])]
    {
      var cs := nodes[n].components;
      var rest := cs[..i] + cs[i + 1..];
      forall k | 0 <= k < |rest| ensures rest[k] in cs {
        if k < i { assert rest[k] == cs[k]; } else { assert rest[k] == cs[k + 1]; }
      }
      ClosedKeepSome(nodes, owner, nextNode, nextComponent, n, rest);
      nodes := nodes[n := nodes[n].(components := rest)];
    }

    /** `Node::awake`: every component of `n` not yet awake is marked awake
        and awoken, in list order. */
    method Awake(n: NodeId)
      requires Valid() && n in nodes
      modifies this`awakened, this`trace
      ensures Valid()
      ensures var s := AwakeSteps(nodes[n].components, old(awakened));
        trace == old(trace) + s.0 && awakened == s.1
    {
      var cs := nodes[n].components;
      var i := 0;
      while i < |cs|
        invariant 0 <= i <= |cs|
        invariant Issued(awakened, nextComponent)
        invariant var s := AwakeSteps(cs[..i], old(awakened)); trace == old(trace) + s.0 && awakened == s.1
      {
        assert cs[..i + 1][..i] == cs[..i];
        if cs[i].id !in awakened {
          awakened := awakened + {cs[i].id};
          trace := trace + [Awoken(cs[i].id)];
        }
        i := i + 1;
      }
      assert cs[..i] == cs;
    }

    /** The component loop of `Node::update`: awake the node, then update
        the component, for each component in order. */
    method UpdateComponents(n: NodeId, dt: real)
      requires Valid() && n in nodes
      modifies this`awakened, this`trace
      ensures Valid()
      ensures var s := ComponentLoop(nodes[n].components, |nodes[n].components|, old(awakened), dt);
        trace == old(trace) + s.0 && awakened == s.1
    {
      var cs := nodes[n].components;
      ghost var t0, aw0 := trace, awakened;
      var i := 0;
      while i < |cs|
        invariant 0 <= i <= |cs|
        invariant Issued(awakened, nextComponent)
        invariant var s := ComponentLoop(cs, i, aw0, dt); trace == t0 + s.0 && awakened == s.1
      {
        UpdateStep(n, i, dt, t0, aw0);
        i := i + 1;
      }
    }

    /** Pass `i` of the component loop keeps the trace and awake set equal
        to the loop's after `i + 1` passes. */
    method UpdateStep(n: NodeId, i: nat, dt: real, ghost t0: seq<Event>, ghost aw0: set<ComponentId>)
      requires Valid() && n in nodes && i < |nodes[n].components|
      requires var s := ComponentLoop(nodes[n].components, i, aw0, dt); trace == t0 + s.0 && awakened == s.1
      modifies this`awakened, this`trace
      ensures Valid()
      ensures var s := ComponentLoop(nodes[n].components, i + 1, aw0, dt); trace == t0 + s.0 && awakened == s.1
    {
      ghost var cs := nodes[n].components;
      ghost var prev := ComponentLoop(cs, i, aw0, dt);
      UpdateOne(n, i, dt);
      ghost var a := AwakeSteps(cs, prev.1);
      assert ComponentLoop(cs, i + 1, aw0, dt) == (prev.0 + a.0 + [Updated(cs[i].id, dt)], a.1);
      ConcatRegroup(t0, prev.0, a.0, [Updated(cs[i].id, dt)]);
    }

    /** The body of the component loop: awake the node, then update
        component `i`. */
    method UpdateOne(n: NodeId, i: nat, dt: real)
      requires Valid() && n in nodes && i < |nodes[n].components|
      modifies this`awakened, this`trace
      ensures Valid()
      ensures var a := AwakeSteps(nodes[n].components, old(awakened));
        trace == old(trace) + a.0 + [Updated(nodes[n].components[i].id, dt)] && awakened == a.1
    {
      Awake(n);
      trace := trace + [Updated(nodes[n].components[i].id, dt)];
    }

    /** `Node::update` on `n` and its subtree, with the recursion depth
        bounded by `fuel`. */
    method Update(n: NodeId, dt: real, fuel: nat)
      requires Valid() && n in nodes
      modifies this`awakened, this`trace
      ensures Valid()
      ensures var s := UpdateTree(nodes, n, dt, old(awakened), fuel);
        trace == old(trace) + s.0 && awakened == s.1
      decreases fuel, 1
    {
      UpdateComponents(n, dt);
      var kids := nodes[n].children;
      if fuel > 0 {
        UpdateKids(kids, dt, fuel);
      } else {
        assert UpdateChildren(nodes, kids, |kids|, dt, awakened, fuel) == ([], awakened);
      }
    }

    /** The children loop of `Node::update`: each child's subtree in order,
        one level of fuel down. */
    method UpdateKids(kids: seq<NodeId>, dt: real, fuel: nat)
      requires Valid() && fuel > 0 && forall i :: 0 <= i < |kids| ==> kids[i] in nodes
      modifies this`awakened, this`trace
      ensures Valid()
      ensures var s := UpdateChildren(nodes, kids, |kids|, dt, old(awakened), fuel);
        trace == old(trace) + s.0 && awakened == s.1
      decreases fuel, 0
    {
      var k := 0;
      while k < |kids|
        invariant 0 <= k <= |kids|
        invariant Issued(awakened, nextComponent)
        invariant var s := UpdateChildren(nodes, kids, k, dt, old(awakened), fuel);
          trace == old(trace) + s.0 && awakened == s.1
      {
        Update(kids[k], dt, fuel - 1);
        k := k + 1;
      }
    }

    /** `Node::on_collision`: every component is told, in list order. */
    method OnCollision(n: NodeId, col: Colliders.Collision)
      requires n in nodes
      modifies this`trace
      ensures trace == old(trace) + CollisionEvents(nodes[n].components, col)
    {
      var cs := nodes[n].components;
      var i := 0;
      while i < |cs|
        invariant 0 <= i <= |cs|
        invariant trace == old(trace) + CollisionEvents(cs[..i], col)
      {
        assert CollisionEvents(cs[..i + 1], col) == CollisionEvents(cs[..i], col) + [Collided(cs[i].id, col)];
        trace := trace + [Collided(cs[i].id, col)];
        i := i + 1;
      }
      assert cs[..i] == cs;
    }

    /** `has_cyclic_inclusion(newChild)`: a depth-first walk from each of
        `self`'s existing children, with `newChild` marked visited from the
        start. A `true` answer always comes with a cycle in the hierarchy
        that avoids `newChild`; a node without children always gets
        `false`. */
    method HasCyclicInclusion(self: NodeId, newChild: NodeId) returns (r: bool, ghost cycle: seq<NodeId>)
      requires Valid() && self in nodes
      ensures r ==> IsCycle(nodes, cycle) && newChild !in cycle
      ensures nodes[self].children == [] ==> !r
    {
      var visited := {newChild};
      var stack: set<NodeId> := {};
      var kids := nodes[self].children;
      var i := 0;
      cycle := [];
      while i < |kids|
        invariant 0 <= i <= |kids|
        invariant newChild in visited && stack == {}
      {
        var found;
        found, visited, stack, cycle := CyclicHelper(kids[i], visited, stack, newChild, []);
        if found {
          return true, cycle;
        }
        i := i + 1;
      }
      return false, cycle;
    }

    /** The recursive step: `true` on reaching a node on the recursion stack,
        `false` on an already visited one; otherwise the node is visited and
        pushed, its children are walked, and it is popped before `false` is
        returned. `path` is the recursion stack in order. */
    method CyclicHelper(node: NodeId, visited: set<NodeId>, stack: set<NodeId>, avoid: NodeId, ghost path: seq<NodeId>)
      returns (found: bool, visited': set<NodeId>, stack': set<NodeId>, ghost cycle: seq<NodeId>)
      requires ChildrenIn(nodes) && node in nodes
      requires IsPath(nodes, path) && forall x :: x in stack <==> x in path
      requires path != [] ==> node in nodes[path[|path| - 1]].children
      requires avoid in visited && avoid !in stack
      ensures visited <= visited'
      ensures !found ==> stack' == stack
      ensures found ==> IsCycle(nodes, cycle) && avoid !in cycle
      ensures node in stack ==> found
      ensures node !in stack && node in visited ==> !found && visited' == visited && stack' == stack
      decreases |nodes.Keys - visited|
    {
      if node in stack {
        cycle := CycleFromStack(nodes, path, node, avoid);
        return true, visited, stack, cycle;
      }
      if node in visited {
        return false, visited, stack, [];
      }
      visited' := visited + {node};
      stack' := stack + {node};
      ghost var path' := path + [node];
      assert IsPath(nodes, path');
      var kids := nodes[node].children;
      var i := 0;
      while i < |kids|
        invariant 0 <= i <= |kids|
        invariant visited + {node} <= visited'
        invariant stack' == stack + {node}
        invariant avoid in visited'
      {
        SmallerRemainder(nodes.Keys, visited, visited', node);
        found, visited', stack', cycle := CyclicHelper(kids[i], visited', stack', avoid, path');
        if found {
          return;
        }
        i := i + 1;
      }
      stack' := stack' - {node};
      return false, visited', stack', [];
    }

    /** `add_child`: refused when the cycle check fires; otherwise the child
        is appended to `self`'s children and its parent becomes `self`. */
    method AddChild(self: NodeId, child: NodeId) returns (added: bool)
      requires Valid() && self in nodes && child in nodes
      modifies this`nodes
      ensures Valid()
      ensures !added ==> nodes == old(nodes)
      ensures added ==> nodes == AttachOf(old(nodes), self, child)
      ensures old(nodes)[self].children == [] ==> added
    {
      var cyclic, cycle := HasCyclicInclusion(self, child);
      if cyclic {
        return false;
      }
      nodes := nodes[self := nodes[self].(children := nodes[self].children + [child])];
      nodes := nodes[child := nodes[child].(parent := Some(self))];
      return true;
    }
  }

  /** The recursion stack closes a cycle when the walk reaches a node on
      it: from that node's place on the stack down to the current node and
      back. */
  lemma CycleFromStack(nodes: Nodes, path: seq<NodeId>, node: NodeId, avoid: NodeId) returns (cycle: seq<NodeId>)
    requires IsPath(nodes, path) && node in path && avoid !in path
    requires node in nodes[path[|path| - 1]].children
    ensures IsCycle(nodes, cycle) && avoid !in cycle
  {
    var k :| 0 <= k < |path| && path[k] == node;
    cycle := path[k..] + [node];
    forall i | 0 <= i < |cycle| - 1 ensures cycle[i + 1] in nodes[cycle[i]].children {
      if i < |path| - k - 1 {
        assert cycle[i] == path[k + i] && cycle[i + 1] == path[k + i + 1];
      } else {
        assert cycle[i] == path[|path| - 1];
      }
    }
  }

  /** Growing the visited set strictly shrinks the unvisited remainder. */
  lemma SmallerRemainder(keys: set<NodeId>, small: set<NodeId>, big: set<NodeId>, x: NodeId)
    requires small + {x} <= big && x in keys && x !in small
    ensures |keys - big| < |keys - small|
  {
    assert keys - big <= (keys - small) - {x};
    assert |(keys - small) - {x}| == |keys - small| - 1;
    SubsetCard(keys - big, (keys - small) - {x});
  }

  lemma {:induction false} SubsetCard<T>(a: set<T>, b: set<T>)
    requires a <= b
    ensures |a| <= |b|
    decreases |b|
  {
    if a != {} {
      var x :| x in a;
      SubsetCard(a - {x}, b - {x});
    }
  }
}
