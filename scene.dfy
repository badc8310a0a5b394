/** The scene: the list of nodes it updates every frame and the queue of
    nodes added since the last frame.

    New nodes wait in the queue until the next `update`, which first moves
    them to the end of the node list and then, for every listed node in
    order, awakes the node and updates each of its components. */
module Scenes {
  import opened Base
  import opened Geometry
  import opened SceneGraph

  /** The events and awake set one scene update produces over `order`,
      starting from the awake set `aw`: each node is awoken, then each of
      its components updated. */
  function SceneSteps(nodes: Nodes, order: seq<NodeId>, aw: set<ComponentId>, dt: real): (seq<Event>, set<ComponentId>)
    requires forall i :: 0 <= i < |order| ==> order[i] in nodes
  {
    if order == [] then ([], aw)
    else
      var prev := SceneSteps(nodes, order[..|order| - 1], aw, dt);
      var cs := nodes[order[|order| - 1]].components;
      var a := AwakeSteps(cs, prev.1);
      (prev.0 + a.0 + UpdateEvents(cs, dt), a.1)
  }

  /** One more node of `order` adds that node's awake and update steps. */
  lemma SceneStepsSnoc(nodes: Nodes, order: seq<NodeId>, i: nat, aw: set<ComponentId>, dt: real)
    requires forall k :: 0 <= k < |order| ==> order[k] in nodes
    requires i < |order|
    ensures var prev := SceneSteps(nodes, order[..i], aw, dt);
      var a := AwakeSteps(nodes[order[i]].components, prev.1);
      SceneSteps(nodes, order[..i + 1], aw, dt) == (prev.0 + a.0 + UpdateEvents(nodes[order[i]].components, dt), a.1)
  {
    assert order[..i + 1][..i] == order[..i];
  }

  /** The ids of every component of the nodes in `order`. */
  function IdsOf(nodes: Nodes, order: seq<NodeId>): set<ComponentId>
    requires forall i :: 0 <= i < |order| ==> order[i] in nodes
  {
    if order == [] then {}
    else IdsOf(nodes, order[..|order| - 1]) + Ids(nodes[order[|order| - 1]].components)
  }

  /** After an update every component of every listed node is awake, and a
      component is awoken during it exactly when it is listed and was not
      awake before. */
  lemma {:induction false} SceneStepsAwake(nodes: Nodes, order: seq<NodeId>, aw: set<ComponentId>, dt: real)
    requires forall i :: 0 <= i < |order| ==> order[i] in nodes
    ensures SceneSteps(nodes, order, aw, dt).1 == aw + IdsOf(nodes, order)
    ensures forall c :: Awoken(c) in SceneSteps(nodes, order, aw, dt).0 <==> c in IdsOf(nodes, order) && c !in aw
  {
    if order != [] {
      var init := order[..|order| - 1];
      var prev := SceneSteps(nodes, init, aw, dt);
      var cs := nodes[order[|order| - 1]].components;
      SceneStepsAwake(nodes, init, aw, dt);
      AwakeStepsExact(cs, prev.1);
      var a := AwakeSteps(cs, prev.1);
      assert SceneSteps(nodes, order, aw, dt).0 == prev.0 + a.0 + UpdateEvents(cs, dt);
      forall c
        ensures Awoken(c) in SceneSteps(nodes, order, aw, dt).0 <==> c in IdsOf(nodes, order) && c !in aw
      {
        assert Awoken(c) !in UpdateEvents(cs, dt);
      }
    }
  }

  /** Once every listed component is awake, an update only updates: every
      event it emits is an update, one per listed component in order. */
  lemma {:induction false} SceneStepsSettled(nodes: Nodes, order: seq<NodeId>, aw: set<ComponentId>, dt: real)
    requires forall i :: 0 <= i < |order| ==> order[i] in nodes
    requires IdsOf(nodes, order) <= aw
    ensures SceneSteps(nodes, order, aw, dt) == (UpdatesOf(nodes, order, dt), aw)
  {
    if order != [] {
      var init := order[..|order| - 1];
      var cs := nodes[order[|order| - 1]].components;
      assert IdsOf(nodes, order) == IdsOf(nodes, init) + Ids(cs);
      SceneStepsSettled(nodes, init, aw, dt);
      AwakeNoop(cs, aw);
      var prev := SceneSteps(nodes, init, aw, dt);
      var a := AwakeSteps(cs, prev.1);
      assert a == ([], aw);
      assert SceneSteps(nodes, order, aw, dt) == (prev.0 + a.0 + UpdateEvents(cs, dt), a.1);
      assert UpdatesOf(nodes, order, dt) == UpdatesOf(nodes, init, dt) + UpdateEvents(cs, dt);
      assert prev.0 + a.0 == prev.0;
    }
  }

  /** The update events of the nodes in `order`, in order. */
  function UpdatesOf(nodes: Nodes, order: seq<NodeId>, dt: real): seq<Event>
    requires forall i :: 0 <= i < |order| ==> order[i] in nodes
  {
    if order == [] then []
    else UpdatesOf(nodes, order[..|order| - 1], dt) + UpdateEvents(nodes[order[|order| - 1]].components, dt)
  }

  /** A second update straight after a first one awakes nothing. */
  lemma SecondUpdateSettled(nodes: Nodes, order: seq<NodeId>, aw: set<ComponentId>, dt: real, dt2: real)
    requires forall i :: 0 <= i < |order| ==> order[i] in nodes
    ensures var first := SceneSteps(nodes, order, aw, dt);
      SceneSteps(nodes, order, first.1, dt2) == (UpdatesOf(nodes, order, dt2), first.1)
  {
    SceneStepsAwake(nodes, order, aw, dt);
    SceneStepsSettled(nodes, order, SceneSteps(nodes, order, aw, dt).1, dt2);
  }

  class Scene {
    const world: World
    var nodes: seq<NodeId>
    var queue: seq<NodeId>

    ghost predicate Valid()
      reads this`nodes, this`queue, world`nodes, world`owner, world`nextNode, world`nextComponent, world`awakened
    {
      world.Valid() &&
      (forall i :: 0 <= i < |nodes| ==> nodes[i] in world.nodes) &&
      (forall i :: 0 <= i < |queue| ==> queue[i] in world.nodes)
    }

    /** An empty scene over the arena `world`. */
    constructor (world: World)
      requires world.Valid()
      ensures Valid() && this.world == world && nodes == [] && queue == []
    {
      this.world := world;
      nodes := [];
      queue := [];
    }

    /** `add_node(pos, rot, scale)`: a new parentless node at `pos` with
        scale `scale`, queued for the next update. */
    method AddNode(pos: Vec3, scale: Vec3) returns (n: NodeId)
      requires Valid()
      modifies world`nodes, world`nextNode, this`queue
      ensures Valid()
      ensures n !in old(world.nodes)
      ensures world.nodes == old(world.nodes)[n := NodeRec(Transform(pos, scale), None, [], [])]
      ensures PositionOf(world.nodes, n, |world.nodes|) == pos && ScaleOf(world.nodes, n, |world.nodes|) == scale
      ensures queue == old(queue) + [n] && nodes == old(nodes)
    {
      n := world.NewNode();
      world.SetPosition(n, pos);
      world.SetScale(n, scale);
      queue := queue + [n];
      assert world.nodes == old(world.nodes)[n := NodeRec(Transform(pos, scale), None, [], [])];
    }

    /** `update(dt)`: the queue is appended to the node list and emptied,
        then every listed node is awoken and its components updated. */
    method Update(dt: real)
      requires Valid()
      modifies this`nodes, this`queue, world`awakened, world`trace
      ensures Valid()
      ensures nodes == old(nodes) + old(queue) && queue == []
      ensures var s := SceneSteps(world.nodes, nodes, old(world.awakened), dt);
        world.trace == old(world.trace) + s.0 && world.awakened == s.1
    {
      nodes := nodes + queue;
      queue := [];
      UpdateNodes(nodes, dt);
    }

    /** The node loop of `update`: every node of `order` in turn. */
    method UpdateNodes(order: seq<NodeId>, dt: real)
      requires world.Valid() && forall k :: 0 <= k < |order| ==> order[k] in world.nodes
      modifies world`awakened, world`trace
      ensures world.Valid()
      ensures var s := SceneSteps(world.nodes, order, old(world.awakened), dt);
        world.trace == old(world.trace) + s.0 && world.awakened == s.1
    {
      ghost var t0, aw0 := world.trace, world.awakened;
      var i := 0;
      while i < |order|
        invariant 0 <= i <= |order|
        invariant Issued(world.awakened, world.nextComponent)
        invariant var s := SceneSteps(world.nodes, order[..i], aw0, dt);
          world.trace == t0 + s.0 && world.awakened == s.1
      {
        UpdateNth(order, i, dt, t0, aw0);
        i := i + 1;
      }
      assert order[..i] == order;
    }

    /** One turn of the node loop: the first `i + 1` nodes of `order` have
        been walked once node `i` is. */
    method UpdateNth(order: seq<NodeId>, i: nat, dt: real, ghost t0: seq<Event>, ghost aw0: set<ComponentId>)
      requires world.Valid() && i < |order| && forall k :: 0 <= k < |order| ==> order[k] in world.nodes
      requires var s := SceneSteps(world.nodes, order[..i], aw0, dt); world.trace == t0 + s.0 && world.awakened == s.1
      modifies world`awakened, world`trace
      ensures world.Valid()
      ensures var s := SceneSteps(world.nodes, order[..i + 1], aw0, dt); world.trace == t0 + s.0 && world.awakened == s.1
    {
      SceneStepsSnoc(world.nodes, order, i, aw0, dt);
      ghost var prev := SceneSteps(world.nodes, order[..i], aw0, dt);
      ghost var cs := world.nodes[order[i]].components;
      ghost var a := AwakeSteps(cs, prev.1);
      UpdateNode(order[i], dt);
      ConcatRegroup(t0, prev.0, a.0, UpdateEvents(cs, dt));
    }

    /** The body of the node loop: awake the node, then update each of its
        components in order. */
    method UpdateNode(n: NodeId, dt: real)
      requires world.Valid() && n in world.nodes
      modifies world`awakened, world`trace
      ensures world.Valid()
      ensures var cs := world.nodes[n].components; var a := AwakeSteps(cs, old(world.awakened));
        world.trace == old(world.trace) + a.0 + UpdateEvents(cs, dt) && world.awakened == a.1
    {
      world.Awake(n);
      UpdateEach(n, dt);
    }

    /** The inner loop of the node loop: every component of `n` is
        updated, in order. */
    method UpdateEach(n: NodeId, dt: real)
      requires n in world.nodes
      modifies world`trace
      ensures world.trace == old(world.trace) + UpdateEvents(world.nodes[n].components, dt)
    {
      var cs := world.nodes[n].components;
      var j := 0;
      while j < |cs|
        invariant 0 <= j <= |cs|
        invariant world.trace == old(world.trace) + UpdateEvents(cs[..j], dt)
      {
        assert UpdateEvents(cs[..j + 1], dt) == UpdateEvents(cs[..j], dt) + [Updated(cs[j].id, dt)];
        world.trace := world.trace + [Updated(cs[j].id, dt)];
        j := j + 1;
      }
      assert cs[..j] == cs;
    }
  }
}
