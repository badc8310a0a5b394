/** The broad-phase octree.

    Each cell has a level, bounds, either eight children or none, and the
    nodes stored at it. A node is inserted by its footprint, the box of
    half-extent scale/2 around its position; the footprint is supplied by
    the caller as a function `fp` from node handles to boxes. `Cell` is the
    value the class's ghost `model` field tracks; the functions on it are
    the specification of the class's methods. */
module Octrees {
  import opened Base
  import opened Geometry

  /** The footprint of every node, as seen when the tree is built or queried. */
  type Footprint = NodeId -> Box

  datatype Cell = Cell(level: int, bounds: Box, children: seq<Cell>, nodes: seq<NodeId>)

  /** A level read as a recursion budget: negative levels never subdivide. */
  function Depth(level: int): nat { if level < 0 then 0 else level }

  /** Children sit one level below their parent, and only cells above level
      0 have children. */
  ghost predicate WellLeveled(c: Cell)
    decreases c
  {
    (c.children != [] ==> c.level > 0) &&
    forall i :: 0 <= i < |c.children| ==> c.children[i].level == c.level - 1 && WellLeveled(c.children[i])
  }

  /** The bounds `subdivide` gives child `i`: the parent's centre moved by a
      quarter of its size along each axis (by bits 4, 2 and 1 of `i`), then
      passed together with a quarter of the size to the (min, max)
      constructor. */
  function ChildBounds(b: Box, i: int): Box {
    var center := Center(b);
    var halfSize := Scale(Size(b), 0.5);
    var newCenter := Vec3(center.x + halfSize.x * (if (i / 4) % 2 == 1 then 0.5 else -0.5),
                          center.y + halfSize.y * (if (i / 2) % 2 == 1 then 0.5 else -0.5),
                          center.z + halfSize.z * (if i % 2 == 1 then 0.5 else -0.5));
    Box(newCenter, Scale(halfSize, 0.5))
  }

  /** The empty leaf `subdivide` creates as child `i` of `c`. */
  function EmptyChild(c: Cell, i: int): Cell {
    Cell(c.level - 1, ChildBounds(c.bounds, i), [], [])
  }

  /** `nodes.size() > MAX_OBJECTS`: the signed limit is converted to the
      64-bit unsigned size type before the comparison, so a negative limit
      wraps round to a huge one and never calls for a split. */
  function Exceeds(count: nat, limit: int): (r: bool)
    ensures 0 <= limit < 0x1_0000_0000_0000_0000 ==> (r <==> count > limit)
    ensures -0x8000_0000_0000_0000 <= limit < 0 && count <= 0x7fff_ffff_ffff_ffff ==> !r
  {
    count > limit % 0x1_0000_0000_0000_0000
  }

  /** `insert`: a node whose footprint misses the cell changes nothing; an
      internal cell forwards the node to every child; a leaf appends it and
      subdivides once it holds more than `maxObjects` nodes (see `Exceeds`) and is above
      level 0. */
  function InsertCell(c: Cell, n: NodeId, fp: Footprint, maxObjects: int): (r: Cell)
    requires WellLeveled(c)
    ensures WellLeveled(r) && r.level == c.level && r.bounds == c.bounds
    decreases Depth(c.level), 3, 0
  {
    if !Intersects(c.bounds, fp(n)) then c
    else if c.children != [] then c.(children := InsertEach(c.children, c.level, n, fp, maxObjects))
    else
      var grown := c.(nodes := c.nodes + [n]);
      if Exceeds(|grown.nodes|, maxObjects) && c.level > 0 then SubdivideCell(grown, fp, maxObjects) else grown
  }

  /** `n` inserted into each of the cells `cs`, which sit at level `level - 1`. */
  function InsertEach(cs: seq<Cell>, level: int, n: NodeId, fp: Footprint, maxObjects: int): (r: seq<Cell>)
    requires level > 0
    requires forall i :: 0 <= i < |cs| ==> cs[i].level == level - 1 && WellLeveled(cs[i])
    ensures |r| == |cs|
    ensures forall i :: 0 <= i < |r| ==> r[i].level == level - 1 && WellLeveled(r[i]) && r[i] == InsertCell(cs[i], n, fp, maxObjects)
    decreases Depth(level), 2, |cs|
  {
    if cs == [] then []
    else InsertEach(cs[..|cs| - 1], level, n, fp, maxObjects) + [InsertCell(cs[|cs| - 1], n, fp, maxObjects)]
  }

  /** `subdivide`: eight fresh children one level down, every held node
      inserted into every child in order, and the cell's own list emptied. */
  function SubdivideCell(c: Cell, fp: Footprint, maxObjects: int): (r: Cell)
    requires c.children == [] && c.level > 0
    ensures WellLeveled(r) && r.level == c.level && r.bounds == c.bounds
    decreases Depth(c.level), 1, 0
  {
    Cell(c.level, c.bounds, FillChildren(c, fp, maxObjects, 8), [])
  }

  /** The first `k` children `subdivide` builds for `c`. */
  function FillChildren(c: Cell, fp: Footprint, maxObjects: int, k: nat): (r: seq<Cell>)
    requires c.level > 0
    ensures |r| == k
    ensures forall i :: 0 <= i < k ==> r[i].level == c.level - 1 && WellLeveled(r[i])
    decreases Depth(c.level), 0, k
  {
    if k == 0 then []
    else FillChildren(c, fp, maxObjects, k - 1) + [InsertAll(EmptyChild(c, k - 1), c.nodes, fp, maxObjects)]
  }

  /** The nodes `ns` inserted into `c` one after the other. */
  function InsertAll(c: Cell, ns: seq<NodeId>, fp: Footprint, maxObjects: int): (r: Cell)
    requires WellLeveled(c)
    ensures WellLeveled(r) && r.level == c.level && r.bounds == c.bounds
    decreases Depth(c.level), 4, |ns|
  {
    if ns == [] then c
    else InsertCell(InsertAll(c, ns[..|ns| - 1], fp, maxObjects), ns[|ns| - 1], fp, maxObjects)
  }

  /** `clear`: the children are dropped, the cell's own list is kept. */
  function ClearCell(c: Cell): Cell {
    c.(children := [])
  }

  /** `query`: nothing at level 0 or when the cell misses the query box;
      an internal cell unites its children's answers; a leaf answers the
      stored nodes whose footprint meets the query box. */
  function QueryCell(c: Cell, q: Box, fp: Footprint): set<NodeId>
    decreases c
  {
    if c.level == 0 || !Intersects(c.bounds, q) then {}
    else if c.children != [] then (set i, x | 0 <= i < |c.children| && x in QueryCell(c.children[i], q, fp) :: x)
    else LeafHits(c.nodes, |c.nodes|, q, fp)
  }

  /** The first `k` stored nodes whose footprint meets `q`. */
  function LeafHits(ns: seq<NodeId>, k: nat, q: Box, fp: Footprint): set<NodeId>
    requires k <= |ns|
  {
    set j | 0 <= j < k && Intersects(q, fp(ns[j])) :: ns[j]
  }

  /** An internal cell's answer is exactly what its children answer. */
  lemma QueryInternal(c: Cell, q: Box, fp: Footprint, x: NodeId)
    requires c.level != 0 && Intersects(c.bounds, q) && c.children != []
    ensures x in QueryCell(c, q, fp) <==> exists j :: 0 <= j < |c.children| && x in QueryCell(c.children[j], q, fp)
  {
  }

  /** One more stored node extends the answer by that node exactly when its
      footprint meets the query box. */
  lemma LeafHitsStep(ns: seq<NodeId>, k: nat, q: Box, fp: Footprint)
    requires k < |ns|
    ensures LeafHits(ns, k + 1, q, fp) == LeafHits(ns, k, q, fp) + (if Intersects(q, fp(ns[k])) then {ns[k]} else {})
  {
  }

  /** The nodes a list holds. */
  function Listed(ns: seq<NodeId>): set<NodeId> {
    set j | 0 <= j < |ns| :: ns[j]
  }

  /** The nodes stored anywhere in `c`. */
  function Held(c: Cell): set<NodeId>
    decreases c
  {
    Listed(c.nodes) + set i, x | 0 <= i < |c.children| && x in Held(c.children[i]) :: x
  }

  // ---------------------------------------------------------------------------
  // Lemmas

  /** Every child `subdivide` builds is the empty child at its index with all
      of the parent's nodes inserted, one level down. */
  lemma {:induction false} FillChildrenAt(c: Cell, fp: Footprint, maxObjects: int, k: nat, i: nat)
    requires c.level > 0 && i < k
    ensures FillChildren(c, fp, maxObjects, k)[i] == InsertAll(EmptyChild(c, i), c.nodes, fp, maxObjects)
  {
    if i < k - 1 {
      FillChildrenAt(c, fp, maxObjects, k - 1, i);
    }
  }

  /** `subdivide` yields exactly eight children at the level below, each
      holding the parent's nodes, and leaves the cell's own list empty. */
  lemma SubdivideShape(c: Cell, fp: Footprint, maxObjects: int)
    requires c.children == [] && c.level > 0
    ensures var r := SubdivideCell(c, fp, maxObjects);
      |r.children| == 8 && r.nodes == [] &&
      forall i :: 0 <= i < 8 ==>
        r.children[i].level == c.level - 1 && r.children[i] == InsertAll(EmptyChild(c, i), c.nodes, fp, maxObjects)
  {
    forall i | 0 <= i < 8 ensures FillChildren(c, fp, maxObjects, 8)[i] == InsertAll(EmptyChild(c, i), c.nodes, fp, maxObjects) {
      FillChildrenAt(c, fp, maxObjects, 8, i);
    }
  }

  /** The children's bounds are not octants: all eight share the max
      corner size/4, whatever the parent's position. */
  lemma ChildBoundsShareMax(b: Box, i: int)
    ensures ChildBounds(b, i).max == Scale(Size(b), 0.25)
  {
  }

  /** For a box centred on the origin with half-extent `h` on each axis
      (the root box is h = 1000), child 7 collapses to the single point
      (h/2, h/2, h/2) and child 0 spans -h/2..h/2, which overlaps all the
      other octants. */
  lemma ChildBoundsOfCentredBox(b: Box, h: real)
    requires b == Box(Splat(-h), Splat(h))
    ensures ChildBounds(b, 7) == Box(Splat(h / 2.0), Splat(h / 2.0))
    ensures ChildBounds(b, 0) == Box(Splat(-h / 2.0), Splat(h / 2.0))
  {
    assert Center(b) == Vec3(0.0, 0.0, 0.0);
    assert Scale(Size(b), 0.5) == Vec3(h, h, h);
    assert (7 / 4) % 2 == 1 && (7 / 2) % 2 == 1 && 7 % 2 == 1;
  }

  /** Insertion never makes a node appear that was not inserted. */
  lemma {:induction false} InsertHeld(c: Cell, n: NodeId, fp: Footprint, maxObjects: int)
    requires WellLeveled(c)
    ensures Held(InsertCell(c, n, fp, maxObjects)) <= Held(c) + {n}
    decreases Depth(c.level), 3, 0
  {
    var r := InsertCell(c, n, fp, maxObjects);
    if !Intersects(c.bounds, fp(n)) {
    } else if c.children != [] {
      forall x | x in Held(r) ensures x in Held(c) + {n} {
        if x !in Listed(r.nodes) {
          var i :| 0 <= i < |r.children| && x in Held(r.children[i]);
          InsertHeld(c.children[i], n, fp, maxObjects);
        }
      }
    } else {
      var grown := c.(nodes := c.nodes + [n]);
      assert Held(grown) == Held(c) + {n} by {
        forall x | x in Listed(grown.nodes) ensures x in Listed(c.nodes) + {n} {
          var j :| 0 <= j < |grown.nodes| && grown.nodes[j] == x;
          if j < |c.nodes| { assert c.nodes[j] == x; }
        }
        assert grown.nodes[|c.nodes|] == n;
        forall x | x in Listed(c.nodes) ensures x in Listed(grown.nodes) {
          var j :| 0 <= j < |c.nodes| && c.nodes[j] == x;
          assert grown.nodes[j] == x;
        }
      }
      if Exceeds(|grown.nodes|, maxObjects) && c.level > 0 {
        SubdivideHeld(grown, fp, maxObjects);
      }
    }
  }

  /** After `subdivide` the tree holds only the nodes the cell held. */
  lemma {:induction false} SubdivideHeld(c: Cell, fp: Footprint, maxObjects: int)
    requires c.children == [] && c.level > 0
    ensures Held(SubdivideCell(c, fp, maxObjects)) <= Held(c)
    decreases Depth(c.level), 1, 0
  {
    var r := SubdivideCell(c, fp, maxObjects);
    SubdivideShape(c, fp, maxObjects);
    forall x | x in Held(r) ensures x in Held(c) {
      var i :| 0 <= i < |r.children| && x in Held(r.children[i]);
      InsertAllHeld(EmptyChild(c, i), c.nodes, fp, maxObjects);
      var j :| 0 <= j < |c.nodes| && c.nodes[j] == x;
    }
  }

  /** `clear` forgets nodes but never adds one. */
  lemma ClearHeld(c: Cell)
    ensures Held(ClearCell(c)) <= Held(c)
    ensures WellLeveled(ClearCell(c))
  {
  }

  /** Inserting one more node inserts it into the result of the others. */
  lemma InsertAllSnoc(c: Cell, ns: seq<NodeId>, n: NodeId, fp: Footprint, maxObjects: int)
    requires WellLeveled(c)
    ensures InsertAll(c, ns + [n], fp, maxObjects) == InsertCell(InsertAll(c, ns, fp, maxObjects), n, fp, maxObjects)
  {
    assert (ns + [n])[..|ns|] == ns;
  }

  /** Inserting a list of nodes adds at most those nodes. */
  lemma {:induction false} InsertAllHeld(c: Cell, ns: seq<NodeId>, fp: Footprint, maxObjects: int)
    requires WellLeveled(c)
    ensures forall x :: x in Held(InsertAll(c, ns, fp, maxObjects)) ==> x in Held(c) || x in ns
    decreases Depth(c.level), 4, |ns|
  {
    if ns != [] {
      var init := ns[..|ns| - 1];
      InsertAllHeld(c, init, fp, maxObjects);
      InsertHeld(InsertAll(c, init, fp, maxObjects), ns[|ns| - 1], fp, maxObjects);
      forall x | x in init ensures x in ns {
        var j :| 0 <= j < |init| && init[j] == x;
        assert ns[j] == x;
      }
    }
  }

  /** Every answer of a query is a node stored in the tree whose footprint
      meets the query box; a level-0 cell answers nothing. */
  lemma {:induction false} QuerySound(c: Cell, q: Box, fp: Footprint)
    ensures forall x :: x in QueryCell(c, q, fp) ==> x in Held(c) && Intersects(q, fp(x))
    ensures c.level == 0 ==> QueryCell(c, q, fp) == {}
    decreases c
  {
    if c.level != 0 && Intersects(c.bounds, q) {
      if c.children != [] {
        forall x | x in QueryCell(c, q, fp) ensures x in Held(c) && Intersects(q, fp(x)) {
          var i :| 0 <= i < |c.children| && x in QueryCell(c.children[i], q, fp);
          QuerySound(c.children[i], q, fp);
        }
      } else {
        forall x | x in QueryCell(c, q, fp) ensures x in Held(c) && Intersects(q, fp(x)) {
          var j :| 0 <= j < |c.nodes| && Intersects(q, fp(c.nodes[j])) && c.nodes[j] == x;
          assert x in Listed(c.nodes);
        }
      }
    }
  }

  /** `clear` keeps the stored list, so a cell that never subdivided piles
      up duplicates when the same node is inserted again after a clear. */
  lemma ClearKeepsNodes(c: Cell, n: NodeId, fp: Footprint, maxObjects: int)
    requires WellLeveled(c) && c.children == [] && Intersects(c.bounds, fp(n))
    requires !Exceeds(|c.nodes| + 1, maxObjects) || c.level <= 0
    ensures ClearCell(c) == c
    ensures InsertCell(ClearCell(c), n, fp, maxObjects).nodes == c.nodes + [n]
  {
  }

  // ---------------------------------------------------------------------------
  // The tree of cell objects

  /** The answers of the first `i + 1` cells are those of the first `i`
      and those of cell `i`. */
  lemma QueryUnionStep(cs: seq<Cell>, i: nat, q: Box, fp: Footprint)
    requires i < |cs|
    ensures (set j, x | 0 <= j < i + 1 && x in QueryCell(cs[j], q, fp) :: x) ==
      (set j, x | 0 <= j < i && x in QueryCell(cs[j], q, fp) :: x) + QueryCell(cs[i], q, fp)
  {
    var before := set j, x | 0 <= j < i && x in QueryCell(cs[j], q, fp) :: x;
    var after := set j, x | 0 <= j < i + 1 && x in QueryCell(cs[j], q, fp) :: x;
    forall x | x in after ensures x in before + QueryCell(cs[i], q, fp) {
      var j :| 0 <= j < i + 1 && x in QueryCell(cs[j], q, fp);
      if j < i {
        assert x in before;
      }
    }
  }

  class Octree {
    var level: int
    var bounds: Box
    var children: seq<Octree>
    var nodes: seq<NodeId>
    ghost var Repr: set<object>
    ghost var model: Cell

    ghost predicate Valid()
      reads this, Repr
      decreases Repr
    {
      this in Repr &&
      model.level == level && model.bounds == bounds && model.nodes == nodes &&
      |model.children| == |children| && WellLeveled(model) &&
      (forall i :: 0 <= i < |children| ==>
         children[i] in Repr && children[i].Repr <= Repr && this !in children[i].Repr &&
         children[i].Valid() && children[i].model == model.children[i] && children[i].level == level - 1) &&
      (forall i, j :: 0 <= i < j < |children| ==> children[i].Repr !! children[j].Repr)
    }

    /** `Octree(level, bounds)`: an empty leaf. */
    constructor (level: int, bounds: Box)
      ensures Valid() && fresh(Repr)
      ensures model == Cell(level, bounds, [], [])
    {
      this.level := level;
      this.bounds := bounds;
      children := [];
      nodes := [];
      Repr := {this};
      model := Cell(level, bounds, [], []);
    }

    /** `clear`: drop the children, keep the stored nodes. */
    method Clear()
      requires Valid()
      modifies this
      ensures Valid() && fresh(Repr - old(Repr))
      ensures model == ClearCell(old(model))
    {
      children := [];
      Repr := {this};
      model := model.(children := []);
    }

    /** `insert`. */
    method Insert(n: NodeId, fp: Footprint, maxObjects: int)
      requires Valid()
      modifies Repr
      ensures Valid() && fresh(Repr - old(Repr))
      ensures model == InsertCell(old(model), n, fp, maxObjects)
      decreases Depth(level), 3
    {
      if !Intersects(bounds, fp(n)) {
        return;
      }
      if children != [] {
        InsertIntoChildren(n, fp, maxObjects);
      } else {
        nodes := nodes + [n];
        model := model.(nodes := nodes);
        if Exceeds(|nodes|, maxObjects) && level > 0 {
          Subdivide(fp, maxObjects);
        }
      }
    }

    /** The internal-cell branch of `insert`: forward to every child. */
    method InsertIntoChildren(n: NodeId, fp: Footprint, maxObjects: int)
      requires Valid() && children != []
      modifies Repr
      ensures Valid() && fresh(Repr - old(Repr))
      ensures model == old(model).(children := InsertEach(old(model).children, old(level), n, fp, maxObjects))
      decreases Depth(level), 2
    {
      ghost var target := InsertEach(model.children, level, n, fp, maxObjects);
      var i := 0;
      while i < |children|
        invariant 0 <= i <= |children|
        invariant Valid() && fresh(Repr - old(Repr))
        invariant children == old(children) && level == old(level) && bounds == old(bounds) && nodes == old(nodes)
        invariant model.level == old(model).level && model.bounds == old(model).bounds && model.nodes == old(model).nodes
        invariant forall j :: 0 <= j < i ==> model.children[j] == target[j]
        invariant forall j :: i <= j < |children| ==> model.children[j] == old(model).children[j]
      {
        InsertChild(i, n, fp, maxObjects);
        i := i + 1;
      }
      assert model.children == target;
    }

    /** Node `n` inserted into child `i`; everything else is kept. */
    method InsertChild(i: nat, n: NodeId, fp: Footprint, maxObjects: int)
      requires Valid() && i < |children|
      modifies Repr
      ensures Valid() && fresh(Repr - old(Repr))
      ensures children == old(children) && level == old(level) && bounds == old(bounds) && nodes == old(nodes)
      ensures model == old(model).(children := old(model).children[i := InsertCell(old(model).children[i], n, fp, maxObjects)])
      decreases Depth(level), 0
    {
      var child := children[i];
      child.Insert(n, fp, maxObjects);
      Repr := Repr + child.Repr;
      model := model.(children := model.children[i := child.model]);
    }

    /** `subdivide`, as `insert` calls it: on a leaf above level 0. */
    method Subdivide(fp: Footprint, maxObjects: int)
      requires Valid() && children == [] && level > 0
      modifies Repr
      ensures Valid() && fresh(Repr - old(Repr))
      ensures model == SubdivideCell(old(model), fp, maxObjects)
      decreases Depth(level), 2
    {
      ghost var m0 := model;
      MakeChildren();
      var a := 0;
      while a < |nodes|
        invariant 0 <= a <= |nodes|
        invariant Valid() && fresh(Repr - old(Repr))
        invariant |children| == 8 && nodes == m0.nodes && level == m0.level && bounds == m0.bounds
        invariant forall k {:trigger model.children[k]} :: 0 <= k < 8 ==> model.children[k] == InsertAll(EmptyChild(m0, k), nodes[..a], fp, maxObjects)
      {
        InsertIntoAll(a, m0, fp, maxObjects);
        a := a + 1;
      }
      DropNodes();
      SubdivideShape(m0, fp, maxObjects);
      assert m0.nodes[..a] == m0.nodes;
    }

    /** The end of `subdivide`: the node list is emptied once every node
        has been handed to the children. */
    method DropNodes()
      requires Valid()
      modifies this`nodes, this`model
      ensures Valid() && nodes == [] && model == old(model).(nodes := [])
    {
      nodes := [];
      model := model.(nodes := []);
    }

    /** The first half of `subdivide`: eight empty children one level down,
        with the bounds `ChildBounds` gives. */
    method MakeChildren()
      requires Valid() && children == [] && level > 0
      modifies this
      ensures Valid() && fresh(Repr - old(Repr))
      ensures level == old(level) && bounds == old(bounds) && nodes == old(nodes) && |children| == 8
      ensures model == old(model).(children := seq(8, k => EmptyChild(old(model), k)))
    {
      var i := 0;
      while i < 8
        invariant 0 <= i <= 8
        invariant level == old(level) && bounds == old(bounds) && nodes == old(nodes)
        invariant Valid() && fresh(Repr - old(Repr)) && |children| == i
        invariant model == old(model).(children := seq(i, k => EmptyChild(old(model), k)))
      {
        var child := new Octree(level - 1, ChildBounds(bounds, i));
        PushChild(child);
        assert seq(i + 1, k => EmptyChild(old(model), k)) == seq(i, k => EmptyChild(old(model), k)) + [EmptyChild(old(model), i)];
        i := i + 1;
      }
    }

    /** One iteration of the child loop of `subdivide`: an empty leaf one
        level down, apart from this cell, becomes the next child. */
    method PushChild(child: Octree)
      requires Valid() && level > 0 && child.Valid() && Repr !! child.Repr
      requires child.children == [] && child.level == level - 1 && child.model == Cell(level - 1, child.bounds, [], [])
      modifies this
      ensures Valid() && Repr == old(Repr) + child.Repr
      ensures level == old(level) && bounds == old(bounds) && nodes == old(nodes)
      ensures children == old(children) + [child] && model == old(model).(children := old(model).children + [child.model])
    {
      assert forall j :: 0 <= j < |children| ==> children[j].Repr !! child.Repr;
      children := children + [child];
      Repr := Repr + child.Repr;
      model := model.(children := model.children + [child.model]);
    }

    /** One pass of the second half of `subdivide`: node `nodes[a]` is
        inserted into every child in order. */
    method InsertIntoAll(a: nat, ghost empty: Cell, fp: Footprint, maxObjects: int)
      requires Valid() && |children| == 8 && a < |nodes|
      requires empty.level == level && empty.bounds == bounds
      requires forall k :: 0 <= k < 8 ==> model.children[k] == InsertAll(EmptyChild(empty, k), nodes[..a], fp, maxObjects)
      modifies Repr
      ensures Valid() && fresh(Repr - old(Repr))
      ensures children == old(children) && nodes == old(nodes) && level == old(level) && bounds == old(bounds)
      ensures forall k :: 0 <= k < 8 ==> model.children[k] == InsertAll(EmptyChild(empty, k), nodes[..a + 1], fp, maxObjects)
      decreases Depth(level), 1
    {
      assert nodes[..a + 1][..a] == nodes[..a];
      var i := 0;
      while i < 8
        invariant 0 <= i <= 8
        invariant Valid() && fresh(Repr - old(Repr))
        invariant children == old(children) && level == old(level) && bounds == old(bounds) && nodes == old(nodes)
        invariant forall j :: 0 <= j < i ==> model.children[j] == InsertAll(EmptyChild(empty, j), nodes[..a + 1], fp, maxObjects)
        invariant forall j :: i <= j < 8 ==> model.children[j] == old(model).children[j]
      {
        InsertChild(i, nodes[a], fp, maxObjects);
        i := i + 1;
      }
    }

    /** `query`: the stored nodes whose footprint meets `q`, gathered from
        the leaves this cell reaches, without duplicates. */
    method Query(q: Box, fp: Footprint) returns (r: set<NodeId>)
      requires Valid()
      ensures r == QueryCell(model, q, fp)
      decreases Repr, 1
    {
      if level == 0 || !Intersects(bounds, q) {
        assert QueryCell(model, q, fp) == {};
        return {};
      }
      if children != [] {
        r := QueryChildren(q, fp);
        assert r == QueryCell(model, q, fp) by {
          assert model.level != 0 && Intersects(model.bounds, q) && model.children != [];
          forall x ensures x in r <==> x in QueryCell(model, q, fp) {
            QueryInternal(model, q, fp, x);
          }
        }
      } else {
        assert model.children == [];
        r := {};
        var i := 0;
        while i < |nodes|
          invariant 0 <= i <= |nodes|
          invariant r == LeafHits(nodes, i, q, fp)
        {
          LeafHitsStep(nodes, i, q, fp);
          if Intersects(q, fp(nodes[i])) {
            r := r + {nodes[i]};
          }
          i := i + 1;
        }
        assert r == QueryCell(model, q, fp);
      }
    }

    /** The internal-cell branch of `query`: the union of the children's answers. */
    method QueryChildren(q: Box, fp: Footprint) returns (r: set<NodeId>)
      requires Valid()
      ensures r == set j, x | 0 <= j < |model.children| && x in QueryCell(model.children[j], q, fp) :: x
      decreases Repr, 0
    {
      r := {};
      var i := 0;
      while i < |children|
        invariant 0 <= i <= |children|
        invariant r == set j, x | 0 <= j < i && x in QueryCell(model.children[j], q, fp) :: x
      {
        var part := children[i].Query(q, fp);
        assert part == QueryCell(model.children[i], q, fp);
        QueryUnionStep(model.children, i, q, fp);
        r := r + part;
        i := i + 1;
      }
    }
  }
}
