# A verified model of the mine engine's physics, scene graph and render buffers

This project is a Dafny model of the core of the C++ game engine *mine*. It covers:

- **bbox**: axis-aligned box algebra.
- **collider**: box colliders and their cached world points, axes and bounds.
- **octree**: the octree broad phase.
- **physics**: the separating-axis narrow phase, collision resolution, the rigid-body step, and `Physics::update`, which ties them together.
- **node**: the scene graph. Nodes have transforms, components, once-only `awake`, recursive `update`, and a cycle check on `add_child`.
- **scene**: the pending-node queue and the per-frame walk.
- **mesh**: mesh flattening from an imported scene, and the mesh cache.
- **renderer**: the renderer's mesh buffer (concatenation and stride-8 interleaving), gizmo generation, and the draw loops' index offsets.

Files follow the engine's structure:

| file | module | models |
|---|---|---|
| `base.dfy` | `Base` | ids, `Option`, min/max |
| `geometry.dfy` | `Geometry` | vectors, `BoundingBox`, translation-plus-scale transforms |
| `collider.dfy` | `Colliders` | `SATProjection`, `Collision`, `Collider`/`BoxCollider` |
| `node.dfy` | `SceneGraph` | the node arena, components, `awake`/`update`/`on_collision`, `add_child` |
| `octree.dfy` | `Octrees` | `Octree` as a class over a `Cell` value model |
| `physics.dfy` | `Physics` | `Rigidbody`, SAT, resolution, `Physics` |
| `scene.dfy` | `Scenes` | `Scene` |
| `mesh.dfy` | `Meshes` | `Mesh`, `process_mesh`/`process_node`, `load_into` |
| `renderer.dfy` | `Rendering` | `MeshRenderer`, `MeshBuffer`, `Gizmo`, `GizmoBuffer`, `Renderer` draws |

**Modelling choices**

- Coordinates are reals.
- A node transform is a translation plus a diagonal scale.
- A zero divisor, which gives a non-finite value in IEEE arithmetic, gives 0 (`SafeDiv`).
- Nodes live in an arena: `SceneGraph.World` maps node ids to records. A parent pointer is an id, so an expired `weak_ptr` is an id no longer in the map.
- Component callbacks (`awake`, `update`, `on_collision`) are recorded as events in the world's `trace`. For most component types their bodies are outside this model. `Collider::update` and `MeshRenderer::awake` are modelled, as `Colliders.Collider.Update` and `Rendering.MeshRenderer.Awake`, but the component walks record an event for them and do not call them (see "## Left out").
- `glm::normalize` and the sphere trigonometry are function parameters, and nothing is assumed about them.
- What the importer returns is a parameter: `None` is a failed read.
- GPU uploads are modelled by the lists they upload.
- Some loops are split into a loop and a method for their body (`World.UpdateKids`, `World.UpdateStep`, `World.UpdateOne`, `Scene.UpdateNodes`, `Scene.UpdateNth`, `Scene.UpdateEach`, `Physics.InsertNth`, `Physics.InsertLive`, `Octree.InsertIntoAll`). The query loop's body is split the same way (`ResolvePair`, `ResolveAgainst`, `ResolveAndReport`), and `resolve_collision_discrete` looks up both bodies and hands them to `ResolveBodies`. Inside the resolver the lookup is the function `BodyOf`, which the loop `FindBody` is proved to compute. `Mesh.AppendVertices` gathers the three lists in locals and appends them to the fields once, which leaves the same final state as pushing element by element.

**Quirks of the source, kept and stated as lemmas**

- Octree child bounds pass the offset centre and the quarter size to the (min, max) box constructor, so every child box has the same `max` (`ChildBoundsShareMax`).
- `Octree::clear` keeps the `nodes` list (`ClearKeepsNodes`).
- `get_closest_point_to` compares a point with itself, so it always returns the first point.
- `apply_drag` compares `length()`, which is glm's component count 3, with 0.0001, so it always scales.
- The static-to-dynamic bounce divides by `1 / mass`. It multiplies the normal speed by `1 - 0.8 * mass` instead of damping it (`StaticBounceNormal`, `StaticBounceExample`).
- `did_collide` is true exactly when the MTV is zero, which is the projection of separated colliders (`SeparatedGivesZero`).
- `has_cyclic_inclusion` only walks the existing children of `this`, so attaching an ancestor is accepted and creates a cycle (`AttachAncestorMakesCycle`, `AddChild`).
- `MeshBuffer::update_data` concatenates every mesh's indices without rebasing them. Each draw of `draw_meshes` therefore reads its mesh's own indices, which still count from that mesh's first vertex, against the whole interleaved buffer (`GatheredIndices`).

## Model

| member | source | states |
|---|---|---|
| Geometry.IntersectsSymmetric | src/bbox.cpp:23-26 | `intersects` is symmetric |
| Geometry.ContainsInclusive | src/bbox.cpp:19-22 | a point on any min or max face of a well-formed box is contained: the bounds are inclusive |
| Geometry.CommonPointIntersects | src/bbox.cpp:19-26 | two boxes that contain a common point intersect |
| Geometry.IntersectsIffCommonPoint | src/bbox.cpp:19-26 | for well-formed boxes, intersecting is equivalent to sharing a contained point (both directions) |
| Geometry.MergeCommutative | src/bbox.cpp:5-9 | `merge` is commutative |
| Geometry.MergeContains | src/bbox.cpp:5-9 | the merge contains every point either input contains |
| Geometry.MergeSmallest | src/bbox.cpp:5-9 | the merge encloses both inputs, and every box enclosing both encloses the merge |
| Geometry.ExpandProperties | src/bbox.cpp:10-13 | after `expand(p)` the box contains `p` and every point it contained before; expanding by `p` again changes nothing |
| Geometry.ExpandWellFormed | src/bbox.cpp:10-13 | expanding keeps a box well formed and stays inside any box enclosing the old box and `p` |
| Geometry.CenterSizeRoundTrip | src/bbox.cpp:17-18 | centre minus half the size is `min` and centre plus half the size is `max` |
| Geometry.ApplyCompose | src/node.cpp:23-29 | applying the product of two transforms applies the inner one and then the outer one |
| Geometry.DivMulCancel | src/node.cpp:91-103 | dividing by a scale with no zero component and multiplying back is the identity |
| Geometry.ApplyInverse | src/node.cpp:56-68 | applying a transform after its inverse is the identity when its scale has no zero component |
| Colliders.MakeCollision | include/collider.hpp:20-21 | a collision names the two nodes and copies the projection's MTV, normal and point unchanged |
| Colliders.WorldPoints | src/collider.cpp:21-23 | one world point per local point |
| Colliders.AxisRun | src/collider.cpp:36-39 | the inner axis loop for `i` yields one axis per `j` with `i < j < n` |
| Colliders.BoxCornersShape | include/collider.hpp:59-75 | the box constructor's local points are 8, pairwise distinct for a size with no zero component, and, for a non-negative size, have bounds exactly minus half the size to plus half the size (centre not added) |
| Colliders.AxisRowsCount | src/collider.cpp:33-42 | the first `i` rows of the pair loop hold `i(2n-i-1)/2` axes |
| Colliders.PairAxesCount | src/collider.cpp:33-42 | `n` points give `n(n-1)/2` axes |
| Colliders.ExpandAllBounds | src/collider.cpp:48-51 | growing the box seeded with the first point by every point gives a well-formed box that contains every point, each of whose six bounds is attained by some point |
| Colliders.BoundsOfTight | src/collider.cpp:43-53 | the bounds of a non-empty point list are the tight box: well formed, containing every point, each bound attained |
| Colliders.DotExtent | src/collider.cpp:54-64 | the projection extrema bracket every point's dot product with the axis, and both are attained |
| Colliders.Collider.constructor | include/collider.hpp:59-75 | a new box collider has the eight corners of its size as local points, no world points or axes, the default bounds, and starts dirty |
| Colliders.Collider.GetWorldPoints | src/collider.cpp:11-32 | an expired owner gives an empty list and leaves the points; otherwise the points become the owner's world transform applied to each local point, in order |
| Colliders.Collider.GetWorldAxes | src/collider.cpp:33-42 | the axes are replaced by one normalized difference per pair `i < j` in lexicographic order |
| Colliders.Collider.GetWorldBounds | src/collider.cpp:43-53 | no points returns the default box and keeps `bounds`; otherwise `bounds` becomes the tight box of the points |
| Colliders.Collider.Project | src/collider.cpp:54-64 | no points leaves both out-parameters unchanged; otherwise they are the least and greatest dot product with the axis |
| Colliders.Collider.TransformCollider | src/collider.cpp:65-74 | an expired owner changes nothing; otherwise points, axes and bounds are recomputed from the owner's transform and the dirty flag is cleared |
| Colliders.Collider.Update | src/collider.cpp:75-86 | with a live owner, the last position is recorded and the collider recomputed exactly when it was dirty or the owner moved, otherwise its cache is unchanged; the flag ends clear; an expired owner changes nothing |
| Colliders.Collider.GetIndices | src/collider.cpp:126-133 | the pairs taken two at a time are the points in order |
| Colliders.Collider.GetClosestPointTo | src/collider.cpp:134-149 | the first point whenever there is one, whatever the query; the zero vector for no points |
| SceneGraph.PositionIsWorldTranslation | src/node.cpp:30-38 | `get_position` is the translation of the world transform |
| SceneGraph.ScaleIsWorldScale | src/node.cpp:47-54 | `get_scale` is the local diagonal times the parent's world scale, i.e. the world transform's scale |
| SceneGraph.TransformFrame | src/node.cpp:23-29 | changing a node's transform does not change the world transform of a node whose parent chain avoids it |
| SceneGraph.SetPositionRoundTrip | src/node.cpp:56-68 | `get_position` after `set_position(p)` is `p`, for a root or under an invertible acyclic parent |
| SceneGraph.SetScaleRoundTrip | src/node.cpp:91-103 | `get_scale` after `set_scale(s)` is `s` when the parent's world scale has no zero component |
| SceneGraph.TranslateAdds | src/node.cpp:70-72 | `translate(t)` moves the world position by exactly `t` |
| SceneGraph.FirstMatch | include/node.hpp:62-69 | the index of the first component of the type, or -1 exactly when none matches |
| SceneGraph.RemoveFirstShape | include/node.hpp:54-61 | removal is a no-op without a match; otherwise exactly the first match is removed and the components before it are kept in order |
| SceneGraph.AwakeStepsExact | src/node.cpp:104-111 | `awake` wakes exactly the components not yet awake, each once, and afterwards all are awake |
| SceneGraph.AwakeIdempotent | src/node.cpp:104-111 | a second `awake` wakes nothing |
| SceneGraph.AwakeNoop | src/node.cpp:104-111 | `awake` on components that are all awake emits nothing |
| SceneGraph.UpdateEvents | src/scene.cpp:16-18 | one update per component |
| SceneGraph.CollisionEvents | src/node.cpp:126-130 | one collision delivery per component |
| SceneGraph.ComponentLoopShape | src/node.cpp:113-121 | the node's component loop wakes the components once, during its first iteration, and then updates every component in order |
| SceneGraph.AttachAncestorMakesCycle | src/node.cpp:230-241 | attaching a node's parent below it, which the cycle test accepts, creates a cycle |
| SceneGraph.World.constructor | include/node.hpp:14-18 | an empty arena |
| SceneGraph.World.NewNode | include/node.hpp:20-23 | a fresh node with the identity transform, no parent, no children and no components |
| SceneGraph.World.SetPosition | src/node.cpp:56-68 | only the node's local translation changes, to the parent-relative position of `p` |
| SceneGraph.World.Translate | src/node.cpp:70-72 | `set_position(get_position() + t)` |
| SceneGraph.World.SetScale | src/node.cpp:91-103 | only the node's local scale changes, to `s` divided by the parent's world scale |
| SceneGraph.World.ScaleBy | src/node.cpp:69 | `set_scale(get_scale() * s)` |
| SceneGraph.World.AddComponent | include/node.hpp:47-53 | exactly one new component is appended at the end and owned by the node; its id is fresh, so it is not yet awake |
| SceneGraph.World.GetComponent | include/node.hpp:62-69 | the first component of the type, or none exactly when no component matches |
| SceneGraph.World.RemoveComponent | include/node.hpp:54-61 | the node's components lose their first match of the type, nothing else changes |
| SceneGraph.World.EraseAt | include/node.hpp:57 | erasing component `i` of a node keeps the world closed (every owned id still held by its owner) and changes only that node's list, to the list without entry `i` |
| SceneGraph.World.Awake | src/node.cpp:104-111 | wakes the components not yet awake, in order, and marks them |
| SceneGraph.World.UpdateComponents | src/node.cpp:113-121 | the trace and awake set follow the component loop's events |
| SceneGraph.World.UpdateStep | src/node.cpp:113-121 | pass `i` of the component loop takes the trace and awake set from the loop's after `i` passes to the loop's after `i + 1` |
| SceneGraph.World.UpdateOne | src/node.cpp:115-117 | one pass of the component loop: the whole node is woken, then component `i` is updated |
| SceneGraph.World.Update | src/node.cpp:112-125 | the node's component loop, then every child's update in order |
| SceneGraph.World.UpdateKids | src/node.cpp:122-124 | each child in order runs its whole recursive update: the trace gains exactly the children's events and the awake set becomes the one they leave |
| SceneGraph.World.OnCollision | src/node.cpp:126-130 | the collision is delivered to every component in list order |
| SceneGraph.World.HasCyclicInclusion | src/node.cpp:230-241 | a true answer comes with a cycle in the arena that avoids the new child; a childless node answers false |
| SceneGraph.World.CyclicHelper | src/node.cpp:242-264 | a node already on the stack answers true; a node visited and not on the stack answers false and changes nothing; the visited set only grows, a false answer restores the stack, and a true answer comes with a cycle through the stack |
| SceneGraph.World.AddChild | src/node.cpp:219-229 | a refusal changes nothing; otherwise the child is appended to the children and its parent set; a childless node always accepts |
| SceneGraph.CycleFromStack | src/node.cpp:245-247 | reaching a node already on the recursion stack exhibits a cycle |
| SceneGraph.UpdateTreeFuel | src/node.cpp:112-125 | once the fuel reaches a bound on the depth below the node, more fuel gives the same recursive update |
| SceneGraph.UpdateChildrenFuel | src/node.cpp:122-124 | the same for the loop over the children |
| SceneGraph.PathBounded | src/node.cpp:122-124 | a depth bound shrinks by one along each parent-to-child step of a path |
| SceneGraph.CycleUnbounded | src/node.cpp:122-124 | a node on a cycle has no depth bound, so its recursive update never ends in the source |
| Octrees.Exceeds | src/physics.cpp:210 | the size comparison converts the signed limit to the unsigned size type: for a non-negative limit it is `>`, and a negative limit never calls for a split |
| Octrees.InsertCell | src/physics.cpp:194-214 | insertion keeps the cell's level, bounds and the level structure of its subtree |
| Octrees.InsertEach | src/physics.cpp:204-207 | an internal cell forwards the node to every child |
| Octrees.SubdivideCell | src/physics.cpp:215-232 | subdivision keeps the level and bounds |
| Octrees.FillChildren | src/physics.cpp:217-230 | the children built so far sit one level down |
| Octrees.InsertAll | src/physics.cpp:226-230 | re-inserting a list keeps the level and bounds |
| Octrees.QueryInternal | src/physics.cpp:242-249 | an internal cell's query result is the union of its children's |
| Octrees.LeafHitsStep | src/physics.cpp:251-259 | a leaf adds each held node whose footprint meets the query box |
| Octrees.FillChildrenAt | src/physics.cpp:215-232 | child `i` is the empty child with every held node re-inserted |
| Octrees.SubdivideShape | src/physics.cpp:215-232 | subdivision gives exactly 8 children one level down, each holding the re-inserted nodes, and empties `nodes` |
| Octrees.ChildBoundsShareMax | src/physics.cpp:217-225 | every child box's max is a quarter of the parent's size, since the centre is passed as `min` |
| Octrees.ChildBoundsOfCentredBox | src/physics.cpp:217-225 | for the centred box of half-size `h`, child 7 is the single point `h/2` and child 0 spans `-h/2..h/2` |
| Octrees.InsertHeld | src/physics.cpp:194-214 | insertion adds at most the inserted node |
| Octrees.SubdivideHeld | src/physics.cpp:215-232 | subdivision adds no node |
| Octrees.ClearHeld | src/physics.cpp:188-193 | clearing adds no node and keeps the levels consistent |
| Octrees.InsertAllHeld | src/physics.cpp:226-230 | re-insertion only holds nodes already held or inserted |
| Octrees.QuerySound | src/physics.cpp:233-264 | every node a query returns is held in the tree and has a footprint meeting the query box; level 0 returns nothing |
| Octrees.ClearKeepsNodes | src/physics.cpp:188-193 | a leaf root is unchanged by `clear`, so a node inserted after it joins the earlier entries |
| Octrees.Octree.constructor | src/physics.cpp:185-186 | an empty leaf at the given level and bounds |
| Octrees.Octree.Clear | src/physics.cpp:188-193 | the children are dropped; `nodes` is kept |
| Octrees.Octree.Insert | src/physics.cpp:194-214 | the tree becomes the value-level insertion of the node |
| Octrees.Octree.InsertIntoChildren | src/physics.cpp:204-207 | each child receives the node |
| Octrees.Octree.InsertChild | src/physics.cpp:206 | only child `i` changes, by insertion |
| Octrees.Octree.Subdivide | src/physics.cpp:215-232 | the tree becomes the value-level subdivision |
| Octrees.Octree.MakeChildren | src/physics.cpp:216-225 | eight empty children with the bounds the loop computes |
| Octrees.Octree.InsertIntoAll | src/physics.cpp:226-230 | held node `a` is inserted into all eight children |
| Octrees.Octree.PushChild | src/physics.cpp:223-224 | one more empty child one level down is appended, its footprint joins the tree, and the tree stays valid |
| Octrees.Octree.DropNodes | src/physics.cpp:231 | the node list empties and nothing else in the tree changes |
| Octrees.Octree.Query | src/physics.cpp:233-264 | the result is the value-level query: empty at level 0 or when the cell misses the box, the union of the children's results otherwise, else the held nodes whose footprints meet the box (a set, so no duplicates) |
| Octrees.Octree.QueryChildren | src/physics.cpp:242-249 | the union of every child's query result |
| Physics.NodeBoundsCentred | src/physics.cpp:195-199 | a node's footprint is centred on its world position with its world scale as size |
| Physics.BoxInertiaProperties | include/physics.hpp:20-23 | the inertia is non-negative for non-negative mass, and for a uniform scale `a` it is `mass*a*a/4` |
| Physics.DragProperties | src/physics.cpp:266-276 | a drag factor in [0, 1] never increases any velocity component; a non-zero factor never stops a moving body |
| Physics.GravitySteps | src/physics.cpp:277-284 | without gravity the velocity is unchanged; `k` steps lower only `y`, by `k * 9.81 * dt` |
| Physics.ScanSeparatedIff | src/physics.cpp:78-93 | the scan stops separated exactly when some axis scanned has a negative overlap |
| Physics.ScanStaysSeparated | src/physics.cpp:85-87 | once separated, the scan stays separated to the end |
| Physics.ScanBest | src/physics.cpp:78-93 | without separation the kept axis is the first of least overlap, and that overlap is non-negative and at most every other |
| Physics.SatPointsAway | src/physics.cpp:95-103 | the MTV never points against the direction from a's centre to b's |
| Physics.SeparatedGivesZero | src/physics.cpp:83-87 | one axis with negative overlap gives the zero projection, and `did_collide` is then true |
| Physics.SharedPointNeverSeparated | src/physics.cpp:78-93 | colliders sharing a point overlap on every axis and are never separated |
| Physics.StaticBounceNormal | src/physics.cpp:166-174 | the bounce multiplies the velocity's normal component by `1 - 0.8 * mass` |
| Physics.StaticBounceExample | src/physics.cpp:166-174 | falling at speed 1 onto a floor with mass 5 gives upward speed 3 |
| Physics.DynamicMomentum | src/physics.cpp:158-163 | the dynamic impulse conserves total linear momentum |
| Physics.DynamicStopsApproach | src/physics.cpp:158-163 | with a unit normal, the bodies' relative normal velocity becomes 0 |
| Physics.Rigidbody.constructor | include/physics.hpp:10-18 | the given mass and drag, at rest, using gravity |
| Physics.Rigidbody.ComputeInertia | include/physics.hpp:20-23 | stores and returns a twelfth of the mass times the squared world-scale components |
| Physics.Rigidbody.ApplyDrag | src/physics.cpp:266-276 | velocity and angular velocity are always multiplied by the drag factor |
| Physics.Rigidbody.Integrate | src/physics.cpp:277-284 | a live owner moves by the pre-gravity velocity times `dt`, then gravity lowers `y` iff enabled; an expired owner changes nothing |
| Physics.Motions | src/physics.cpp:20-23 | one (owner, dragged velocity) per body in list order |
| Physics.Moved | src/physics.cpp:20-23 | moving bodies keeps the set of nodes |
| Physics.LiveOwners | src/physics.cpp:28-32 | the tree is rebuilt from exactly the live owners of colliders |
| Physics.Physics.constructor | include/physics.hpp:47-54 | the root is an empty cell at the maximum level spanning -1000..1000 on each axis; no colliders or bodies |
| Physics.Physics.AddCollider | src/physics.cpp:176-181 | exactly one collider component is added to the node, and that same collider is appended to `colliders` |
| Physics.Physics.PushCollider | src/physics.cpp:179 | the collider list becomes the old list plus the new collider, and the engine stays valid |
| Physics.Physics.AddRigidbody | src/physics.cpp:285-291 | exactly one rigid-body component is added to the node, and that same body is appended to `rigidbodies` |
| Physics.Physics.PushBody | src/physics.cpp:289 | the body list becomes the old list plus the new body, and the engine stays valid |
| Physics.Physics.Update | src/physics.cpp:19-67 | the step keeps every node alive and only appends collision deliveries to the trace |
| Physics.Physics.IntegrateAll | src/physics.cpp:20-23 | every body is dragged and integrated in list order: each body's velocity becomes its integrated value, and the nodes become the old nodes with every body's owner moved in turn by its dragged velocity; the node ids are kept |
| Physics.Physics.StepBody | src/physics.cpp:21-22 | one body's drag and integration: its velocity becomes the integrated one, its owner alone moves by the dragged velocity times `dt`, and no other body changes |
| Physics.Physics.Rebuild | src/physics.cpp:27-32 | the tree becomes the cleared tree with every live collider owner inserted in order |
| Physics.Physics.InsertNth | src/physics.cpp:29-31 | pass `i` of the second phase: the tree becomes the cleared tree with the live owners of the first `i + 1` colliders inserted in order |
| Physics.Physics.InsertLive | src/physics.cpp:29-31 | a live owner is inserted: the tree becomes the value-level insertion of that node |
| Physics.Physics.DetectAndResolve | src/physics.cpp:35-66 | detection keeps every node alive and only appends collision deliveries |
| Physics.Physics.DetectFor | src/physics.cpp:35-65 | one collider's query and resolutions keep every node alive and only append collision deliveries |
| Physics.Physics.Report | src/physics.cpp:61-62 | `first`'s components receive the collision, then `second`'s (the caller passes the other node first, as the source does), in component order; nothing else is appended |
| Physics.Physics.ResolveHits | src/physics.cpp:45-65 | the same, for one collider's query result |
| Physics.Physics.ResolvePair | src/physics.cpp:46-64 | a node without a collider listed in the physics system changes nothing (unlisted collider components count as none), and neither does a zero translation vector; otherwise the trace gains the collision, as resolution hands it back, delivered to `other`'s components and then to the collider's own node's |
| Physics.Physics.ResolveAgainst | src/physics.cpp:51-63 | the same, once `other`'s collider is known |
| Physics.Physics.ResolveAndReport | src/physics.cpp:58-62 | the collision is resolved and then delivered to `b`'s components and `a`'s; the delivered collision has its translation vector turned exactly when `a` is dynamic and `b` static |
| Physics.Physics.FindCollider | include/node.hpp:62-69 | the first registered collider that is the node's first collider component, or none exactly when there is none; an unlisted collider component counts as none |
| Physics.Physics.FindBody | src/physics.cpp:121-122 | the same for rigid bodies: the result is `BodyOf`, the lookup the resolution reads; an unlisted rigid-body component counts as none |
| Physics.Physics.SatProject | src/physics.cpp:69-112 | the projection is the separating-axis result over a's axes then b's, with the centres the owners' positions plus the collider centres |
| Physics.Physics.ScanAll | src/physics.cpp:78-93 | the loop computes the scan over every axis |
| Physics.Physics.ResolveCollisionDiscrete | src/physics.cpp:115-145 | a side without a body listed in the physics system, or with zero mass, is static (an unlisted rigid-body component counts as none); two static sides change nothing; with `a` static, `b` is pushed by half the MTV and bounces; with `b` static the MTV is negated, `a` is pushed and bounces, and the negated collision is handed back; otherwise both move and get the dynamic impulse; no other body's velocity changes and nothing is emitted |
| Physics.Physics.ResolveBodies | src/physics.cpp:124-144 | the same four cases, for bodies already looked up |
| Physics.Physics.ResolveStaticToDynamic | src/physics.cpp:166-174 | the node moves by half the MTV and the body's velocity becomes the bounce |
| Physics.Physics.ResolveDynamic | src/physics.cpp:146-164 | a moves by minus half the MTV, then b by plus half; distinct bodies get the impulse velocities; one body against itself keeps its velocity |
| Scenes.SceneStepsAwake | src/scene.cpp:10-19 | after an update every listed component is awake, and a component is woken during it exactly when it is listed and was not awake |
| Scenes.SceneStepsSettled | src/scene.cpp:10-19 | once every listed component is awake, an update only updates each component in order |
| Scenes.SecondUpdateSettled | src/scene.cpp:4-20 | an update straight after another wakes nothing |
| Scenes.Scene.constructor | include/scene.hpp:14-17 | no nodes and an empty queue |
| Scenes.Scene.AddNode | src/scene.cpp:22-30 | a new root node at `pos` with scale `scale`, staged in the queue only |
| Scenes.Scene.Update | src/scene.cpp:4-20 | the nodes become the old nodes followed by the old queue, the queue empties, and each listed node is woken and its components updated, without descending into children |
| Scenes.Scene.UpdateNodes | src/scene.cpp:10-19 | walking `order` appends exactly the awake and update events the scene update defines for it, and leaves its awake set |
| Scenes.Scene.UpdateNth | src/scene.cpp:13-18 | one pass of the walk: the trace and awake set become the scene update's for `order[..i + 1]` |
| Scenes.Scene.UpdateEach | src/scene.cpp:16-18 | every component of the node is updated in list order: the trace gains exactly one update event per component |
| Scenes.Scene.UpdateNode | src/scene.cpp:13-18 | wake the node's components, then update each in order |
| Meshes.Halved | src/mesh.cpp:49-51 | three floats per vertex |
| Meshes.Flat2 | src/mesh.cpp:52-56 | two floats per texture coordinate |
| Meshes.Flat3 | src/mesh.cpp:57-62 | three floats per normal |
| Meshes.HalvedLayout | src/mesh.cpp:49-51 | floats `3i..3i+2` are vertex `i`'s coordinates halved |
| Meshes.Flat2Layout | src/mesh.cpp:53-55 | floats `2i, 2i+1` are coordinate `i`'s x and y |
| Meshes.Flat3Layout | src/mesh.cpp:58-61 | floats `3i..3i+2` are normal `i` |
| Meshes.VertexStep | src/mesh.cpp:47-63 | one vertex iteration appends the halved position, its texture coordinate if present and its normal if present |
| Meshes.Shifted | src/mesh.cpp:66-68 | each face index plus the offset |
| Meshes.OwnMeshes | src/mesh.cpp:74-77 | the scene meshes a node names, in order |
| Meshes.NodeMeshesFromScene | src/mesh.cpp:71-82 | the pre-order walk only visits meshes of the scene |
| Meshes.ChildMeshesFromScene | src/mesh.cpp:78-81 | the same for a list of children |
| Meshes.AppendMeshesSplit | src/mesh.cpp:71-82 | processing two mesh lists in turn is processing their concatenation |
| Meshes.FaceIndicesBelow | src/mesh.cpp:64-69 | face indices below a bound stay below the bound plus the offset |
| Meshes.AppendMeshInRange | src/mesh.cpp:41-70 | processing a mesh whose faces index its own vertices keeps every index within the vertices, and the vertex count grows by the mesh's |
| Meshes.AppendMeshesInRange | src/mesh.cpp:71-82 | the same for a list of meshes |
| Meshes.Mesh.constructor | include/mesh.hpp:20-22 | the path and empty lists |
| Meshes.Mesh.ProcessMesh | src/mesh.cpp:41-70 | the lists grow by the mesh's halved vertices, present texture coordinates and normals, and its face indices offset by the earlier vertex count |
| Meshes.Mesh.AppendVertices | src/mesh.cpp:47-63 | the vertex loop |
| Meshes.Mesh.AppendFace | src/mesh.cpp:66-68 | one face's indices, offset |
| Meshes.Mesh.ProcessNode | src/mesh.cpp:71-82 | the lists grow by the node's meshes in pre-order |
| Meshes.Mesh.ProcessOwn | src/mesh.cpp:74-77 | the node's own meshes in order |
| Meshes.Mesh.ProcessChildren | src/mesh.cpp:78-81 | each child's meshes in order |
| Meshes.MeshCache.constructor | src/mesh.cpp:25 | the cache starts empty |
| Meshes.LoadInto | src/mesh.cpp:27-40 | the load succeeds exactly when the import is complete and has a root; on failure nothing changes; on success the mesh holds the root's meshes in pre-order and is cached under the path |
| Meshes.LoadedInRange | src/mesh.cpp:27-40 | a loaded mesh's indices all name its vertices when each imported face indexes its own mesh |
| Rendering.Interleave | src/renderer.cpp:40-51 | eight floats per record |
| Rendering.InterleaveLayout | src/renderer.cpp:40-51 | record `i` is position `i`, then texture coordinate `i`, then normal `i` |
| Rendering.InterleaveRecord | src/renderer.cpp:40-51 | the eight floats at `8i` of the interleaved data are exactly record `i` |
| Rendering.MeshRenderer.constructor | include/mesh.hpp:33 | the renderer holds the given mesh |
| Rendering.MeshRenderer.Awake | src/mesh.cpp:99-111 | a renderer already registered changes nothing; otherwise it is appended once and the buffer rebuilt; no renderer is registered twice |
| Rendering.NewMeshRenderer | src/mesh.cpp:14-23 | a cached path reuses the cached mesh and leaves the cache; otherwise a renderer exists exactly when the load succeeds, and then its new mesh holds the loaded data and is cached |
| Rendering.GatheredIndices | src/renderer.cpp:29-37 | mesh `k`'s indices follow the earlier meshes' in the gathered list, unchanged and not rebased |
| Rendering.MeshBuffer.constructor | include/renderer.hpp:65-71 | no meshes and empty buffers |
| Rendering.MeshBuffer.UpdateData | src/renderer.cpp:22-88 | the uploaded records interleave the gathered lists, the uploaded indices are the gathered indices, and the scratch lists end empty |
| Rendering.GatherAll | src/renderer.cpp:29-37 | the lists of every mesh concatenated in order |
| Rendering.InterleaveAll | src/renderer.cpp:40-51 | one record per whole position |
| Rendering.CreateLine | include/renderer.hpp:83-95 | the two endpoints' floats, indices `[0, 1]` and the given colour |
| Rendering.LineShape | include/renderer.hpp:83-95 | a line is six floats, start then end, and its indices name its two vertices |
| Rendering.SphereRow | include/renderer.hpp:102-111 | three floats per ring point |
| Rendering.QuadRow | include/renderer.hpp:114-121 | six indices per quad |
| Rendering.SphereRowsLength | include/renderer.hpp:100-112 | `k` segments give `3k(rings+1)` floats |
| Rendering.QuadRowsLength | include/renderer.hpp:113-122 | `k` segments give `6k*rings` indices |
| Rendering.QuadRowBelow | include/renderer.hpp:113-122 | a segment's quad indices are below `(segments+1)(rings+1)` |
| Rendering.QuadRowsBelow | include/renderer.hpp:113-122 | every quad index is below the grid size |
| Rendering.SphereShape | include/renderer.hpp:96-124 | a sphere has `3(segments+1)(rings+1)` vertex floats and `6*segments*rings` indices (no loop iterations for negative counts), each naming one of its vertices |
| Rendering.CreateSphere | include/renderer.hpp:96-124 | the grid points segment by segment, the quads segment by segment, the default colour |
| Rendering.PushRing | include/renderer.hpp:102-111 | one segment's ring points |
| Rendering.PushQuads | include/renderer.hpp:114-121 | one segment's quads |
| Rendering.GizmoIndicesAt | include/renderer.hpp:162-168 | gizmo `k`'s indices follow the earlier gizmos' in the concatenation, unchanged |
| Rendering.GizmoBuffer.constructor | include/renderer.hpp:141-150 | empty queue and lists |
| Rendering.GizmoBuffer.UpdateData | include/renderer.hpp:157-168 | one model matrix per gizmo, its node's world transform, and the gizmos' vertices and indices concatenated in order |
| Rendering.Renderer.constructor | src/renderer.cpp:109-110 | the renderer's two buffers |
| Rendering.Renderer.DrawMeshes | src/renderer.cpp:288-303 | one call per renderer with its mesh's index count, starting at four bytes times the earlier meshes' index counts |
| Rendering.Renderer.AddGizmo | src/renderer.cpp:341-343 | one gizmo is appended to the queue |
| Rendering.Renderer.DrawGizmos | src/renderer.cpp:305-338 | one call per queued gizmo with its colour, its node's world transform and an offset of four bytes times the earlier index counts; the queue ends empty |

## Left out

- Rotation, quaternions and `set_rotation`, including the rotation argument of `add_node` and `instantiate`. Transforms are translation plus diagonal scale only.
- `glm::normalize`, `sqrt` and the sphere trigonometry are function parameters with no assumed properties. The collision normal is therefore not known to be a unit vector.
- IEEE rounding, NaN checks and their logging, and `FLT_MAX` sentinels. Coordinates are reals, and division by zero yields 0.
- Reads of uninitialised, out-of-range or expired data are excluded by preconditions. These are `get_indices` with an odd point count, `update_data` with too few texture coordinates or normals, a gizmo whose node has expired at draw time, and `Rigidbody::compute_inertia` on a body whose node has expired (`ComputeInertia` requires a live owner).
- Physics.SatOf: when either collider has no points (`project` leaves its bounds uninitialised) or the two have no axes at all (`smallest` is never set), the source computes from uninitialised floats. The model returns the empty projection in both cases instead.
- Default arguments (rigid-body mass 1 and drag 0.98, `BoxCollider` centre 0 and size 1, 32 sphere segments and rings) are not modelled separately: callers pass every argument.
- The `draw_collider` gizmo branch of `Collider::update` and the collider's empty `on_collision`.
- `Scene::remove_node`, which `add_child` calls first, is not part of this model. `Node::instantiate` is not modelled: it differs from `add_node` only through the engine singleton.
- YAML serialization, OpenGL, GLFW, ImGui, shaders, uniforms, the camera, input and the `Engine` singleton. GPU uploads are the lists uploaded, and draw calls are returned as values.
- Assimp's `ReadFile`: the imported scene is a parameter, and a failed read is `None`. The exception `load_into` throws is the `false`/`None` result.
- `Gizmo::create_cube` reads a mesh file from disk.
- Parent chains are followed with a fuel bound of the arena size. A chain longer than that, which only a cycle can produce, is cut off.
- The order of `query` results: the source copies an unordered set, and the model returns a set.
- `Node::deserialize`, which adds rigid bodies and colliders to a node and pushes them onto the engine's physics lists, is left out together with the rest of the YAML code. In the model, bodies and colliders reach those lists only through `add_rigidbody` and `add_collider`.
- Physics.Physics.ResolveCollisionDiscrete, Physics.Physics.FindBody, Physics.Physics.FindCollider and Physics.Physics.ResolvePair: `get_component<Rigidbody>()` and `get_component<Collider>()` return the component object itself. The model instead looks the node's first component of that kind up, by id, in the physics lists (`BodyOf`, `ColliderOf`). A rigid-body or collider component that was not created through `AddRigidbody` or `AddCollider`, for example one added with `SceneGraph.World.AddComponent`, is therefore treated as absent. Its node counts as static in resolution, even with a non-zero mass, and as having no collider in the narrow phase. Nothing in the model requires every such component to be listed.
- Colliders.Collider.constructor and Physics.Rigidbody.constructor: `last_position` and `inertia` are left uninitialised in the source. The model starts them at zero. No outcome depends on those values. The first `Collider::update` compares against the uninitialised `last_position`, but `is_dirty` starts true, so the transform is recomputed whatever the comparison gives. `inertia` is only ever assigned.
- SceneGraph.World.HasCyclicInclusion: proves only that a positive answer exhibits a real cycle. The cycle test is incomplete, and `AttachAncestorMakesCycle` shows a cycle it accepts.
- Physics.Physics.Update: states that nodes stay alive and that the trace only gains collision deliveries. The full position and velocity outcome is stated per phase by `IntegrateAll`, `Rebuild` and the resolvers, not composed into one postcondition.
- Physics.Physics.DetectAndResolve: the same weaker statement as `Update`, for the detection loop.
- Physics.Physics.DetectFor: the same weaker statement, for one collider's pass of that loop.
- Physics.Physics.ResolveHits: the query result is walked in an unspecified order, so only that nodes stay alive and that the trace only gains collision deliveries is stated. Each pair's outcome is stated by `ResolvePair`.
- Physics.Physics.ResolvePair: the trace is stated exactly, but positions and velocities after a non-zero translation vector are stated by `ResolveCollisionDiscrete`, not repeated here.
- SceneGraph.World.Update: the recursion carries a fuel bound. `UpdateTreeFuel` shows that any fuel at least a depth bound of the subtree gives the same result, and `CycleUnbounded` shows that a node on a cycle has no depth bound, which is where the source never returns. That an acyclic arena has a depth bound at most its size is not proved.
- SceneGraph.World.UpdateComponents and Scenes.Scene.Update: the component walks record an `Awoken` or `Updated` event for every component and do not run `Colliders.Collider.Update` or `Rendering.MeshRenderer.Awake`. So a collider's cached world points, axes and bounds, and a renderer's registration in the mesh buffer, change only when the caller invokes those members explicitly. `Physics.Physics.Update` reads whatever collider cache the caller left, not one the scene update refreshed.
- Meshes.Mesh.ProcessMesh: indices are unbounded naturals, so the 32-bit `unsigned int` wrap-around of offset indices past 2^32 is not modelled.
