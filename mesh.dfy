/** Mesh loading: flattening an imported scene into one mesh's vertex,
    texture-coordinate, normal and index lists, and the path-keyed cache of
    loaded meshes.

    The importer's output is modelled as plain records: a scene holds a list
    of meshes and a tree of nodes, each node naming some of the scene's
    meshes by index. */
module Meshes {
  import opened Base
  import opened Geometry

  /** An imported mesh: its vertices, its first texture-coordinate channel
      and its normals when present (one entry per vertex), and its faces as
      lists of vertex indices. */
  datatype AiMesh = AiMesh(vertices: seq<Vec3>, texcoords: Option<seq<Vec3>>, normals: Option<seq<Vec3>>, faces: seq<seq<nat>>)

  /** An imported node: indices into the scene's meshes, and its children. */
  datatype AiNode = AiNode(meshes: seq<nat>, children: seq<AiNode>)

  /** The importer's guarantee: present channels cover every vertex. */
  predicate MeshShaped(m: AiMesh) {
    (m.texcoords.Some? ==> |m.texcoords.value| >= |m.vertices|) &&
    (m.normals.Some? ==> |m.normals.value| >= |m.vertices|)
  }

  /** A mesh as the importer delivers it. */
  type ImportedMesh = m: AiMesh | MeshShaped(m) witness AiMesh([], None, None, [])

  /** An imported scene; `incomplete` is the importer's incomplete flag. */
  datatype AiScene = AiScene(meshes: seq<ImportedMesh>, root: Option<AiNode>, incomplete: bool)

  /** Every mesh index of `node` and its descendants names a mesh of `ms`. */
  predicate NodeShaped(ms: seq<ImportedMesh>, node: AiNode)
    decreases node
  {
    (forall i :: 0 <= i < |node.meshes| ==> node.meshes[i] < |ms|) &&
    (forall i :: 0 <= i < |node.children| ==> NodeShaped(ms, node.children[i]))
  }

  predicate SceneShaped(s: AiScene) {
    s.root.Some? ==> NodeShaped(s.meshes, s.root.value)
  }

  /** The four lists a mesh is flattened into. */
  datatype Buffers = Buffers(vertices: seq<real>, texcoords: seq<real>, normals: seq<real>, indices: seq<nat>)

  function NoBuffers(): Buffers { Buffers([], [], [], []) }

  /** Three floats per vertex, each coordinate halved. */
  function Halved(vs: seq<Vec3>): (r: seq<real>)
    ensures |r| == 3 * |vs|
  {
    if vs == [] then []
    else
      var v := vs[|vs| - 1];
      Halved(vs[..|vs| - 1]) + [v.x / 2.0, v.y / 2.0, v.z / 2.0]
  }

  /** Two floats per texture coordinate: its first two components. */
  function Flat2(ts: seq<Vec3>): (r: seq<real>)
    ensures |r| == 2 * |ts|
  {
    if ts == [] then []
    else Flat2(ts[..|ts| - 1]) + [ts[|ts| - 1].x, ts[|ts| - 1].y]
  }

  /** Three floats per normal. */
  function Flat3(ns: seq<Vec3>): (r: seq<real>)
    ensures |r| == 3 * |ns|
  {
    if ns == [] then []
    else
      var n := ns[|ns| - 1];
      Flat3(ns[..|ns| - 1]) + [n.x, n.y, n.z]
  }

  /** Vertex `i` occupies floats `3i`, `3i + 1` and `3i + 2`, halved. */
  lemma {:induction false} HalvedLayout(vs: seq<Vec3>, i: nat)
    requires i < |vs|
    ensures Halved(vs)[3 * i] == vs[i].x / 2.0 && Halved(vs)[3 * i + 1] == vs[i].y / 2.0 && Halved(vs)[3 * i + 2] == vs[i].z / 2.0
  {
    if i < |vs| - 1 {
      HalvedLayout(vs[..|vs| - 1], i);
    }
  }

  /** Texture coordinate `i` occupies floats `2i` and `2i + 1`. */
  lemma {:induction false} Flat2Layout(ts: seq<Vec3>, i: nat)
    requires i < |ts|
    ensures Flat2(ts)[2 * i] == ts[i].x && Flat2(ts)[2 * i + 1] == ts[i].y
  {
    if i < |ts| - 1 {
      Flat2Layout(ts[..|ts| - 1], i);
    }
  }

  /** Normal `i` occupies floats `3i`, `3i + 1` and `3i + 2`. */
  lemma {:induction false} Flat3Layout(ns: seq<Vec3>, i: nat)
    requires i < |ns|
    ensures Flat3(ns)[3 * i] == ns[i].x && Flat3(ns)[3 * i + 1] == ns[i].y && Flat3(ns)[3 * i + 2] == ns[i].z
  {
    if i < |ns| - 1 {
      Flat3Layout(ns[..|ns| - 1], i);
    }
  }

  /** The texture coordinates of the first `i` vertices, if any. */
  function TexPart(m: ImportedMesh, i: nat): seq<real>
    requires i <= |m.vertices|
  {
    if m.texcoords.Some? then Flat2(m.texcoords.value[..i]) else []
  }

  /** The normals of the first `i` vertices, if any. */
  function NormalPart(m: ImportedMesh, i: nat): seq<real>
    requires i <= |m.vertices|
  {
    if m.normals.Some? then Flat3(m.normals.value[..i]) else []
  }

  /** One more vertex adds its three halved coordinates and, when present,
      its texture coordinate and normal. */
  lemma VertexStep(m: ImportedMesh, i: nat)
    requires i < |m.vertices|
    ensures var v := m.vertices[i];
      Halved(m.vertices[..i + 1]) == Halved(m.vertices[..i]) + [v.x / 2.0, v.y / 2.0, v.z / 2.0]
    ensures TexPart(m, i + 1) ==
      TexPart(m, i) + (if m.texcoords.Some? then [m.texcoords.value[i].x, m.texcoords.value[i].y] else [])
    ensures NormalPart(m, i + 1) ==
      NormalPart(m, i) + (if m.normals.Some? then [m.normals.value[i].x, m.normals.value[i].y, m.normals.value[i].z] else [])
  {
    assert m.vertices[..i + 1][..i] == m.vertices[..i];
    if m.texcoords.Some? {
      assert m.texcoords.value[..i + 1][..i] == m.texcoords.value[..i];
    }
    if m.normals.Some? {
      assert m.normals.value[..i + 1][..i] == m.normals.value[..i];
    }
  }

  /** Every index of `f` moved up by `offset`. */
  function Shifted(f: seq<nat>, offset: nat): (r: seq<nat>)
    ensures |r| == |f|
    ensures forall j :: 0 <= j < |f| ==> r[j] == f[j] + offset
  {
    if f == [] then [] else Shifted(f[..|f| - 1], offset) + [f[|f| - 1] + offset]
  }

  /** The indices of every face in order, each moved up by `offset`. */
  function FaceIndices(faces: seq<seq<nat>>, offset: nat): seq<nat> {
    if faces == [] then []
    else FaceIndices(faces[..|faces| - 1], offset) + Shifted(faces[|faces| - 1], offset)
  }

  /** The lists after `process_mesh` appends `m` to `b`: the halved
      vertices, the texture coordinates and normals when the mesh has them,
      and the face indices offset by the vertices already in `b`. */
  function AppendMesh(b: Buffers, m: ImportedMesh): Buffers {
    var n := |m.vertices|;
    Buffers(b.vertices + Halved(m.vertices),
            b.texcoords + (if m.texcoords.Some? then Flat2(m.texcoords.value[..n]) else []),
            b.normals + (if m.normals.Some? then Flat3(m.normals.value[..n]) else []),
            b.indices + FaceIndices(m.faces, |b.vertices| / 3))
  }

  /** `AppendMesh` over a list of meshes, in order. */
  function AppendMeshes(b: Buffers, ms: seq<ImportedMesh>): Buffers {
    if ms == [] then b
    else AppendMesh(AppendMeshes(b, ms[..|ms| - 1]), ms[|ms| - 1])
  }

  /** The meshes `process_node` visits from `node`, in pre-order: the
      node's own meshes in order, then each child's subtree in order. */
  function NodeMeshes(ms: seq<ImportedMesh>, node: AiNode): seq<ImportedMesh>
    requires NodeShaped(ms, node)
    decreases node, 1
  {
    OwnMeshes(ms, node.meshes) + ChildMeshes(ms, node.children)
  }

  function OwnMeshes(ms: seq<ImportedMesh>, idx: seq<nat>): (r: seq<ImportedMesh>)
    requires forall i :: 0 <= i < |idx| ==> idx[i] < |ms|
    ensures |r| == |idx| && forall i :: 0 <= i < |idx| ==> r[i] == ms[idx[i]]
  {
    if idx == [] then [] else OwnMeshes(ms, idx[..|idx| - 1]) + [ms[idx[|idx| - 1]]]
  }

  /** One more mesh index appends that one mesh. */
  lemma OwnStep(b: Buffers, ms: seq<ImportedMesh>, idx: seq<nat>, i: nat)
    requires forall k :: 0 <= k < |idx| ==> idx[k] < |ms|
    requires i < |idx|
    ensures AppendMeshes(b, OwnMeshes(ms, idx[..i + 1])) == AppendMesh(AppendMeshes(b, OwnMeshes(ms, idx[..i])), ms[idx[i]])
  {
    assert idx[..i + 1][..i] == idx[..i];
    var xs := OwnMeshes(ms, idx[..i + 1]);
    assert xs[..|xs| - 1] == OwnMeshes(ms, idx[..i]);
  }

  function ChildMeshes(ms: seq<ImportedMesh>, kids: seq<AiNode>): seq<ImportedMesh>
    requires forall i :: 0 <= i < |kids| ==> NodeShaped(ms, kids[i])
    decreases kids, 0
  {
    if kids == [] then []
    else ChildMeshes(ms, kids[..|kids| - 1]) + NodeMeshes(ms, kids[|kids| - 1])
  }

  /** Every mesh `process_node` visits is one of the scene's meshes. */
  lemma {:induction false} NodeMeshesFromScene(ms: seq<ImportedMesh>, node: AiNode)
    requires NodeShaped(ms, node)
    ensures forall i :: 0 <= i < |NodeMeshes(ms, node)| ==> NodeMeshes(ms, node)[i] in ms
    decreases node, 1
  {
    ChildMeshesFromScene(ms, node.children);
  }

  lemma {:induction false} ChildMeshesFromScene(ms: seq<ImportedMesh>, kids: seq<AiNode>)
    requires forall i :: 0 <= i < |kids| ==> NodeShaped(ms, kids[i])
    ensures forall i :: 0 <= i < |ChildMeshes(ms, kids)| ==> ChildMeshes(ms, kids)[i] in ms
    decreases kids, 0
  {
    if kids != [] {
      ChildMeshesFromScene(ms, kids[..|kids| - 1]);
      NodeMeshesFromScene(ms, kids[|kids| - 1]);
    }
  }

  /** Appending a list in two parts is appending it at once. */
  lemma {:induction false} AppendMeshesSplit(b: Buffers, xs: seq<ImportedMesh>, ys: seq<ImportedMesh>)
    ensures AppendMeshes(b, xs + ys) == AppendMeshes(AppendMeshes(b, xs), ys)
    decreases |ys|
  {
    if ys == [] {
      assert xs + ys == xs;
    } else {
      var init := ys[..|ys| - 1];
      AppendMeshesSplit(b, xs, init);
      assert (xs + ys)[..|xs + ys| - 1] == xs + init;
      assert (xs + ys)[|xs + ys| - 1] == ys[|ys| - 1];
    }
  }

  /** The index list stays within the vertex list: every index names one
      of the `|vertices| / 3` vertices. */
  predicate InRange(b: Buffers) {
    |b.vertices| % 3 == 0 && forall k :: 0 <= k < |b.indices| ==> b.indices[k] < |b.vertices| / 3
  }

  /** Every face of `m` names one of its own vertices. */
  predicate FacesInRange(m: AiMesh) {
    forall f, j :: f in m.faces && 0 <= j < |f| ==> f[j] < |m.vertices|
  }

  lemma {:induction false} FaceIndicesBelow(faces: seq<seq<nat>>, offset: nat, bound: nat)
    requires forall f, j :: f in faces && 0 <= j < |f| ==> f[j] < bound
    ensures forall k :: 0 <= k < |FaceIndices(faces, offset)| ==> FaceIndices(faces, offset)[k] < bound + offset
  {
    if faces != [] {
      var init := faces[..|faces| - 1];
      assert forall f :: f in init ==> f in faces;
      FaceIndicesBelow(init, offset, bound);
    }
  }

  /** `process_mesh` keeps the index list within the vertex list when the
      mesh's faces name its own vertices: the offset is exactly the number
      of vertices already present. */
  lemma AppendMeshInRange(b: Buffers, m: ImportedMesh)
    requires InRange(b) && FacesInRange(m)
    ensures InRange(AppendMesh(b, m))
    ensures |AppendMesh(b, m).vertices| / 3 == |b.vertices| / 3 + |m.vertices|
  {
    var a := AppendMesh(b, m);
    FaceIndicesBelow(m.faces, |b.vertices| / 3, |m.vertices|);
    assert |a.vertices| == |b.vertices| + 3 * |m.vertices|;
    assert |a.vertices| / 3 == |b.vertices| / 3 + |m.vertices|;
    forall k | 0 <= k < |a.indices| ensures a.indices[k] < |a.vertices| / 3 {
      if k >= |b.indices| {
        assert a.indices[k] == FaceIndices(m.faces, |b.vertices| / 3)[k - |b.indices|];
      }
    }
  }

  lemma {:induction false} AppendMeshesInRange(b: Buffers, ms: seq<ImportedMesh>)
    requires forall i :: 0 <= i < |ms| ==> FacesInRange(ms[i])
    requires InRange(b)
    ensures InRange(AppendMeshes(b, ms))
  {
    if ms != [] {
      AppendMeshesInRange(b, ms[..|ms| - 1]);
      AppendMeshInRange(AppendMeshes(b, ms[..|ms| - 1]), ms[|ms| - 1]);
    }
  }

  /** A mesh: the flattened lists, filled in place by `process_mesh` and
      `process_node`. */
  class Mesh {
    const path: string
    var vertices: seq<real>
    var texcoords: seq<real>
    var normals: seq<real>
    var indices: seq<nat>

    function Contents(): Buffers
      reads this
    {
      Buffers(vertices, texcoords, normals, indices)
    }

    /** `Mesh(path)`: an empty mesh. */
    constructor (path: string)
      ensures this.path == path && Contents() == NoBuffers()
    {
      this.path := path;
      vertices, texcoords, normals, indices := [], [], [], [];
    }

    /** `process_mesh`: one imported mesh appended to the lists. */
    method ProcessMesh(m: ImportedMesh)
      modifies this
      ensures Contents() == AppendMesh(old(Contents()), m)
    {
      var offset := |vertices| / 3;
      AppendVertices(m);
      var f := 0;
      while f < |m.faces|
        invariant 0 <= f <= |m.faces|
        invariant vertices == old(vertices) + Halved(m.vertices)
        invariant texcoords == AppendMesh(old(Contents()), m).texcoords
        invariant normals == AppendMesh(old(Contents()), m).normals
        invariant indices == old(indices) + FaceIndices(m.faces[..f], offset)
      {
        assert m.faces[..f + 1][..f] == m.faces[..f];
        AppendFace(m.faces[f], offset);
        f := f + 1;
      }
      assert m.faces[..f] == m.faces;
    }

    /** The vertex loop of `process_mesh`: per vertex, three halved
        coordinates, then two texture coordinates and three normal
        components when the mesh has them. */
    method AppendVertices(m: ImportedMesh)
      modifies this`vertices, this`texcoords, this`normals
      ensures var a := AppendMesh(old(Contents()), m);
        vertices == a.vertices && texcoords == a.texcoords && normals == a.normals
    {
      var v0, t0, n0 := vertices, texcoords, normals;
      var vs, ts, ns := [], [], [];
      var i := 0;
      while i < |m.vertices|
        invariant 0 <= i <= |m.vertices|
        invariant vs == Halved(m.vertices[..i]) && ts == TexPart(m, i) && ns == NormalPart(m, i)
      {
        var v := m.vertices[i];
        var t := if m.texcoords.Some? then [m.texcoords.value[i].x, m.texcoords.value[i].y] else [];
        var n := if m.normals.Some? then [m.normals.value[i].x, m.normals.value[i].y, m.normals.value[i].z] else [];
        VertexStep(m, i);
        vs, ts, ns := vs + [v.x / 2.0, v.y / 2.0, v.z / 2.0], ts + t, ns + n;
        i := i + 1;
      }
      assert m.vertices[..i] == m.vertices;
      vertices, texcoords, normals := v0 + vs, t0 + ts, n0 + ns;
    }

    /** The index loop of one face: each index moved up by `offset`. */
    method AppendFace(face: seq<nat>, offset: nat)
      modifies this`indices
      ensures indices == old(indices) + Shifted(face, offset)
    {
      var j := 0;
      while j < |face|
        invariant 0 <= j <= |face|
        invariant indices == old(indices) + Shifted(face[..j], offset)
      {
        assert face[..j + 1][..j] == face[..j];
        indices := indices + [face[j] + offset];
        j := j + 1;
      }
      assert face[..j] == face;
    }

    /** `process_node`: the meshes of `node` and then of its children's
        subtrees appended, in pre-order. */
    method ProcessNode(ms: seq<ImportedMesh>, node: AiNode)
      requires NodeShaped(ms, node)
      modifies this
      ensures Contents() == AppendMeshes(old(Contents()), NodeMeshes(ms, node))
      decreases node, 1
    {
      ProcessOwn(ms, node.meshes);
      ProcessChildren(ms, node.children);
      AppendMeshesSplit(old(Contents()), OwnMeshes(ms, node.meshes), ChildMeshes(ms, node.children));
    }

    /** The first loop of `process_node`: the node's own meshes. */
    method ProcessOwn(ms: seq<ImportedMesh>, idx: seq<nat>)
      requires forall i :: 0 <= i < |idx| ==> idx[i] < |ms|
      modifies this
      ensures Contents() == AppendMeshes(old(Contents()), OwnMeshes(ms, idx))
    {
      var i := 0;
      while i < |idx|
        invariant 0 <= i <= |idx|
        invariant Contents() == AppendMeshes(old(Contents()), OwnMeshes(ms, idx[..i]))
      {
        OwnStep(old(Contents()), ms, idx, i);
        ProcessMesh(ms[idx[i]]);
        i := i + 1;
      }
      assert idx[..i] == idx;
    }

    /** The second loop of `process_node`: each child's subtree in order. */
    method ProcessChildren(ms: seq<ImportedMesh>, kids: seq<AiNode>)
      requires forall i :: 0 <= i < |kids| ==> NodeShaped(ms, kids[i])
      modifies this
      ensures Contents() == AppendMeshes(old(Contents()), ChildMeshes(ms, kids))
      decreases kids, 0
    {
      var k := 0;
      while k < |kids|
        invariant 0 <= k <= |kids|
        invariant Contents() == AppendMeshes(old(Contents()), ChildMeshes(ms, kids[..k]))
      {
        assert kids[..k + 1][..k] == kids[..k];
        ProcessNode(ms, kids[k]);
        AppendMeshesSplit(old(Contents()), ChildMeshes(ms, kids[..k]), NodeMeshes(ms, kids[k]));
        k := k + 1;
      }
      assert kids[..k] == kids;
    }
  }

  /** The process-wide cache of loaded meshes, keyed by path. */
  class MeshCache {
    var entries: map<string, Mesh>

    constructor ()
      ensures entries == map[]
    {
      entries := map[];
    }
  }

  /** Whether the importer's result can be loaded: present, complete and
      with a root node. */
  predicate Loadable(imported: Option<AiScene>) {
    imported.Some? && !imported.value.incomplete && imported.value.root.Some?
  }

  /** `load_into(mesh, path)` given what the importer returned for `path`
      (`None` for a null scene): a missing, incomplete or rootless scene is
      an error and changes nothing; otherwise the scene is flattened into
      `mesh` from its root and `mesh` is cached under `path`. */
  method LoadInto(cache: MeshCache, mesh: Mesh, path: string, imported: Option<AiScene>) returns (ok: bool)
    requires imported.Some? ==> SceneShaped(imported.value)
    modifies cache, mesh
    ensures ok <==> Loadable(imported)
    ensures !ok ==> cache.entries == old(cache.entries) && mesh.Contents() == old(mesh.Contents())
    ensures ok ==>
      var s := imported.value;
      mesh.Contents() == AppendMeshes(old(mesh.Contents()), NodeMeshes(s.meshes, s.root.value)) &&
      cache.entries == old(cache.entries)[path := mesh]
  {
    if !Loadable(imported) {
      return false;
    }
    var s := imported.value;
    mesh.ProcessNode(s.meshes, s.root.value);
    cache.entries := cache.entries[path := mesh];
    ok := true;
  }

  /** A freshly loaded mesh keeps every index within its vertices when each
      imported face names its own mesh's vertices. */
  lemma LoadedInRange(s: AiScene)
    requires SceneShaped(s) && s.root.Some?
    requires forall i :: 0 <= i < |s.meshes| ==> FacesInRange(s.meshes[i])
    ensures InRange(AppendMeshes(NoBuffers(), NodeMeshes(s.meshes, s.root.value)))
  {
    NodeMeshesFromScene(s.meshes, s.root.value);
    var ms := NodeMeshes(s.meshes, s.root.value);
    forall i | 0 <= i < |ms| ensures FacesInRange(ms[i]) {
      assert ms[i] in s.meshes;
      var j :| 0 <= j < |s.meshes| && s.meshes[j] == ms[i];
    }
    AppendMeshesInRange(NoBuffers(), ms);
  }
}
