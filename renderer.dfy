/** Render-buffer assembly: the mesh buffer that concatenates and
    interleaves every registered mesh, the mesh-renderer component that
    registers itself there, debug gizmos and their buffer, and the draw
    loops that walk both.

    GPU uploads are modelled by what they upload: the mesh buffer's
    interleaved vertex data and its element list. Draw calls are returned as
    values. */
module Rendering {
  import opened Base
  import opened Geometry
  import SceneGraph
  import opened Meshes

  /** `sizeof(unsigned int)`: draw offsets advance in bytes. */
  const IndexBytes: nat := 4

  datatype Vec4 = Vec4(x: real, y: real, z: real, w: real)

  /** The default gizmo colour. */
  function White(): Vec4 { Vec4(1.0, 1.0, 1.0, 1.0) }

  // ---------------------------------------------------------------------------
  // Interleaving

  /** Vertex `i`'s record: three position floats, two texture-coordinate
      floats and three normal floats. */
  function Record(v: seq<real>, t: seq<real>, n: seq<real>, i: nat): seq<real>
    requires 3 * i + 3 <= |v| && 2 * i + 2 <= |t| && 3 * i + 3 <= |n|
  {
    [v[3 * i], v[3 * i + 1], v[3 * i + 2], t[2 * i], t[2 * i + 1], n[3 * i], n[3 * i + 1], n[3 * i + 2]]
  }

  /** The first `k` interleaved records. */
  function Interleave(v: seq<real>, t: seq<real>, n: seq<real>, k: nat): (r: seq<real>)
    requires 3 * k <= |v| && 2 * k <= |t| && 3 * k <= |n|
    ensures |r| == 8 * k
  {
    if k == 0 then [] else Interleave(v, t, n, k - 1) + Record(v, t, n, k - 1)
  }

  /** The eight floats at `8 * i` are record `i`. */
  lemma {:induction false} InterleaveRecord(v: seq<real>, t: seq<real>, n: seq<real>, k: nat, i: nat)
    requires 3 * k <= |v| && 2 * k <= |t| && 3 * k <= |n| && i < k
    ensures Interleave(v, t, n, k)[8 * i .. 8 * i + 8] == Record(v, t, n, i)
  {
    var prev := Interleave(v, t, n, k - 1);
    var last := Record(v, t, n, k - 1);
    assert Interleave(v, t, n, k) == prev + last;
    if i < k - 1 {
      InterleaveRecord(v, t, n, k - 1, i);
      assert (prev + last)[8 * i .. 8 * i + 8] == prev[8 * i .. 8 * i + 8];
    } else {
      assert (prev + last)[8 * i .. 8 * i + 8] == last;
    }
  }

  /** Record `i` of the interleaved data is vertex `i`'s position, then its
      texture coordinate, then its normal. */
  lemma InterleaveLayout(v: seq<real>, t: seq<real>, n: seq<real>, k: nat, i: nat)
    requires 3 * k <= |v| && 2 * k <= |t| && 3 * k <= |n| && i < k
    ensures Interleave(v, t, n, k)[8 * i .. 8 * i + 3] == v[3 * i .. 3 * i + 3]
    ensures Interleave(v, t, n, k)[8 * i + 3 .. 8 * i + 5] == t[2 * i .. 2 * i + 2]
    ensures Interleave(v, t, n, k)[8 * i + 5 .. 8 * i + 8] == n[3 * i .. 3 * i + 3]
  {
    var r := Interleave(v, t, n, k);
    InterleaveRecord(v, t, n, k, i);
    assert r[8 * i .. 8 * i + 8] == Record(v, t, n, i);
    assert r[8 * i .. 8 * i + 3] == r[8 * i .. 8 * i + 8][..3];
    assert r[8 * i + 3 .. 8 * i + 5] == r[8 * i .. 8 * i + 8][3..5];
    assert r[8 * i + 5 .. 8 * i + 8] == r[8 * i .. 8 * i + 8][5..];
  }

  /** The concatenated lists hold a texture coordinate and a normal for
      every vertex record the interleave loop reads. */
  predicate Covered(b: Buffers) {
    2 * (|b.vertices| / 3) <= |b.texcoords| && 3 * (|b.vertices| / 3) <= |b.normals|
  }

  // ---------------------------------------------------------------------------
  // The mesh-renderer component

  /** A mesh renderer: the mesh it draws, shared with every other renderer
      of the same path. */
  class MeshRenderer {
    const mesh: Mesh

    constructor (mesh: Mesh)
      ensures this.mesh == mesh
    {
      this.mesh := mesh;
    }

    /** `awake`: register this renderer with the mesh buffer unless it is
        already there, and rebuild the buffer when it was added. */
    method Awake(buffer: MeshBuffer)
      requires buffer.Valid()
      requires this !in buffer.meshes ==> Covered(Gathered(buffer.meshes + [this]))
      modifies buffer
      ensures buffer.Valid()
      ensures this in old(buffer.meshes) ==> buffer.meshes == old(buffer.meshes) && unchanged(buffer)
      ensures this !in old(buffer.meshes) ==>
        buffer.meshes == old(buffer.meshes) + [this] && buffer.UploadedFrom(old(Gathered(buffer.meshes + [this])))
    {
      var i := 0;
      while i < |buffer.meshes| && buffer.meshes[i] != this
        invariant 0 <= i <= |buffer.meshes|
        invariant forall j :: 0 <= j < i ==> buffer.meshes[j] != this
      {
        i := i + 1;
      }
      if i == |buffer.meshes| {
        buffer.meshes := buffer.meshes + [this];
        buffer.UpdateData();
      }
    }
  }

  /** `MeshRenderer(material, path)` given what the importer returns for
      `path`: a cached mesh is reused; otherwise a new mesh is loaded and
      cached, and a failed load is an error (no renderer). */
  method NewMeshRenderer(cache: MeshCache, path: string, imported: Option<AiScene>) returns (r: Option<MeshRenderer>)
    requires imported.Some? ==> SceneShaped(imported.value)
    modifies cache
    ensures r.Some? ==> fresh(r.value)
    ensures path in old(cache.entries) ==>
      r.Some? && r.value.mesh == old(cache.entries[path]) && cache.entries == old(cache.entries)
    ensures path !in old(cache.entries) ==> (r.Some? <==> Loadable(imported))
    ensures path !in old(cache.entries) && r.None? ==> cache.entries == old(cache.entries)
    ensures path !in old(cache.entries) && r.Some? ==>
      fresh(r.value.mesh) && r.value.mesh.path == path &&
      cache.entries == old(cache.entries)[path := r.value.mesh] &&
      r.value.mesh.Contents() == AppendMeshes(NoBuffers(), NodeMeshes(imported.value.meshes, imported.value.root.value))
  {
    if path !in cache.entries {
      var mesh := new Mesh(path);
      var ok := LoadInto(cache, mesh, path, imported);
      if !ok {
        return None;
      }
      var mr := new MeshRenderer(mesh);
      r := Some(mr);
    } else {
      var mr := new MeshRenderer(cache.entries[path]);
      r := Some(mr);
    }
  }

  // ---------------------------------------------------------------------------
  // The mesh buffer

  /** The lists of every renderer's mesh concatenated in order, each
      mesh's indices unchanged. */
  function Gathered(ms: seq<MeshRenderer>): (g: Buffers)
    reads set r | r in ms :: r.mesh
  {
    if ms == [] then NoBuffers()
    else
      var prev := Gathered(ms[..|ms| - 1]);
      var c := ms[|ms| - 1].mesh.Contents();
      Buffers(prev.vertices + c.vertices, prev.texcoords + c.texcoords, prev.normals + c.normals, prev.indices + c.indices)
  }

  /** Renderer `k`'s indices follow those of the renderers before it in the
      gathered list, unchanged: they are not rebased by the vertices
      gathered before them, so they still count from that mesh's own first
      vertex while the draw reads records from the start of the buffer. */
  lemma {:induction false} GatheredIndices(ms: seq<MeshRenderer>, k: nat)
    requires k < |ms|
    ensures var before := |Gathered(ms[..k]).indices|;
      before + |ms[k].mesh.indices| <= |Gathered(ms).indices| &&
      Gathered(ms).indices[before .. before + |ms[k].mesh.indices|] == ms[k].mesh.indices
    decreases |ms|
  {
    var init := ms[..|ms| - 1];
    if k < |ms| - 1 {
      GatheredIndices(init, k);
      assert init[..k] == ms[..k];
      assert Gathered(ms).indices[..|Gathered(init).indices|] == Gathered(init).indices;
    } else {
      assert ms[..k] == init;
    }
  }

  /** The engine's mesh buffer: the registered renderers, the scratch lists
      `update_data` gathers into, the interleaved vertex data and the
      element list last uploaded. */
  class MeshBuffer {
    var meshes: seq<MeshRenderer>
    var vertices: seq<real>
    var texcoords: seq<real>
    var normals: seq<real>
    var indices: seq<nat>
    var interleaved: seq<real>
    var elements: seq<nat>

    /** No renderer is registered twice. */
    ghost predicate Valid()
      reads this
    {
      forall i, j :: 0 <= i < j < |meshes| ==> meshes[i] != meshes[j]
    }

    /** The uploaded data is the gathered lists `g` interleaved, with
        their indices, and the scratch lists are empty again. */
    ghost predicate UploadedFrom(g: Buffers)
      reads this
    {
      Covered(g) &&
      interleaved == Interleave(g.vertices, g.texcoords, g.normals, |g.vertices| / 3) &&
      elements == g.indices &&
      vertices == [] && texcoords == [] && normals == [] && indices == []
    }

    constructor ()
      ensures Valid() && meshes == [] && interleaved == [] && elements == []
    {
      meshes := [];
      vertices, texcoords, normals, indices := [], [], [], [];
      interleaved, elements := [], [];
    }

    /** `update_data`: gather every mesh's lists in registration order,
        interleave them into records of eight floats and upload the records
        and the gathered indices. */
    method UpdateData()
      requires Covered(Gathered(meshes))
      modifies this`vertices, this`texcoords, this`normals, this`indices, this`interleaved, this`elements
      ensures UploadedFrom(old(Gathered(meshes)))
    {
      var g := GatherAll(meshes);
      var records := InterleaveAll(g.vertices, g.texcoords, g.normals);
      // the scratch lists are cleared once uploaded
      vertices, texcoords, normals, indices, interleaved, elements := [], [], [], [], records, g.indices;
    }
  }

  /** The gather loop of `update_data`: every renderer's mesh lists
      appended in order. */
  method GatherAll(ms: seq<MeshRenderer>) returns (g: Buffers)
    ensures g == old(Gathered(ms))
  {
    g := NoBuffers();
    var i := 0;
    while i < |ms|
      invariant 0 <= i <= |ms|
      invariant g == Gathered(ms[..i])
    {
      assert ms[..i + 1][..i] == ms[..i];
      var m := ms[i].mesh;
      g := Buffers(g.vertices + m.vertices, g.texcoords + m.texcoords, g.normals + m.normals, g.indices + m.indices);
      i := i + 1;
    }
    assert ms[..i] == ms;
  }

  /** The interleave loop of `update_data`: one eight-float record per
      whole position. */
  method InterleaveAll(v: seq<real>, t: seq<real>, n: seq<real>) returns (r: seq<real>)
    requires Covered(Buffers(v, t, n, []))
    ensures r == Interleave(v, t, n, |v| / 3)
  {
    r := [];
    var k := 0;
    var records := |v| / 3;
    while k < records
      invariant 0 <= k <= records
      invariant r == Interleave(v, t, n, k)
    {
      assert 3 * k + 3 <= |v| && 2 * k + 2 <= |t| && 3 * k + 3 <= |n|;
      ghost var record := Record(v, t, n, k);
      r := r + [v[k * 3], v[k * 3 + 1], v[k * 3 + 2], t[k * 2], t[k * 2 + 1], n[k * 3], n[k * 3 + 1], n[k * 3 + 2]];
      assert r == Interleave(v, t, n, k) + record;
      k := k + 1;
    }
  }

  // ---------------------------------------------------------------------------
  // Gizmos

  /** A debug shape drawn with its node's transform: flat vertex floats,
      line or triangle indices and a colour. */
  datatype Gizmo = Gizmo(node: NodeId, vertices: seq<real>, indices: seq<nat>, color: Vec4)

  /** Every index names one of the gizmo's vertices. */
  predicate GizmoInRange(g: Gizmo) {
    |g.vertices| % 3 == 0 && forall k :: 0 <= k < |g.indices| ==> g.indices[k] < |g.vertices| / 3
  }

  /** `create_line(owner, start, end, color)`: the two endpoints' floats,
      one line from vertex 0 to vertex 1, and the given colour. */
  method CreateLine(owner: NodeId, start: Vec3, end: Vec3, color: Vec4) returns (g: Gizmo)
    ensures g == Gizmo(owner, Flat3([start, end]), [0, 1], color)
  {
    g := Gizmo(owner, [], [], White());
    var ends := [start, end];
    var i := 0;
    while i < |ends|
      invariant 0 <= i <= |ends|
      invariant g == Gizmo(owner, Flat3(ends[..i]), [], White())
    {
      assert ends[..i + 1][..i] == ends[..i];
      g := g.(vertices := g.vertices + [ends[i].x, ends[i].y, ends[i].z]);
      i := i + 1;
    }
    assert ends[..i] == ends;
    g := g.(indices := [0, 1], color := color);
  }

  /** A line is six floats, start then end, and its one segment joins its
      two vertices. */
  lemma LineShape(owner: NodeId, start: Vec3, end: Vec3, color: Vec4)
    ensures var g := Gizmo(owner, Flat3([start, end]), [0, 1], color);
      g.vertices == [start.x, start.y, start.z, end.x, end.y, end.z] && GizmoInRange(g)
  {
    Flat3Layout([start, end], 0);
    Flat3Layout([start, end], 1);
  }

  /** The trigonometry `create_sphere` evaluates in single precision. */
  datatype Trig = Trig(pi: real, cos: real -> real, sin: real -> real)

  /** Iterations of `for (i = 0; i <= n; i++)`. */
  function Upto(n: int): nat { if n >= 0 then n + 1 else 0 }

  /** Iterations of `for (i = 0; i < n; i++)`. */
  function Below(n: int): nat { if n > 0 then n else 0 }

  /** The point on the sphere at segment `i` and ring `j`. */
  function SpherePoint(i: nat, j: nat, radius: real, segments: int, rings: int, trig: Trig): Vec3 {
    var theta := SafeDiv(i as real, segments as real) * 2.0 * trig.pi;
    var phi := SafeDiv(j as real, rings as real) * trig.pi;
    Vec3(trig.cos(theta) * trig.sin(phi) * radius, trig.cos(phi) * radius, trig.sin(theta) * trig.sin(phi) * radius)
  }

  /** The floats of the first `m` ring points of segment `i`. */
  function SphereRow(i: nat, m: nat, radius: real, segments: int, rings: int, trig: Trig): (r: seq<real>)
    ensures |r| == 3 * m
  {
    if m == 0 then []
    else
      var p := SpherePoint(i, m - 1, radius, segments, rings, trig);
      SphereRow(i, m - 1, radius, segments, rings, trig) + [p.x, p.y, p.z]
  }

  /** The floats of the first `k` segments, each a full row of rings. */
  function SphereRows(k: nat, radius: real, segments: int, rings: int, trig: Trig): seq<real> {
    if k == 0 then []
    else SphereRows(k - 1, radius, segments, rings, trig) + SphereRow(k - 1, Upto(rings), radius, segments, rings, trig)
  }

  /** The two triangles of the quad at segment `i`, ring `j`. */
  function Quad(i: nat, j: nat, rings: nat): seq<nat> {
    var w := rings + 1;
    [i * w + j, (i + 1) * w + j, (i + 1) * w + (j + 1), i * w + j, (i + 1) * w + (j + 1), i * w + (j + 1)]
  }

  /** The quads of the first `m` rings of segment `i`. */
  function QuadRow(i: nat, m: nat, rings: nat): (r: seq<nat>)
    ensures |r| == 6 * m
  {
    if m == 0 then [] else QuadRow(i, m - 1, rings) + Quad(i, m - 1, rings)
  }

  /** The quads of the first `k` segments. */
  function QuadRows(k: nat, rings: int): seq<nat> {
    if k == 0 then [] else QuadRows(k - 1, rings) + QuadRow(k - 1, Below(rings), Below(rings))
  }

  /** One more row of `m`. */
  lemma MulSucc(k: nat, m: nat)
    ensures (k + 1) * m == k * m + m
  {
  }

  /** Multiplying by `w` keeps order. */
  lemma MulMono(a: nat, b: nat, w: nat)
    requires a <= b
    ensures a * w <= b * w
    decreases b - a
  {
    MulSucc(a, w);
    if a < b {
      MulMono(a + 1, b, w);
    }
  }

  /** `k` rows of `rings + 1` points, three floats each. */
  lemma {:induction false} SphereRowsLength(k: nat, radius: real, segments: int, rings: int, trig: Trig)
    ensures |SphereRows(k, radius, segments, rings, trig)| == 3 * (k * Upto(rings))
  {
    if k > 0 {
      SphereRowsLength(k - 1, radius, segments, rings, trig);
      MulSucc(k - 1, Upto(rings));
    }
  }

  /** `k` rows of `rings` quads, six indices each. */
  lemma {:induction false} QuadRowsLength(k: nat, rings: int)
    ensures |QuadRows(k, rings)| == 6 * (k * Below(rings))
  {
    if k > 0 {
      QuadRowsLength(k - 1, rings);
      MulSucc(k - 1, Below(rings));
    }
  }

  /** The six indices of a quad at segment `i < segments` and ring
      `j < rings` name grid points. */
  lemma QuadBelow(i: nat, j: nat, rings: nat, segments: nat)
    requires i < segments && j < rings
    ensures forall k :: 0 <= k < 6 ==> Quad(i, j, rings)[k] < (segments + 1) * (rings + 1)
  {
    var w := rings + 1;
    MulSucc(i, w);
    MulSucc(segments, w);
    MulMono(i + 1, segments, w);
  }

  /** Every quad index of the first `m` rings of segment `i < segments`
      names one of the `(segments + 1) * (rings + 1)` vertices. */
  lemma {:induction false} QuadRowBelow(i: nat, m: nat, rings: nat, segments: nat)
    requires i < segments && m <= rings
    ensures forall k :: 0 <= k < |QuadRow(i, m, rings)| ==> QuadRow(i, m, rings)[k] < (segments + 1) * (rings + 1)
  {
    if m > 0 {
      var n := (segments + 1) * (rings + 1);
      var prev := QuadRow(i, m - 1, rings);
      var q := Quad(i, m - 1, rings);
      QuadRowBelow(i, m - 1, rings, segments);
      QuadBelow(i, m - 1, rings, segments);
      assert QuadRow(i, m, rings) == prev + q;
      forall k | 0 <= k < |prev + q|
        ensures (prev + q)[k] < n
      {
        if k < |prev| {
          assert (prev + q)[k] == prev[k];
        } else {
          assert (prev + q)[k] == q[k - |prev|];
        }
      }
    }
  }

  lemma {:induction false} QuadRowsBelow(k: nat, rings: int, segments: int)
    requires k <= Below(segments)
    ensures forall x :: 0 <= x < |QuadRows(k, rings)| ==> QuadRows(k, rings)[x] < Upto(segments) * Upto(rings)
  {
    if k > 0 {
      var n := Upto(segments) * Upto(rings);
      var prev := QuadRows(k - 1, rings);
      var row := QuadRow(k - 1, Below(rings), Below(rings));
      QuadRowsBelow(k - 1, rings, segments);
      if Below(rings) > 0 {
        QuadRowBelow(k - 1, Below(rings), Below(rings), Below(segments));
        assert n == (Below(segments) + 1) * (Below(rings) + 1);
      }
      assert QuadRows(k, rings) == prev + row;
      forall x | 0 <= x < |prev + row|
        ensures (prev + row)[x] < n
      {
        if x < |prev| {
          assert (prev + row)[x] == prev[x];
        } else {
          assert (prev + row)[x] == row[x - |prev|];
        }
      }
    }
  }

  /** `create_sphere` emits three floats per point of a
      `(segments + 1) x (rings + 1)` grid and six indices per quad of a
      `segments x rings` grid, every index naming a grid point: the sphere
      gizmo keeps its indices within its vertices. */
  lemma SphereShape(owner: NodeId, radius: real, segments: int, rings: int, trig: Trig)
    ensures var g := Gizmo(owner, SphereRows(Upto(segments), radius, segments, rings, trig), QuadRows(Below(segments), rings), White());
      |g.vertices| == 3 * (Upto(segments) * Upto(rings)) &&
      |g.indices| == 6 * (Below(segments) * Below(rings)) &&
      GizmoInRange(g)
  {
    SphereRowsLength(Upto(segments), radius, segments, rings, trig);
    QuadRowsLength(Below(segments), rings);
    QuadRowsBelow(Below(segments), rings, segments);
  }

  /** `create_sphere(owner, radius, height, segments, rings)`: the grid
      points segment by segment, then the quads segment by segment; the
      height is unused and the colour is the default. */
  method CreateSphere(owner: NodeId, radius: real, height: real, segments: int, rings: int, trig: Trig) returns (g: Gizmo)
    ensures g == Gizmo(owner, SphereRows(Upto(segments), radius, segments, rings, trig), QuadRows(Below(segments), rings), White())
  {
    var vertices: seq<real> := [];
    var i := 0;
    while i <= segments
      invariant 0 <= i <= Upto(segments)
      invariant vertices == SphereRows(i, radius, segments, rings, trig)
    {
      vertices := PushRing(vertices, i, radius, segments, rings, trig);
      i := i + 1;
    }
    var indices: seq<nat> := [];
    i := 0;
    while i < segments
      invariant 0 <= i <= Below(segments)
      invariant indices == QuadRows(i, rings)
    {
      indices := PushQuads(indices, i, rings);
      i := i + 1;
    }
    g := Gizmo(owner, vertices, indices, White());
  }

  /** The inner vertex loop of `create_sphere`: the points of segment `i`
      for every ring. */
  method PushRing(vertices: seq<real>, i: nat, radius: real, segments: int, rings: int, trig: Trig) returns (r: seq<real>)
    ensures r == vertices + SphereRow(i, Upto(rings), radius, segments, rings, trig)
  {
    r := vertices;
    var j := 0;
    while j <= rings
      invariant 0 <= j <= Upto(rings)
      invariant r == vertices + SphereRow(i, j, radius, segments, rings, trig)
    {
      var p := SpherePoint(i, j, radius, segments, rings, trig);
      r := r + [p.x, p.y, p.z];
      j := j + 1;
    }
  }

  /** The inner index loop of `create_sphere`: the quads of segment `i`
      for every ring. */
  method PushQuads(indices: seq<nat>, i: nat, rings: int) returns (r: seq<nat>)
    ensures r == indices + QuadRow(i, Below(rings), Below(rings))
  {
    r := indices;
    var j := 0;
    while j < rings
      invariant 0 <= j <= Below(rings)
      invariant r == indices + QuadRow(i, j, Below(rings))
    {
      var w := rings + 1;
      r := r + [i * w + j, (i + 1) * w + j, (i + 1) * w + (j + 1), i * w + j, (i + 1) * w + (j + 1), i * w + (j + 1)];
      j := j + 1;
    }
  }

  /** All gizmos' vertex floats, in order. */
  function GizmoVertices(gs: seq<Gizmo>): seq<real> {
    if gs == [] then [] else GizmoVertices(gs[..|gs| - 1]) + gs[|gs| - 1].vertices
  }

  /** All gizmos' indices, in order and unchanged. */
  function GizmoIndices(gs: seq<Gizmo>): seq<nat> {
    if gs == [] then [] else GizmoIndices(gs[..|gs| - 1]) + gs[|gs| - 1].indices
  }

  /** Gizmo `k`'s indices follow those of the gizmos before it. */
  lemma {:induction false} GizmoIndicesAt(gs: seq<Gizmo>, k: nat)
    requires k < |gs|
    ensures var before := |GizmoIndices(gs[..k])|;
      before + |gs[k].indices| <= |GizmoIndices(gs)| &&
      GizmoIndices(gs)[before .. before + |gs[k].indices|] == gs[k].indices
    decreases |gs|
  {
    var init := gs[..|gs| - 1];
    if k < |gs| - 1 {
      GizmoIndicesAt(init, k);
      assert init[..k] == gs[..k];
      assert GizmoIndices(gs)[..|GizmoIndices(init)|] == GizmoIndices(init);
    } else {
      assert gs[..k] == init;
    }
  }

  /** The engine's gizmo buffer: the gizmos queued this frame and the
      lists `update_data` rebuilds from them. */
  class GizmoBuffer {
    var gizmos: seq<Gizmo>
    var vertices: seq<real>
    var indices: seq<nat>
    var modelMatrices: seq<Transform>

    constructor ()
      ensures gizmos == [] && vertices == [] && indices == [] && modelMatrices == []
    {
      gizmos, vertices, indices, modelMatrices := [], [], [], [];
    }

    /** `update_data`: one model matrix per gizmo, its node's world
        transform, and the gizmos' vertices and indices concatenated in
        order. Every gizmo's node must still be alive. */
    method UpdateData(nodes: SceneGraph.Nodes)
      requires forall i :: 0 <= i < |gizmos| ==> gizmos[i].node in nodes
      modifies this`vertices, this`indices, this`modelMatrices
      ensures |modelMatrices| == |gizmos|
      ensures forall i :: 0 <= i < |gizmos| ==> modelMatrices[i] == SceneGraph.WorldTransformOf(nodes, gizmos[i].node, |nodes|)
      ensures vertices == GizmoVertices(gizmos) && indices == GizmoIndices(gizmos)
    {
      modelMatrices, vertices, indices := [], [], [];
      var i := 0;
      while i < |gizmos|
        invariant 0 <= i <= |gizmos|
        invariant |modelMatrices| == i
        invariant forall j :: 0 <= j < i ==> modelMatrices[j] == SceneGraph.WorldTransformOf(nodes, gizmos[j].node, |nodes|)
        invariant vertices == GizmoVertices(gizmos[..i]) && indices == GizmoIndices(gizmos[..i])
      {
        var g := gizmos[i];
        assert gizmos[..i + 1][..i] == gizmos[..i];
        modelMatrices := modelMatrices + [SceneGraph.WorldTransformOf(nodes, g.node, |nodes|)];
        vertices := vertices + g.vertices;
        indices := indices + g.indices;
        i := i + 1;
      }
      assert gizmos[..i] == gizmos;
    }
  }

  // ---------------------------------------------------------------------------
  // Drawing

  /** One `glDrawElements` call: how many indices, from which byte offset
      of the element buffer. */
  datatype DrawCall = DrawCall(count: nat, offset: nat)

  /** One gizmo draw: the call plus the colour and model matrix set for it. */
  datatype GizmoDraw = GizmoDraw(call: DrawCall, color: Vec4, model: Transform)

  /** The renderer's two buffers. */
  class Renderer {
    const meshBuffer: MeshBuffer
    const gizmoBuffer: GizmoBuffer

    constructor (meshBuffer: MeshBuffer, gizmoBuffer: GizmoBuffer)
      ensures this.meshBuffer == meshBuffer && this.gizmoBuffer == gizmoBuffer
    {
      this.meshBuffer := meshBuffer;
      this.gizmoBuffer := gizmoBuffer;
    }

    /** `draw_meshes`: one call per registered renderer with its mesh's
        index count, the byte offset advancing by each count, so call `k`
        starts where `GatheredIndices` places mesh `k`'s indices in the
        uploaded element list. */
    method DrawMeshes() returns (draws: seq<DrawCall>)
      ensures |draws| == |meshBuffer.meshes|
      ensures forall k :: 0 <= k < |draws| ==>
        draws[k] == DrawCall(|meshBuffer.meshes[k].mesh.indices|, IndexBytes * |Gathered(meshBuffer.meshes[..k]).indices|)
    {
      var ms := meshBuffer.meshes;
      draws := [];
      var offset := 0;
      var i := 0;
      while i < |ms|
        invariant 0 <= i <= |ms|
        invariant |draws| == i && offset == IndexBytes * |Gathered(ms[..i]).indices|
        invariant forall k {:trigger draws[k]} :: 0 <= k < i ==> draws[k] == DrawCall(|ms[k].mesh.indices|, IndexBytes * |Gathered(ms[..k]).indices|)
      {
        var count := |ms[i].mesh.indices|;
        draws := draws + [DrawCall(count, offset)];
        assert ms[..i + 1][..i] == ms[..i];
        offset := offset + count * IndexBytes;
        i := i + 1;
      }
    }

    /** `add_gizmo`: queue a gizmo for this frame. */
    method AddGizmo(g: Gizmo)
      modifies gizmoBuffer`gizmos
      ensures gizmoBuffer.gizmos == old(gizmoBuffer.gizmos) + [g]
    {
      gizmoBuffer.gizmos := gizmoBuffer.gizmos + [g];
    }

    /** `draw_gizmos`: one call per queued gizmo with its colour and its
        node's world transform, the byte offset advancing by each index
        count; the queue is empty afterwards. Every gizmo's node must still
        be alive. */
    method DrawGizmos(nodes: SceneGraph.Nodes) returns (draws: seq<GizmoDraw>)
      requires forall i :: 0 <= i < |gizmoBuffer.gizmos| ==> gizmoBuffer.gizmos[i].node in nodes
      modifies gizmoBuffer`gizmos
      ensures gizmoBuffer.gizmos == []
      ensures |draws| == |old(gizmoBuffer.gizmos)|
      ensures forall k :: 0 <= k < |draws| ==>
        var g := old(gizmoBuffer.gizmos)[k];
        draws[k] == GizmoDraw(DrawCall(|g.indices|, IndexBytes * |GizmoIndices(old(gizmoBuffer.gizmos)[..k])|),
                              g.color, SceneGraph.WorldTransformOf(nodes, g.node, |nodes|))
    {
      var gs := gizmoBuffer.gizmos;
      draws := [];
      var offset := 0;
      var i := 0;
      while i < |gs|
        invariant 0 <= i <= |gs|
        invariant |draws| == i && offset == IndexBytes * |GizmoIndices(gs[..i])|
        invariant forall k {:trigger draws[k]} :: 0 <= k < i ==>
          draws[k] == GizmoDraw(DrawCall(|gs[k].indices|, IndexBytes * |GizmoIndices(gs[..k])|),
                                gs[k].color, SceneGraph.WorldTransformOf(nodes, gs[k].node, |nodes|))
      {
        var g := gs[i];
        var count := |g.indices|;
        draws := draws + [GizmoDraw(DrawCall(count, offset), g.color, SceneGraph.WorldTransformOf(nodes, g.node, |nodes|))];
        assert gs[..i + 1][..i] == gs[..i];
        offset := offset + count * IndexBytes;
        i := i + 1;
      }
      gizmoBuffer.gizmos := [];
    }
  }
}
