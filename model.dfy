/**
 * Mesh flattening and emission of src/model.hpp.
 *
 * The imported scene (an `aiScene` as the Assimp importer returns it) is a
 * plain value: meshes with vertex triples and faces, and a node tree whose
 * nodes name meshes by their index into the scene's mesh array. `Model` keeps
 * the flattened meshes it loads in `polygonMeshes`; `Draw` returns the
 * vertices the GL immediate-mode calls would receive, in emission order.
 */
module Meshes {
  import opened Wrappers
  import opened GMath

  /** `uint32_t` and assimp's `unsigned int`. */
  newtype U32 = x: int | 0 <= x < 0x1_0000_0000

  const Pow32: nat := 0x1_0000_0000

  /** `AI_SCENE_FLAGS_INCOMPLETE`. */
  const SceneFlagsIncomplete: bv32 := 1

  /** `aiFace`: `mIndices[0 .. mNumIndices)`. */
  datatype AiFace = AiFace(indices: seq<U32>)

  /** `aiMesh`: `mVertices[0 .. mNumVertices)` and `mFaces[0 .. mNumFaces)`. */
  datatype AiMesh = AiMesh(vertices: seq<Vector3>, faces: seq<AiFace>)

  /** `aiNode`: `mMeshes[0 .. mNumMeshes)` and `mChildren[0 .. mNumChildren)`. */
  datatype AiNode = AiNode(meshRefs: seq<U32>, children: seq<AiNode>)

  /** `aiScene`: `mFlags`, `mMeshes` and `mRootNode`, which may be null. */
  datatype AiScene = AiScene(flags: bv32, meshes: seq<AiMesh>, root: Option<AiNode>)

  /** The `Mesh` struct: flat float triples and the vertex indices to draw. */
  datatype Mesh = Mesh(positions: seq<Float32>, indices: seq<U32>)

  // ---------------------------------------------------------------------------
  // What processMesh computes

  /** The vertices written out as x, y, z triples, one vertex after the other. */
  function Flatten(vs: seq<Vector3>): (r: seq<Float32>)
    ensures |r| == 3 * |vs|
  {
    if vs == [] then []
    else
      var v := vs[|vs| - 1];
      Flatten(vs[..|vs| - 1]) + [v.x, v.y, v.z]
  }

  /** Component `c` of vertex `i` of `vs` sits at `3 * i + c` of the flat buffer. */
  lemma {:induction false} FlattenAt(vs: seq<Vector3>, i: nat)
    requires i < |vs|
    ensures Flatten(vs)[3 * i] == vs[i].x
    ensures Flatten(vs)[3 * i + 1] == vs[i].y
    ensures Flatten(vs)[3 * i + 2] == vs[i].z
    decreases |vs|
  {
    var init := vs[..|vs| - 1];
    assert Flatten(vs) == Flatten(init) + [vs[|vs| - 1].x, vs[|vs| - 1].y, vs[|vs| - 1].z];
    if i < |vs| - 1 {
      FlattenAt(init, i);
      assert init[i] == vs[i];
    }
  }

  /** The index lists of the faces, one after the other, in face order. */
  function ConcatFaces(faces: seq<AiFace>): seq<U32>
  {
    if faces == [] then [] else ConcatFaces(faces[..|faces| - 1]) + faces[|faces| - 1].indices
  }

  /** The sum of the faces' `mNumIndices`. */
  function TotalIndices(faces: seq<AiFace>): nat
  {
    if faces == [] then 0 else TotalIndices(faces[..|faces| - 1]) + |faces[|faces| - 1].indices|
  }

  /** There are as many indices as the faces hold together. */
  lemma {:induction false} ConcatFacesLength(faces: seq<AiFace>)
    ensures |ConcatFaces(faces)| == TotalIndices(faces)
    decreases |faces|
  {
    if faces != [] {
      ConcatFacesLength(faces[..|faces| - 1]);
    }
  }

  /**
   * Index `j` of face `k` lands right after the indices of the faces before
   * `k`, so the faces keep their order and each face its own order.
   */
  lemma {:induction false} ConcatFacesAt(faces: seq<AiFace>, k: nat, j: nat)
    requires k < |faces| && j < |faces[k].indices|
    ensures TotalIndices(faces[..k]) + j < |ConcatFaces(faces)|
    ensures ConcatFaces(faces)[TotalIndices(faces[..k]) + j] == faces[k].indices[j]
    decreases |faces|
  {
    var init := faces[..|faces| - 1];
    ConcatFacesLength(init);
    ConcatFacesLength(faces);
    if k == |faces| - 1 {
      assert faces[..k] == init;
    } else {
      ConcatFacesAt(init, k, j);
      assert init[..k] == faces[..k];
      assert init[k] == faces[k];
    }
  }

  /** The mesh `processMesh` builds from an imported mesh. */
  function MeshOf(m: AiMesh): Mesh
  {
    Mesh(Flatten(m.vertices), ConcatFaces(m.faces))
  }

  // ---------------------------------------------------------------------------
  // What processNode collects

  /** The mesh references of a node tree in pre-order: a node's own, then each child's subtree. */
  function PreorderRefs(node: AiNode): seq<U32>
    decreases node, 1
  {
    node.meshRefs + ForestRefs(node.children)
  }

  /** The pre-order mesh references of a list of subtrees, in list order. */
  function ForestRefs(nodes: seq<AiNode>): seq<U32>
    decreases nodes, 0
  {
    if nodes == [] then []
    else ForestRefs(nodes[..|nodes| - 1]) + PreorderRefs(nodes[|nodes| - 1])
  }

  /** Every reference in the node tree names a mesh of an array of `n` meshes. */
  predicate RefsValid(node: AiNode, n: nat)
  {
    (forall k | 0 <= k < |node.meshRefs| :: node.meshRefs[k] as int < n)
    && (forall i | 0 <= i < |node.children| :: RefsValid(node.children[i], n))
  }

  predicate RefsBelow(refs: seq<U32>, n: nat)
  {
    forall k | 0 <= k < |refs| :: refs[k] as int < n
  }

  /** The processed meshes for a list of mesh references. */
  function MeshesFor(meshes: seq<AiMesh>, refs: seq<U32>): seq<Mesh>
    requires RefsBelow(refs, |meshes|)
  {
    seq(|refs|, k requires 0 <= k < |refs| => MeshOf(meshes[refs[k]]))
  }

  lemma MeshesForAppend(meshes: seq<AiMesh>, a: seq<U32>, b: seq<U32>)
    requires RefsBelow(a, |meshes|) && RefsBelow(b, |meshes|)
    ensures RefsBelow(a + b, |meshes|)
    ensures MeshesFor(meshes, a + b) == MeshesFor(meshes, a) + MeshesFor(meshes, b)
  {
    assert forall k | 0 <= k < |a + b| :: (a + b)[k] == if k < |a| then a[k] else b[k - |a|];
  }

  /** A tree whose references are valid yields only valid references. */
  lemma {:induction false} PreorderRefsBelow(node: AiNode, n: nat)
    requires RefsValid(node, n)
    ensures RefsBelow(PreorderRefs(node), n)
    decreases node, 1
  {
    ForestRefsBelow(node.children, n);
  }

  lemma {:induction false} ForestRefsBelow(nodes: seq<AiNode>, n: nat)
    requires forall i | 0 <= i < |nodes| :: RefsValid(nodes[i], n)
    ensures RefsBelow(ForestRefs(nodes), n)
    decreases nodes, 0
  {
    if nodes != [] {
      ForestRefsBelow(nodes[..|nodes| - 1], n);
      PreorderRefsBelow(nodes[|nodes| - 1], n);
    }
  }

  /**
   * The subtree of child `i` occupies one contiguous stretch of the parent's
   * pre-order, after the node's own references and the subtrees of the
   * children before `i`.
   */
  lemma ChildSubtreeInPreorder(node: AiNode, i: nat)
    requires i < |node.children|
    ensures
      var start := |node.meshRefs| + |ForestRefs(node.children[..i])|;
      var sub := PreorderRefs(node.children[i]);
      start + |sub| <= |PreorderRefs(node)|
      && PreorderRefs(node)[start .. start + |sub|] == sub
  {
    ForestInfix(node.children, i);
  }

  lemma {:induction false} ForestInfix(nodes: seq<AiNode>, i: nat)
    requires i < |nodes|
    ensures
      var start := |ForestRefs(nodes[..i])|;
      var sub := PreorderRefs(nodes[i]);
      start + |sub| <= |ForestRefs(nodes)|
      && ForestRefs(nodes)[start .. start + |sub|] == sub
    decreases |nodes|
  {
    var init := nodes[..|nodes| - 1];
    if i == |nodes| - 1 {
      assert nodes[..i] == init;
    } else {
      ForestInfix(init, i);
      assert init[..i] == nodes[..i];
      assert init[i] == nodes[i];
    }
  }

  // ---------------------------------------------------------------------------
  // What draw emits

  /**
   * `3 * idx + c` in `uint32_t` arithmetic: `3` converts to unsigned, so the
   * address wraps modulo 2^32.
   */
  function Addr(idx: U32, c: nat): nat
  {
    (3 * (idx as int) + c) % Pow32
  }

  /** Every address `draw` computes for the mesh is inside its position buffer. */
  predicate InRange(m: Mesh)
  {
    forall k | 0 <= k < |m.indices| ::
      Addr(m.indices[k], 0) < |m.positions| && Addr(m.indices[k], 1) < |m.positions|
      && Addr(m.indices[k], 2) < |m.positions|
  }

  predicate Drawable(ms: seq<Mesh>)
  {
    forall i | 0 <= i < |ms| :: InRange(ms[i])
  }

  /** The vertex read back for index `idx`. */
  function Fetch(positions: seq<Float32>, idx: U32): Vector3
    requires Addr(idx, 0) < |positions| && Addr(idx, 1) < |positions| && Addr(idx, 2) < |positions|
  {
    Vector3(positions[Addr(idx, 0)], positions[Addr(idx, 1)], positions[Addr(idx, 2)])
  }

  /** The vertices emitted for one mesh: one per index, in index order. */
  function EmitMesh(m: Mesh): (r: seq<Vector3>)
    requires InRange(m)
    ensures |r| == |m.indices|
    ensures forall k | 0 <= k < |m.indices| :: r[k] == Fetch(m.positions, m.indices[k])
    decreases |m.indices|
  {
    if m.indices == [] then []
    else
      var init := Mesh(m.positions, m.indices[..|m.indices| - 1]);
      EmitMesh(init) + [Fetch(m.positions, m.indices[|m.indices| - 1])]
  }

  /** The vertices emitted for a list of meshes, mesh after mesh. */
  function Emitted(ms: seq<Mesh>): seq<Vector3>
    requires Drawable(ms)
  {
    if ms == [] then [] else Emitted(ms[..|ms| - 1]) + EmitMesh(ms[|ms| - 1])
  }

  /** The number of indices of all meshes together. */
  function DrawCount(ms: seq<Mesh>): nat
  {
    if ms == [] then 0 else DrawCount(ms[..|ms| - 1]) + |ms[|ms| - 1].indices|
  }

  /** One vertex is emitted per index of every mesh. */
  lemma {:induction false} EmittedLength(ms: seq<Mesh>)
    requires Drawable(ms)
    ensures |Emitted(ms)| == DrawCount(ms)
    decreases |ms|
  {
    if ms != [] {
      EmittedLength(ms[..|ms| - 1]);
    }
  }

  /** Drawing two lists of meshes one after the other emits their vertices in that order. */
  lemma {:induction false} EmittedAppend(a: seq<Mesh>, b: seq<Mesh>)
    requires Drawable(a) && Drawable(b)
    ensures Drawable(a + b)
    ensures Emitted(a + b) == Emitted(a) + Emitted(b)
    decreases |b|
  {
    assert forall i | 0 <= i < |a + b| :: (a + b)[i] == if i < |a| then a[i] else b[i - |a|];
    if b == [] {
      assert a + b == a;
    } else {
      var init := b[..|b| - 1];
      EmittedAppend(a, init);
      assert (a + b)[..|a + b| - 1] == a + init;
    }
  }

  /**
   * The round trip: reading vertex `idx` back from the flat buffer through
   * `3 * idx + c` returns the vertex that was flattened, provided the buffer
   * is small enough for the 32-bit addresses not to wrap.
   */
  lemma FetchRoundTrip(vs: seq<Vector3>, idx: U32)
    requires idx as int < |vs| && 3 * |vs| <= Pow32
    ensures Addr(idx, 0) < |Flatten(vs)| && Addr(idx, 1) < |Flatten(vs)| && Addr(idx, 2) < |Flatten(vs)|
    ensures Fetch(Flatten(vs), idx) == vs[idx]
  {
    AddrNoWrap(idx, 0);
    AddrNoWrap(idx, 1);
    AddrNoWrap(idx, 2);
    FlattenAt(vs, idx as nat);
  }

  lemma AddrNoWrap(idx: U32, c: nat)
    requires 3 * (idx as int) + c < Pow32
    ensures Addr(idx, c) == 3 * (idx as int) + c
  {
  }

  /** An imported mesh whose indices name its vertices and whose buffer addresses do not wrap. */
  predicate WellIndexed(m: AiMesh)
  {
    3 * |m.vertices| <= Pow32
    && forall k | 0 <= k < |m.faces| :: forall j | 0 <= j < |m.faces[k].indices| ::
         m.faces[k].indices[j] as int < |m.vertices|
  }

  /** The imported vertices named by the faces, in face order, then index order. */
  function FaceVertices(m: AiMesh): (r: seq<Vector3>)
    requires WellIndexed(m)
  {
    var idxs := ConcatFaces(m.faces);
    ConcatIndicesBelow(m.faces, |m.vertices|);
    seq(|idxs|, k requires 0 <= k < |idxs| => m.vertices[idxs[k]])
  }

  lemma {:induction false} ConcatIndicesBelow(faces: seq<AiFace>, n: nat)
    requires forall k | 0 <= k < |faces| :: forall j | 0 <= j < |faces[k].indices| :: faces[k].indices[j] as int < n
    ensures RefsBelow(ConcatFaces(faces), n)
    decreases |faces|
  {
    if faces != [] {
      var init := faces[..|faces| - 1];
      assert forall k | 0 <= k < |init| :: init[k] == faces[k];
      ConcatIndicesBelow(init, n);
    }
  }

  /**
   * Drawing a processed mesh emits exactly the imported vertices its faces
   * name, in face order.
   */
  lemma DrawMeshRoundTrip(m: AiMesh)
    requires WellIndexed(m)
    ensures InRange(MeshOf(m))
    ensures EmitMesh(MeshOf(m)) == FaceVertices(m)
  {
    var idxs := ConcatFaces(m.faces);
    ConcatIndicesBelow(m.faces, |m.vertices|);
    forall k | 0 <= k < |idxs|
      ensures Addr(idxs[k], 0) < |Flatten(m.vertices)| && Addr(idxs[k], 1) < |Flatten(m.vertices)|
      ensures Addr(idxs[k], 2) < |Flatten(m.vertices)|
      ensures Fetch(Flatten(m.vertices), idxs[k]) == m.vertices[idxs[k]]
    {
      FetchRoundTrip(m.vertices, idxs[k]);
    }
  }

  /** The imported vertices a list of mesh references names, mesh after mesh. */
  function RefVertices(meshes: seq<AiMesh>, refs: seq<U32>): seq<Vector3>
    requires RefsBelow(refs, |meshes|)
    requires forall k | 0 <= k < |refs| :: WellIndexed(meshes[refs[k]])
  {
    if refs == [] then [] else RefVertices(meshes, refs[..|refs| - 1]) + FaceVertices(meshes[refs[|refs| - 1]])
  }

  /**
   * Load then draw: the vertices emitted for the meshes collected from a list
   * of references are the imported vertices of those meshes, in reference
   * order, each mesh in face order.
   */
  lemma {:induction false} DrawRoundTrip(meshes: seq<AiMesh>, refs: seq<U32>)
    requires RefsBelow(refs, |meshes|)
    requires forall k | 0 <= k < |refs| :: WellIndexed(meshes[refs[k]])
    ensures Drawable(MeshesFor(meshes, refs))
    ensures Emitted(MeshesFor(meshes, refs)) == RefVertices(meshes, refs)
    decreases |refs|
  {
    MeshesForDrawable(meshes, refs);
    if refs != [] {
      var init := refs[..|refs| - 1];
      DrawRoundTrip(meshes, init);
      var ms := MeshesFor(meshes, refs);
      assert ms[..|ms| - 1] == MeshesFor(meshes, init);
      DrawMeshRoundTrip(meshes[refs[|refs| - 1]]);
    }
  }

  lemma MeshesForDrawable(meshes: seq<AiMesh>, refs: seq<U32>)
    requires RefsBelow(refs, |meshes|)
    requires forall k | 0 <= k < |refs| :: WellIndexed(meshes[refs[k]])
    ensures Drawable(MeshesFor(meshes, refs))
  {
    forall k | 0 <= k < |refs|
      ensures InRange(MeshesFor(meshes, refs)[k])
    {
      DrawMeshRoundTrip(meshes[refs[k]]);
    }
  }

  // ---------------------------------------------------------------------------
  // The loader

  /** `load` goes on (does not abort) exactly when the import returned a complete scene with a root. */
  predicate LoadSucceeds(imported: Option<AiScene>)
  {
    imported.Some? && imported.value.flags & SceneFlagsIncomplete == 0 && imported.value.root.Some?
  }

  /**
   * `processMesh`: the positions are the vertices as float triples and the
   * indices the faces' index lists, one after the other.
   */
  method ProcessMesh(mesh: AiMesh) returns (polygon: Mesh)
    ensures |polygon.positions| == 3 * |mesh.vertices|
    ensures polygon.positions == Flatten(mesh.vertices)
    ensures polygon.indices == ConcatFaces(mesh.faces)
  {
    var positions: seq<Float32> := [];
    for i := 0 to |mesh.vertices|
      invariant positions == Flatten(mesh.vertices[..i])
    {
      var v := mesh.vertices[i];
      FlattenSnoc(mesh.vertices, i);
      positions := positions + [v.x];
      positions := positions + [v.y];
      positions := positions + [v.z];
    }
    assert mesh.vertices[..|mesh.vertices|] == mesh.vertices;
    var indices: seq<U32> := [];
    for i := 0 to |mesh.faces|
      invariant indices == ConcatFaces(mesh.faces[..i])
    {
      var face := mesh.faces[i];
      ghost var done := indices;
      for j := 0 to |face.indices|
        invariant indices == done + face.indices[..j]
      {
        indices := indices + [face.indices[j]];
        assert face.indices[..j + 1] == face.indices[..j] + [face.indices[j]];
      }
      assert face.indices[..|face.indices|] == face.indices;
      ConcatFacesSnoc(mesh.faces, i);
    }
    assert mesh.faces[..|mesh.faces|] == mesh.faces;
    polygon := Mesh(positions, indices);
  }

  lemma FlattenSnoc(vs: seq<Vector3>, i: nat)
    requires i < |vs|
    ensures Flatten(vs[..i + 1]) == Flatten(vs[..i]) + [vs[i].x, vs[i].y, vs[i].z]
  {
    assert vs[..i + 1][..i] == vs[..i];
  }

  lemma ConcatFacesSnoc(faces: seq<AiFace>, i: nat)
    requires i < |faces|
    ensures ConcatFaces(faces[..i + 1]) == ConcatFaces(faces[..i]) + faces[i].indices
  {
    assert faces[..i + 1][..i] == faces[..i];
  }

  class Model {
    /** The scene `load` imported; `None` stands for the initial null pointer. */
    var scene: Option<AiScene>
    var polygonMeshes: seq<Mesh>

    constructor ()
      ensures scene == None && polygonMeshes == []
    {
      scene := None;
      polygonMeshes := [];
    }

    /**
     * `processNode`: appends, after the meshes already collected, one
     * processed mesh per mesh reference of the subtree, in pre-order.
     */
    method ProcessNode(node: AiNode)
      requires scene.Some? && RefsValid(node, |scene.value.meshes|)
      modifies this`polygonMeshes
      ensures RefsBelow(PreorderRefs(node), |scene.value.meshes|)
      ensures polygonMeshes == old(polygonMeshes) + MeshesFor(scene.value.meshes, PreorderRefs(node))
      decreases node
    {
      var meshes := scene.value.meshes;
      ghost var start := polygonMeshes;
      PreorderRefsBelow(node, |meshes|);
      var collected := polygonMeshes;
      for i := 0 to |node.meshRefs|
        invariant RefsBelow(node.meshRefs[..i], |meshes|)
        invariant collected == start + MeshesFor(meshes, node.meshRefs[..i])
      {
        var m := ProcessMesh(meshes[node.meshRefs[i]]);
        MeshesForSnoc(meshes, node.meshRefs, i);
        collected := collected + [m];
      }
      polygonMeshes := collected;
      ghost var own := collected;
      for i := 0 to |node.children|
        invariant RefsBelow(ForestRefs(node.children[..i]), |meshes|)
        invariant polygonMeshes == own + MeshesFor(meshes, ForestRefs(node.children[..i]))
      {
        ghost var before := polygonMeshes;
        ProcessNode(node.children[i]);
        ChildMeshes(meshes, node.children, i, own, before);
      }
      NodeMeshes(meshes, node, start, own);
    }

    /**
     * `load`, given the result of the import: it goes on exactly when the
     * scene is present, complete and has a root, and then appends the meshes
     * of the tree in pre-order.
     */
    method Load(imported: Option<AiScene>) returns (ok: bool)
      requires LoadSucceeds(imported) ==> RefsValid(imported.value.root.value, |imported.value.meshes|)
      modifies this
      ensures ok <==> LoadSucceeds(imported)
      ensures scene == imported
      ensures !ok ==> polygonMeshes == old(polygonMeshes)
      ensures ok ==> RefsBelow(PreorderRefs(imported.value.root.value), |imported.value.meshes|)
      ensures ok ==>
        polygonMeshes == old(polygonMeshes) + MeshesFor(imported.value.meshes, PreorderRefs(imported.value.root.value))
    {
      scene := imported;
      if imported.None? || imported.value.flags & SceneFlagsIncomplete != 0 || imported.value.root.None? {
        return false;
      }
      ProcessNode(imported.value.root.value);
      ok := true;
    }

    /** `draw`: the vertices passed to `glVertex3f`, mesh after mesh, index after index. */
    method Draw() returns (emitted: seq<Vector3>)
      requires Drawable(polygonMeshes)
      ensures emitted == Emitted(polygonMeshes)
      ensures |emitted| == DrawCount(polygonMeshes)
    {
      var ms := polygonMeshes;
      emitted := [];
      for i := 0 to |ms|
        invariant emitted == Emitted(ms[..i])
      {
        var vs := DrawMesh(ms[i]);
        EmittedSnoc(ms, i);
        emitted := emitted + vs;
      }
      assert ms[..|ms|] == ms;
      EmittedLength(ms);
    }
  }

  /** The inner loop of `draw`, over the indices of one mesh. */
  method DrawMesh(mesh: Mesh) returns (emitted: seq<Vector3>)
    requires InRange(mesh)
    ensures emitted == EmitMesh(mesh)
  {
    emitted := [];
    for j := 0 to |mesh.indices|
      invariant emitted == EmitMesh(Mesh(mesh.positions, mesh.indices[..j]))
    {
      var idx := mesh.indices[j];
      var x := mesh.positions[Addr(idx, 0)];
      var y := mesh.positions[Addr(idx, 1)];
      var z := mesh.positions[Addr(idx, 2)];
      EmitMeshSnoc(mesh, j);
      emitted := emitted + [Vector3(x, y, z)];
    }
    assert mesh.indices[..|mesh.indices|] == mesh.indices;
  }

  lemma MeshesForSnoc(meshes: seq<AiMesh>, refs: seq<U32>, i: nat)
    requires i < |refs| && RefsBelow(refs[..i], |meshes|) && refs[i] as int < |meshes|
    ensures RefsBelow(refs[..i + 1], |meshes|)
    ensures MeshesFor(meshes, refs[..i + 1]) == MeshesFor(meshes, refs[..i]) + [MeshOf(meshes[refs[i]])]
  {
    assert refs[..i + 1][..i] == refs[..i];
  }

  /** Collecting the subtree of child `i` extends the meshes collected for the children before it. */
  lemma ChildMeshes(meshes: seq<AiMesh>, nodes: seq<AiNode>, i: nat, own: seq<Mesh>, before: seq<Mesh>)
    requires i < |nodes| && RefsBelow(ForestRefs(nodes[..i]), |meshes|)
    requires RefsBelow(PreorderRefs(nodes[i]), |meshes|)
    requires before == own + MeshesFor(meshes, ForestRefs(nodes[..i]))
    ensures RefsBelow(ForestRefs(nodes[..i + 1]), |meshes|)
    ensures before + MeshesFor(meshes, PreorderRefs(nodes[i])) == own + MeshesFor(meshes, ForestRefs(nodes[..i + 1]))
  {
    assert nodes[..i + 1][..i] == nodes[..i];
    MeshesForAppend(meshes, ForestRefs(nodes[..i]), PreorderRefs(nodes[i]));
  }

  lemma NodeMeshes(meshes: seq<AiMesh>, node: AiNode, start: seq<Mesh>, own: seq<Mesh>)
    requires RefsBelow(PreorderRefs(node), |meshes|)
    requires RefsBelow(node.meshRefs[..|node.meshRefs|], |meshes|)
    requires RefsBelow(ForestRefs(node.children[..|node.children|]), |meshes|)
    requires own == start + MeshesFor(meshes, node.meshRefs[..|node.meshRefs|])
    ensures own + MeshesFor(meshes, ForestRefs(node.children[..|node.children|]))
      == start + MeshesFor(meshes, PreorderRefs(node))
  {
    assert node.meshRefs[..|node.meshRefs|] == node.meshRefs;
    assert node.children[..|node.children|] == node.children;
    MeshesForAppend(meshes, node.meshRefs, ForestRefs(node.children));
  }

  lemma EmitMeshSnoc(mesh: Mesh, j: nat)
    requires InRange(mesh) && j < |mesh.indices|
    ensures InRange(Mesh(mesh.positions, mesh.indices[..j]))
    ensures InRange(Mesh(mesh.positions, mesh.indices[..j + 1]))
    ensures EmitMesh(Mesh(mesh.positions, mesh.indices[..j + 1]))
      == EmitMesh(Mesh(mesh.positions, mesh.indices[..j])) + [Fetch(mesh.positions, mesh.indices[j])]
  {
    assert mesh.indices[..j + 1][..j] == mesh.indices[..j];
  }

  lemma EmittedSnoc(ms: seq<Mesh>, i: nat)
    requires Drawable(ms) && i < |ms|
    ensures Drawable(ms[..i]) && Drawable(ms[..i + 1])
    ensures Emitted(ms[..i + 1]) == Emitted(ms[..i]) + EmitMesh(ms[i])
  {
    assert ms[..i + 1][..i] == ms[..i];
  }
}
