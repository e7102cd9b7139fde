# Scene-object tree and mesh flattening, modelled in Dafny

This project models two small components of the Arena engine and proves what they guarantee.

- **The scene-object tree** (`src/game_object/game_object.hpp`). Every `GameObject` has a
  position, a local and a world transform, a parent pointer and a list of children.
  - `addObject` links a parentless child.
  - `SceneTree` keeps a root.
  - `updateGameObjects` and `propagateTransform` walk the tree from the root with an explicit
    stack.
- **Mesh flattening and emission** (`src/model.hpp`). `Model::load` takes an imported scene and
  walks its node tree in pre-order.
  - For every mesh a node references, `processMesh` flattens the vertices into x, y, z float
    triples and concatenates the faces' index lists.
  - `draw` reads each indexed vertex back through `3 * idx + c` and emits it.

Files:

- `wrappers.dfy`: `Option`, which stands for a pointer that may be null.
- `gmath.dfy`: floats as 32-bit patterns, `Vector3`, and `Matrix4` as a term datatype
  (`Identity`, `Translation`, `Mul`).
- `scene_tree.dfy`, module `SceneGraph`: the tree.
  - Game objects live in an arena, and an `ObjectId` index stands for a `GameObject*`.
  - The class `SceneTree` holds one sequence per member of `BaseNode`/`GameObject`, plus `root`.
- `model.dfy`, module `Meshes`: the imported scene as plain datatypes (`AiScene`, `AiNode`,
  `AiMesh`, `AiFace`), the `Mesh` struct, and the class `Model` with `scene` and `polygonMeshes`.

The two traversals are specified by the predicate `IsTraversal`. A traversal from `r`:

- starts at `r`;
- names every object at most once;
- names every other object after its parent;
- is closed under children.

`TraversalIsLeast` shows that such a sequence names no object outside any children-closed set
that holds `r`. A traversal therefore names exactly the objects reachable from the root.

`propagateTransform` is specified by `Propagated`:

- the root's world transform is its local transform;
- every other reached object's world transform is `Mul(parent's final world, own local)`;
- every object that is not reached keeps its world transform.

On the mesh side, the specification functions are:

- `Flatten` and `ConcatFaces`, for `processMesh`;
- `PreorderRefs` and `MeshesFor`, for `processNode`;
- `EmitMesh` and `Emitted`, for `draw`.

## Model

| member | source | states |
|---|---|---|
| SceneGraph.SceneTree.constructor | src/game_object/game_object.hpp:68-69 | an empty tree whose root is null |
| SceneGraph.SceneTree.NewObject | src/game_object/game_object.hpp:9-13 | a new object has position zero, identity local and world transforms, no parent and no children; every other object is unchanged |
| SceneGraph.SceneTree.GetPosition | src/game_object/game_object.hpp:21-24 | returns the object's position |
| SceneGraph.SceneTree.UpdateLocalTransform | src/game_object/game_object.hpp:15-18 | the local transform becomes the translation by the object's position, and nothing else changes |
| SceneGraph.SceneTree.SetPosition | src/game_object/game_object.hpp:26-30 | the position reads back as the argument and the local transform becomes `Translation(pos)`; world transforms and links are unchanged |
| SceneGraph.SceneTree.GetLocalTransform | src/game_object/game_object.hpp:32-35 | returns the object's local transform |
| SceneGraph.SceneTree.GetWorldTransform | src/game_object/game_object.hpp:37-40 | returns the object's world transform |
| SceneGraph.SceneTree.SetWorldTransform | src/game_object/game_object.hpp:42-45 | only the world transform of that object changes, and it reads back as `m`; position and local transform are unchanged |
| SceneGraph.SceneTree.GetObjects | src/game_object/game_object.hpp:60-63 | returns the object's child list |
| SceneGraph.SceneTree.AddObject | src/game_object/game_object.hpp:52-58 | requires an existing, parentless `obj`; afterwards `obj`'s parent is `node` and `node`'s child list is the old one with `obj` appended; no other link changes and the links stay consistent |
| SceneGraph.AttachWellLinked | src/game_object/game_object.hpp:55-57 | linking a parentless object keeps every child list free of duplicates and matching the parent links; the object was in no child list at all before |
| SceneGraph.SingleParent | src/game_object/game_object.hpp:55-57 | with consistent links, an object in the child lists of `p` and `q` has `p == q` (at most one parent) |
| SceneGraph.SceneTree.SetRoot | src/game_object/game_object.hpp:71-76 | requires an existing, parentless object; only `root` changes, to that object |
| SceneGraph.SceneTree.UpdateGameObjects | src/game_object/game_object.hpp:78-95 | the loop terminates, and the sequence of objects `onUpdate` is called on is a traversal: root first, each object once, after its parent, every child of every visited object included |
| SceneGraph.TraversalIsLeast | src/game_object/game_object.hpp:85-94 | a traversal names only objects inside every children-closed set that holds the root, that is, only reachable objects |
| SceneGraph.TraversalsAgree | src/game_object/game_object.hpp:85-94 | two traversals from the same root name the same objects |
| SceneGraph.SceneTree.PropagateTransform | src/game_object/game_object.hpp:97-115 | the loop terminates; the root's world transform is its local one and each reached object's world transform is its parent's final world transform times its local one; positions, local transforms, links and unreached objects' world transforms are unchanged; the new world transforms are those of setting them one by one in visiting order |
| SceneGraph.RootOnCycle | src/game_object/game_object.hpp:85-94 | a root that is a child of its own child is not `RootOffCycle`: every children-closed set holding it holds its parent |
| SceneGraph.CycleThroughRoot | src/game_object/game_object.hpp:52-58 | `setRoot(a); a.addObject(b); b.addObject(a)` passes every assert and leaves a consistent tree whose root is on a cycle |
| SceneGraph.SetChildWorlds | src/game_object/game_object.hpp:108-113 | for the children of the popped object, in order: each child's world transform becomes the parent's times the child's local; the visiting order and the stack grow by exactly the child list, in child order |
| SceneGraph.WorldsAfterPropagated | src/game_object/game_object.hpp:103-113 | setting world transforms one by one along a traversal yields `Propagated`: the root gets its local transform, every other reached object its parent's final world times its local, and unreached objects keep theirs |
| SceneGraph.WorldsAfterStable | src/game_object/game_object.hpp:108-112 | along a traversal without repeats, a world transform is final once set, so a child reads its parent's final value |
| SceneGraph.WorldsAfterOutside | src/game_object/game_object.hpp:104-114 | an object the walk does not reach keeps its world transform |
| SceneGraph.PropagateIdempotent | src/game_object/game_object.hpp:103-111 | propagating again over the same links and local transforms returns exactly the same world transforms |
| Meshes.Flatten | src/model.hpp:54-60 | the flattened buffer has exactly `3 * n` floats for `n` vertices |
| Meshes.FlattenAt | src/model.hpp:56-59 | entries `3i`, `3i+1` and `3i+2` of the buffer are the x, y and z of vertex `i` |
| Meshes.ConcatFacesLength | src/model.hpp:61-68 | the index list has as many entries as the faces' `mNumIndices` add up to |
| Meshes.ConcatFacesAt | src/model.hpp:61-68 | index `j` of face `k` sits right after all indices of faces `0..k-1`, so faces and indices keep their order |
| Meshes.ProcessMesh | src/model.hpp:51-70 | returns `3 * mNumVertices` positions equal to the flattened vertices, and the faces' index lists concatenated in face order |
| Meshes.Model.constructor | src/model.hpp:17-20 | `scene` is null and `polygonMeshes` is empty |
| Meshes.Model.ProcessNode | src/model.hpp:38-49 | the earlier `polygonMeshes` stay a prefix, followed by one processed mesh per mesh reference of the subtree in pre-order: the node's own, then each child's subtree |
| Meshes.PreorderRefsBelow | src/model.hpp:40-47 | when every node's references name scene meshes, so does the whole pre-order sequence |
| Meshes.ChildSubtreeInPreorder | src/model.hpp:45-48 | each child's subtree is one contiguous stretch of the node's pre-order, after the node's own references and the earlier children's subtrees |
| Meshes.MeshesForAppend | src/model.hpp:40-48 | collecting two reference lists one after the other gives the two mesh lists concatenated |
| Meshes.Model.Load | src/model.hpp:22-36 | fails exactly when the scene is null, flagged incomplete or has no root node; otherwise `polygonMeshes` grows by the pre-order meshes of the root; on failure it is unchanged |
| Meshes.EmitMesh | src/model.hpp:77-83 | one vertex per index, the `k`th read from positions `3 * idx + 0..2` of index `k`, with 32-bit wrap-around of the address |
| Meshes.DrawMesh | src/model.hpp:77-83 | the inner loop of `draw` emits the mesh's vertices in index order |
| Meshes.Model.Draw | src/model.hpp:72-86 | emits, mesh after mesh, the vertices of every index; as many in total as the meshes have indices |
| Meshes.EmittedLength | src/model.hpp:75-84 | the number of vertices emitted is the sum of the meshes' index counts |
| Meshes.EmittedAppend | src/model.hpp:75-84 | drawing two mesh lists in a row emits their vertices in that order |
| Meshes.FetchRoundTrip | src/model.hpp:56-59 | reading vertex `idx` back from the flattened buffer through `3*idx + c` returns the original vertex, when the buffer is below 2^32 floats |
| Meshes.DrawMeshRoundTrip | src/model.hpp:54-68 | drawing a processed mesh whose indices name its vertices, and whose 32-bit addresses `3*idx + c` do not wrap, emits exactly the imported vertices the faces name, in face order |
| Meshes.DrawRoundTrip | src/model.hpp:38-49 | load then draw: for meshes collected from a reference list, each with indices that name its vertices and 32-bit addresses `3*idx + c` that do not wrap, the emitted vertices are the imported vertices of those meshes, mesh by mesh, in face order |

## Left out

- `onUpdate(dt)` is a user-supplied virtual call. `UpdateGameObjects` returns the ids it is called on, in call order. The model assumes the call does not change the tree, and `dt` is not modelled.
- `SceneGraph.SceneTree.UpdateGameObjects`: requires that the walk never comes back to the root (`RootOffCycle`). Either the root has no parent, or its parent lies outside some children-closed set that holds the root. The source checks only that the root is non-null. A later `addObject` can link the root below its own subtree, and then the C++ loop never ends (see "## Findings"). A root whose parent is not below it is covered.
- `SceneGraph.SceneTree.PropagateTransform`: requires `RootOffCycle` for the same reason as `UpdateGameObjects`. Without it the C++ walk never ends.
- Pointer identity, ownership and lifetime of `GameObject*` are not modelled. Objects are arena indices. `assert(obj)` becomes "the index is in the arena", and a null parent or root becomes `None`.
- `SceneGraph.SceneTree.PropagateTransform` writes the world transforms into the field once, after the walk. The source writes each one as it goes. The walk reads only world transforms it has itself just set, so the result is the same. The inner loop over the children is the separate method `SetChildWorlds`, and `draw`'s inner loop is `DrawMesh`. The visiting order `visited` is ghost: the source does not record it.
- Single-precision float arithmetic (`src/gmath.hpp`) is not modelled. `mat4Identity`, `mat4CreateTranslation` and `mat4Multiply` are the constructors of the datatype `Matrix4`, and associativity is not assumed. As constructors they are distinct and injective, which real matrices are not. No proof relies on that: the proofs also go through with `Matrix4` an abstract type and the three operations unknown functions. Floats are only copied in the modelled code, so they are kept as bit patterns.
- Camera and projection math (`src/camera.hpp`) and the application loop (`src/main.cpp`) are not part of this model.
- `Importer::ReadFile` is not modelled: `Load` receives the imported scene as an argument, and the `assert(path)` on the file name goes with it. `printf` plus `abort()` become the `false` result. The `aiScene*` kept after the importer is destroyed is not modelled either.
- `Meshes.Model.ProcessNode`: requires every mesh reference of the tree to name a mesh of the scene. The source indexes `mMeshes` unchecked, which Assimp guarantees is valid. `Load` needs the same only when loading goes on.
- `Meshes.Model.Draw`: requires every address `3 * idx + c` to lie inside the mesh's `positions`. The source reads `std::vector` with `operator[]` unchecked, and an address out of range is undefined behaviour.
- `Meshes.FetchRoundTrip`: the round trip is stated only for meshes with fewer than about 1.43 billion vertices (`3 * n <= 2^32`). Above that, the `uint32_t` product `3 * idx` wraps. `Addr` models the wrap, and `EmitMesh` and `Draw` are stated with it.
- Skeletal animation (bone hierarchy, animation curves, skinning) is not in `src/game_object/game_object.hpp` or `src/model.hpp`, so it is not part of this model. `load` accepts a scene with no meshes, and so does `Load`.

## Findings

| source | as written | input that shows it | evidently intended | confidence | as-written member | corrected member |
|---|---|---|---|---|---|---|
| src/game_object/game_object.hpp:52-58 | `addObject` asserts only that `obj` is non-null and parentless, so the root, or any ancestor of `this`, can be linked below `this` | `setRoot(a); a.addObject(b); b.addObject(a)`: every assert passes, and `updateGameObjects` and `propagateTransform` then push `a` and `b` forever | the walks end and visit each reachable object once on every tree the API builds; the model proves this for every root whose walk never comes back to it (`RootOffCycle`) | not executed | SceneGraph.CycleThroughRoot | SceneGraph.SceneTree.UpdateGameObjects |
