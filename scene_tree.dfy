/**
 * The scene-object tree of src/game_object/game_object.hpp.
 *
 * Game objects live in an arena addressed by index: an index stands for a
 * `GameObject*`, and `None` for a null pointer. `SceneTree` keeps one sequence
 * per member of `GameObject` (and of its base `BaseNode`), so that object `i`
 * has position `position[i]`, parent `parent[i]` and so on, next to the `root`
 * link of the C++ `SceneTree`.
 */
module SceneGraph {
  import opened Wrappers
  import opened GMath

  /** Index of a game object in the arena. */
  type ObjectId = nat

  ghost predicate NoDup(s: seq<ObjectId>)
  {
    forall i, j | 0 <= i < j < |s| :: s[i] != s[j]
  }

  /** The indices below `n`, written out so that membership has a trigger. */
  ghost function IdsBelow(n: nat): (s: set<ObjectId>)
    ensures forall i: ObjectId :: i in s <==> i < n
  {
    if n == 0 then {} else IdsBelow(n - 1) + {n - 1}
  }

  /**
   * The links are consistent: a child list names exactly the objects whose
   * parent is that object, every index is in the arena, and no child list
   * names an object twice.
   */
  ghost predicate WellLinked(parent: seq<Option<ObjectId>>, objects: seq<seq<ObjectId>>)
  {
    |parent| == |objects|
    && (forall i | 0 <= i < |parent| && parent[i].Some? ::
          parent[i].value < |objects| && i in objects[parent[i].value])
    && (forall i, k | 0 <= i < |objects| && 0 <= k < |objects[i]| ::
          objects[i][k] < |parent| && parent[objects[i][k]] == Some(i))
    && (forall i | 0 <= i < |objects| :: NoDup(objects[i]))
  }

  /** Every object has at most one parent: no object is in two child lists. */
  lemma SingleParent(parent: seq<Option<ObjectId>>, objects: seq<seq<ObjectId>>, c: ObjectId, p: ObjectId, q: ObjectId)
    requires WellLinked(parent, objects) && p < |objects| && q < |objects|
    requires c in objects[p] && c in objects[q]
    ensures p == q
  {
    var i :| 0 <= i < |objects[p]| && objects[p][i] == c;
    var j :| 0 <= j < |objects[q]| && objects[q][j] == c;
  }

  /**
   * Linking a parentless `obj` under `p`, as `addObject` does, keeps the links
   * consistent; in particular `obj` did not occur in any child list before,
   * so no child list gains a duplicate.
   */
  lemma AttachWellLinked(parent: seq<Option<ObjectId>>, objects: seq<seq<ObjectId>>, p: ObjectId, obj: ObjectId)
    requires WellLinked(parent, objects) && p < |parent| && obj < |parent| && parent[obj].None?
    ensures forall q | 0 <= q < |objects| :: obj !in objects[q]
    ensures WellLinked(parent[obj := Some(p)], objects[p := objects[p] + [obj]])
  {
    var parent', objects' := parent[obj := Some(p)], objects[p := objects[p] + [obj]];
    assert forall k | 0 <= k < |objects[p]| :: objects[p][k] != obj;
    forall i | 0 <= i < |parent'| && parent'[i].Some?
      ensures parent'[i].value < |objects'| && i in objects'[parent'[i].value]
    {
      if i != obj {
        assert i in objects[parent[i].value];
      }
    }
    forall i, k | 0 <= i < |objects'| && 0 <= k < |objects'[i]|
      ensures objects'[i][k] < |parent'| && parent'[objects'[i][k]] == Some(i)
    {
      if !(i == p && k == |objects[p]|) {
        assert objects'[i][k] == objects[i][k];
      }
    }
    forall i | 0 <= i < |objects'|
      ensures NoDup(objects'[i])
    {
      assert NoDup(objects[i]);
    }
  }

  /**
   * `t` is a traversal of the tree below `r`: it starts at `r`, names each
   * object once, names the parent of every other object it names and names
   * it earlier, and names every child of every object it names.
   */
  ghost predicate IsTraversal(parent: seq<Option<ObjectId>>, objects: seq<seq<ObjectId>>, r: ObjectId, t: seq<ObjectId>)
  {
    |parent| == |objects|
    && |t| > 0 && t[0] == r
    && (forall j | 0 <= j < |t| :: t[j] < |parent|)
    && NoDup(t)
    && (forall j | 0 < j < |t| :: parent[t[j]].Some? && parent[t[j]].value < |parent| && parent[t[j]].value in t)
    && (forall i, j | 0 <= i < |t| && 0 <= j < |t| && parent[t[j]] == Some(t[i]) :: i < j)
    && (forall j, k | 0 <= j < |t| && 0 <= k < |objects[t[j]]| :: objects[t[j]][k] in t)
  }

  /** `s` holds valid indices and every child of everything it holds. */
  ghost predicate ClosedUnderChildren(objects: seq<seq<ObjectId>>, s: set<ObjectId>)
  {
    (forall x | x in s :: x < |objects|)
    && (forall x, k | x in s && 0 <= k < |objects[x]| :: objects[x][k] in s)
  }

  /**
   * The walk from `r` never comes back to `r`: `r` has no parent, or its
   * parent lies outside some children-closed set that holds `r`, so the
   * parent is not reachable from `r`.
   */
  ghost predicate RootOffCycle(parent: seq<Option<ObjectId>>, objects: seq<seq<ObjectId>>, r: ObjectId)
  {
    r < |parent|
    && (parent[r].Some? ==>
          exists s: set<ObjectId> :: r in s && ClosedUnderChildren(objects, s) && parent[r].value !in s)
  }

  /** A root that is a child of its own child is on a cycle: the walk from it comes back to it. */
  lemma RootOnCycle(parent: seq<Option<ObjectId>>, objects: seq<seq<ObjectId>>, a: ObjectId, b: ObjectId)
    requires a < |parent| && a < |objects| && parent[a] == Some(b) && b in objects[a]
    ensures !RootOffCycle(parent, objects, a)
  {
    forall s: set<ObjectId> | a in s && ClosedUnderChildren(objects, s)
      ensures b in s
    {
      var k :| 0 <= k < |objects[a]| && objects[a][k] == b;
    }
  }

  /** A children-closed set that holds the root and not the root's parent. */
  lemma RootSet(parent: seq<Option<ObjectId>>, objects: seq<seq<ObjectId>>, r: ObjectId) returns (s: set<ObjectId>)
    requires WellLinked(parent, objects) && RootOffCycle(parent, objects, r)
    ensures r in s && ClosedUnderChildren(objects, s) && (parent[r].Some? ==> parent[r].value !in s)
  {
    if parent[r].None? {
      s := IdsBelow(|parent|);
    } else {
      s :| r in s && ClosedUnderChildren(objects, s) && parent[r].value !in s;
    }
  }

  /**
   * A traversal names only objects reachable from `r`: it lies inside every
   * children-closed set that holds `r`. Since a traversal is itself closed
   * under children, it names exactly the objects reachable from `r`.
   */
  lemma TraversalIsLeast(parent: seq<Option<ObjectId>>, objects: seq<seq<ObjectId>>, r: ObjectId,
                         t: seq<ObjectId>, s: set<ObjectId>)
    requires WellLinked(parent, objects) && IsTraversal(parent, objects, r, t)
    requires r in s && ClosedUnderChildren(objects, s)
    ensures forall x | x in t :: x in s
  {
    forall j | 0 <= j < |t|
      ensures t[j] in s
    {
      TraversalPrefixIn(parent, objects, r, t, s, j);
    }
  }

  lemma {:induction false} TraversalPrefixIn(parent: seq<Option<ObjectId>>, objects: seq<seq<ObjectId>>, r: ObjectId,
                                             t: seq<ObjectId>, s: set<ObjectId>, j: nat)
    requires WellLinked(parent, objects) && IsTraversal(parent, objects, r, t)
    requires r in s && ClosedUnderChildren(objects, s)
    requires j < |t|
    ensures t[j] in s
    decreases j
  {
    if j > 0 {
      var p := parent[t[j]].value;
      var i :| 0 <= i < |t| && t[i] == p;
      assert i < j;
      TraversalPrefixIn(parent, objects, r, t, s, i);
      assert t[j] in objects[p];
    }
  }

  /** Any two traversals from the same root name the same objects. */
  lemma TraversalsAgree(parent: seq<Option<ObjectId>>, objects: seq<seq<ObjectId>>, r: ObjectId,
                        t: seq<ObjectId>, u: seq<ObjectId>)
    requires WellLinked(parent, objects)
    requires IsTraversal(parent, objects, r, t) && IsTraversal(parent, objects, r, u)
    ensures forall x :: x in t <==> x in u
  {
    var st := set x | x in t;
    var su := set x | x in u;
    forall x, k | x in su && 0 <= k < |objects[x]|
      ensures objects[x][k] in su
    {
      var j :| 0 <= j < |u| && u[j] == x;
    }
    TraversalIsLeast(parent, objects, r, t, su);
    forall x, k | x in st && 0 <= k < |objects[x]|
      ensures objects[x][k] in st
    {
      var j :| 0 <= j < |t| && t[j] == x;
    }
    TraversalIsLeast(parent, objects, r, u, st);
  }

  /**
   * The outcome of `propagateTransform` over the traversal `t` from `r`: a
   * world transform changes only for objects in `t`; the root's world
   * transform is its local transform, and every other reached object's is
   * its parent's world transform times its own local one.
   */
  ghost predicate Propagated(parent: seq<Option<ObjectId>>, objects: seq<seq<ObjectId>>, local: seq<Matrix4>,
                             before: seq<Matrix4>, after: seq<Matrix4>, r: ObjectId, t: seq<ObjectId>)
  {
    IsTraversal(parent, objects, r, t)
    && |local| == |before| == |after| == |parent|
    && (forall i | 0 <= i < |after| && i !in t :: after[i] == before[i])
    && after[r] == local[r]
    && (forall j | 0 < j < |t| :: after[t[j]] == Mul(after[parent[t[j]].value], local[t[j]]))
  }

  /**
   * Propagating twice is propagating once: the world transforms are
   * determined by the local transforms and the links, which propagation does
   * not change.
   */
  lemma PropagateIdempotent(parent: seq<Option<ObjectId>>, objects: seq<seq<ObjectId>>, local: seq<Matrix4>,
                            w0: seq<Matrix4>, w1: seq<Matrix4>, w2: seq<Matrix4>,
                            r: ObjectId, t1: seq<ObjectId>, t2: seq<ObjectId>)
    requires WellLinked(parent, objects)
    requires Propagated(parent, objects, local, w0, w1, r, t1)
    requires Propagated(parent, objects, local, w1, w2, r, t2)
    ensures w2 == w1
  {
    TraversalsAgree(parent, objects, r, t1, t2);
    forall i | 0 <= i < |w1|
      ensures w2[i] == w1[i]
    {
      if i in t2 {
        var j :| 0 <= j < |t2| && t2[j] == i;
        WorldsAgree(parent, objects, local, w0, w1, w2, r, t1, t2, j);
      }
    }
  }

  lemma {:induction false} WorldsAgree(parent: seq<Option<ObjectId>>, objects: seq<seq<ObjectId>>, local: seq<Matrix4>,
                                       w0: seq<Matrix4>, w1: seq<Matrix4>, w2: seq<Matrix4>,
                                       r: ObjectId, t1: seq<ObjectId>, t2: seq<ObjectId>, j: nat)
    requires WellLinked(parent, objects)
    requires Propagated(parent, objects, local, w0, w1, r, t1)
    requires Propagated(parent, objects, local, w1, w2, r, t2)
    requires forall x :: x in t1 <==> x in t2
    requires j < |t2|
    ensures w2[t2[j]] == w1[t2[j]]
    decreases j
  {
    var x := t2[j];
    if j > 0 {
      var p := parent[x].value;
      var i :| 0 <= i < |t2| && t2[i] == p;
      assert i < j;
      WorldsAgree(parent, objects, local, w0, w1, w2, r, t1, t2, i);
      assert x in t1;
      var k :| 0 <= k < |t1| && t1[k] == x;
      assert k != 0 by {
        assert t2[0] == r && t2[j] == x;
      }
    }
  }

  /**
   * The world transforms after `propagateTransform` has set them along `t`,
   * in order, starting from `before`: the first entry gets its own local
   * transform and each later one its parent's current world transform times
   * its own local transform.
   */
  ghost function WorldsAfter(parent: seq<Option<ObjectId>>, local: seq<Matrix4>, before: seq<Matrix4>,
                             t: seq<ObjectId>): (w: seq<Matrix4>)
    ensures |w| == |before|
    decreases |t|
  {
    if t == [] then before
    else
      var w := WorldsAfter(parent, local, before, t[..|t| - 1]);
      var x := t[|t| - 1];
      if x >= |w| || x >= |local| then w
      else if |t| == 1 then w[x := local[x]]
      else if x < |parent| && parent[x].Some? && parent[x].value < |w| then w[x := Mul(w[parent[x].value], local[x])]
      else w
  }

  /** Setting the world transform of one more child extends `WorldsAfter` by that child. */
  lemma WorldsAfterSnoc(parent: seq<Option<ObjectId>>, local: seq<Matrix4>, before: seq<Matrix4>,
                        t: seq<ObjectId>, c: ObjectId)
    requires t != [] && c < |before| == |local| && c < |parent| && parent[c].Some? && parent[c].value < |before|
    ensures WorldsAfter(parent, local, before, t + [c])
         == WorldsAfter(parent, local, before, t)[c := Mul(WorldsAfter(parent, local, before, t)[parent[c].value], local[c])]
  {
    var t' := t + [c];
    assert t'[..|t'| - 1] == t;
    assert t'[|t'| - 1] == c && |t'| != 1;
  }

  /** An object that `t` does not name keeps its world transform. */
  lemma {:induction false} WorldsAfterOutside(parent: seq<Option<ObjectId>>, local: seq<Matrix4>, before: seq<Matrix4>,
                                              t: seq<ObjectId>, x: ObjectId)
    requires x < |before| && x !in t
    ensures WorldsAfter(parent, local, before, t)[x] == before[x]
    decreases |t|
  {
    if t != [] {
      var t' := t[..|t| - 1];
      assert x !in t' by {
        forall i | 0 <= i < |t'|
          ensures t'[i] != x
        {
          assert t'[i] == t[i];
        }
      }
      WorldsAfterOutside(parent, local, before, t', x);
    }
  }

  /** Without repetitions in `t`, an entry's world transform is final once it has been set. */
  lemma {:induction false} WorldsAfterStable(parent: seq<Option<ObjectId>>, local: seq<Matrix4>, before: seq<Matrix4>,
                                             t: seq<ObjectId>, i: nat)
    requires NoDup(t) && i < |t| && (forall j | 0 <= j < |t| :: t[j] < |before|)
    ensures WorldsAfter(parent, local, before, t)[t[i]] == WorldsAfter(parent, local, before, t[..i + 1])[t[i]]
    decreases |t|
  {
    if i < |t| - 1 {
      var t' := t[..|t| - 1];
      assert t'[..i + 1] == t[..i + 1];
      assert t'[i] == t[i];
      assert NoDup(t') by {
        forall a, b | 0 <= a < b < |t'|
          ensures t'[a] != t'[b]
        {
          assert t'[a] == t[a] && t'[b] == t[b];
        }
      }
      WorldsAfterStable(parent, local, before, t', i);
    } else {
      assert t[..i + 1] == t;
    }
  }

  /**
   * `WorldsAfter` along a traversal from `r` meets
   * `Propagated`: the root gets its local transform, every other object
   * reached its parent's final world transform times its local transform.
   */
  lemma WorldsAfterPropagated(parent: seq<Option<ObjectId>>, objects: seq<seq<ObjectId>>, local: seq<Matrix4>,
                              before: seq<Matrix4>, r: ObjectId, t: seq<ObjectId>)
    requires IsTraversal(parent, objects, r, t) && |local| == |before| == |parent|
    ensures Propagated(parent, objects, local, before, WorldsAfter(parent, local, before, t), r, t)
  {
    var after := WorldsAfter(parent, local, before, t);
    forall i | 0 <= i < |after| && i !in t
      ensures after[i] == before[i]
    {
      WorldsAfterOutside(parent, local, before, t, i);
    }
    WorldsAfterStable(parent, local, before, t, 0);
    assert t[..1] == [r];
    assert t[..1][..0] == [];
    forall j | 0 < j < |t|
      ensures after[t[j]] == Mul(after[parent[t[j]].value], local[t[j]])
    {
      var i := ParentIndex(parent, objects, r, t, j);
      WorldsAfterChild(parent, local, before, t, i, j);
    }
  }

  /** In a traversal, the parent of a later entry is an earlier entry. */
  lemma ParentIndex(parent: seq<Option<ObjectId>>, objects: seq<seq<ObjectId>>, r: ObjectId, t: seq<ObjectId>, j: nat)
      returns (i: nat)
    requires IsTraversal(parent, objects, r, t) && 0 < j < |t|
    ensures i < j && parent[t[j]] == Some(t[i])
  {
    i :| 0 <= i < |t| && t[i] == parent[t[j]].value;
  }

  /** The world transform of a child is its parent's final world transform times its own local transform. */
  lemma WorldsAfterChild(parent: seq<Option<ObjectId>>, local: seq<Matrix4>, before: seq<Matrix4>,
                         t: seq<ObjectId>, i: nat, j: nat)
    requires NoDup(t) && (forall k | 0 <= k < |t| :: t[k] < |before|) && |local| == |before| == |parent|
    requires i < j < |t| && parent[t[j]] == Some(t[i])
    ensures WorldsAfter(parent, local, before, t)[t[j]]
         == Mul(WorldsAfter(parent, local, before, t)[t[i]], local[t[j]])
  {
    var x, p, tj := t[j], t[i], t[..j];
    PrefixFacts(t, i, j);
    ghost var w, wj := WorldsAfter(parent, local, before, t), WorldsAfter(parent, local, before, tj);
    WorldsAfterStable(parent, local, before, t, j);
    WorldsAfterSnoc(parent, local, before, tj, x);
    assert w[x] == Mul(wj[p], local[x]);
    WorldsAfterStable(parent, local, before, tj, i);
    WorldsAfterStable(parent, local, before, t, i);
  }

  /** The prefixes of a sequence without repetitions, as `WorldsAfterChild` needs them. */
  lemma PrefixFacts(t: seq<ObjectId>, i: nat, j: nat)
    requires NoDup(t) && i < j < |t|
    ensures t[..j + 1] == t[..j] + [t[j]] && t[..j][i] == t[i] && t[..j][..i + 1] == t[..i + 1]
    ensures NoDup(t[..j]) && (forall k | 0 <= k < j :: t[..j][k] == t[k])
  {
    var tj := t[..j];
    forall a, b | 0 <= a < b < |tj|
      ensures tj[a] != tj[b]
    {
      assert tj[a] == t[a] && tj[b] == t[b];
    }
  }

  class SceneTree {
    // One entry per game object: the members of BaseNode ...
    var position: seq<Vector3>
    var localTransform: seq<Matrix4>
    var worldTransform: seq<Matrix4>
    // ... and of GameObject.
    var parent: seq<Option<ObjectId>>
    var objects: seq<seq<ObjectId>>
    // The member of SceneTree.
    var root: Option<ObjectId>

    ghost predicate Valid()
      reads this
    {
      |position| == |localTransform| == |worldTransform| == |parent|
      && WellLinked(parent, objects)
      && (root.Some? ==> root.value < |parent|)
    }

    /** An empty arena, and `root` is null. */
    constructor ()
      ensures Valid() && |parent| == 0 && root == None
    {
      position, localTransform, worldTransform := [], [], [];
      parent, objects := [], [];
      root := None;
    }

    /** A new game object, every member at its default initialiser. */
    method NewObject() returns (id: ObjectId)
      requires Valid()
      modifies this`position, this`localTransform, this`worldTransform, this`parent, this`objects
      ensures Valid() && id == old(|parent|)
      ensures position == old(position) + [Vec3Zero]
      ensures localTransform == old(localTransform) + [Identity]
      ensures worldTransform == old(worldTransform) + [Identity]
      ensures parent == old(parent) + [None]
      ensures objects == old(objects) + [[]]
    {
      id := |parent|;
      position := position + [Vec3Zero];
      localTransform := localTransform + [Identity];
      worldTransform := worldTransform + [Identity];
      parent := parent + [None];
      objects := objects + [[]];
      assert forall i | 0 <= i < |objects| - 1 :: objects[i] == old(objects[i]);
    }

    method GetPosition(id: ObjectId) returns (p: Vector3)
      requires Valid() && id < |parent|
      ensures p == position[id]
    {
      p := position[id];
    }

    /** The private `updateLocalTransform`: the local transform becomes the translation by the position. */
    method UpdateLocalTransform(id: ObjectId)
      requires Valid() && id < |parent|
      modifies this`localTransform
      ensures Valid()
      ensures localTransform == old(localTransform)[id := Translation(position[id])]
    {
      localTransform := localTransform[id := Translation(position[id])];
    }

    /**
     * `setPosition`: the position reads back as `pos` and the local transform
     * is the translation by `pos`; the world transform is not touched.
     */
    method SetPosition(id: ObjectId, pos: Vector3)
      requires Valid() && id < |parent|
      modifies this`position, this`localTransform
      ensures Valid()
      ensures position == old(position)[id := pos]
      ensures localTransform == old(localTransform)[id := Translation(pos)]
    {
      position := position[id := pos];
      UpdateLocalTransform(id);
    }

    method GetLocalTransform(id: ObjectId) returns (m: Matrix4)
      requires Valid() && id < |parent|
      ensures m == localTransform[id]
    {
      m := localTransform[id];
    }

    method GetWorldTransform(id: ObjectId) returns (m: Matrix4)
      requires Valid() && id < |parent|
      ensures m == worldTransform[id]
    {
      m := worldTransform[id];
    }

    /** `setWorldTransform`: the world transform of `id` reads back as `m`; position and local transform are not touched. */
    method SetWorldTransform(id: ObjectId, m: Matrix4)
      requires Valid() && id < |parent|
      modifies this`worldTransform
      ensures Valid()
      ensures worldTransform == old(worldTransform)[id := m]
    {
      worldTransform := worldTransform[id := m];
    }

    method GetObjects(id: ObjectId) returns (children: seq<ObjectId>)
      requires Valid() && id < |parent|
      ensures children == objects[id]
    {
      children := objects[id];
    }

    /**
     * `node.addObject(obj)`: the asserts demand an existing, parentless
     * `obj`. Afterwards `obj`'s parent is `node` and `node`'s child list is
     * the old one with `obj` appended; no other link changes.
     */
    method AddObject(node: ObjectId, obj: ObjectId)
      requires Valid() && node < |parent| && obj < |parent|
      requires parent[obj].None?
      modifies this`parent, this`objects
      ensures Valid()
      ensures parent == old(parent)[obj := Some(node)]
      ensures objects == old(objects)[node := old(objects[node]) + [obj]]
    {
      AttachWellLinked(parent, objects, node, obj);
      parent := parent[obj := Some(node)];
      objects := objects[node := objects[node] + [obj]];
    }

    /** `setRoot`: the asserts demand an existing, parentless `obj`; only `root` changes. */
    method SetRoot(obj: ObjectId)
      requires Valid() && obj < |parent| && parent[obj].None?
      modifies this`root
      ensures Valid() && root == Some(obj)
    {
      root := Some(obj);
    }

    /**
     * `updateGameObjects`: the objects on which `onUpdate` is called, in call
     * order. The root comes first, every object after its parent, and every
     * object reachable from the root exactly once (see `TraversalIsLeast`).
     * The tree is not changed. The loop ends only when the walk never comes
     * back to the root (`RootOffCycle`); `setRoot` checked that the root was
     * parentless, but a later `addObject` can link it below its own subtree.
     */
    method UpdateGameObjects() returns (calls: seq<ObjectId>)
      requires Valid() && root.Some? && RootOffCycle(parent, objects, root.value)
      ensures IsTraversal(parent, objects, root.value, calls)
    {
      var links, children := parent, objects;
      var r := root.value;
      ghost var S := RootSet(links, children, r);
      var stack := [r];
      calls := [r];
      ghost var pidx: seq<nat> := [0];
      ghost var reached: set<ObjectId> := {r};
      ghost var popped: set<ObjectId> := {};
      ghost var remaining := IdsBelow(|links|);
      assert Elems(stack) == {r};
      while |stack| > 0
        invariant TraversalLoop(links, children, r, S, calls, pidx, reached, stack, popped)
        invariant remaining == IdsBelow(|links|) - popped
        decreases remaining
      {
        var p := stack[|stack| - 1];
        ghost var pi := PopKeeps(links, children, r, S, calls, pidx, reached, stack, popped);
        stack := stack[..|stack| - 1];
        var kids := children[p];
        var k := 0;
        while k < |kids|
          invariant ChildLoop(links, children, r, S, calls, pidx, reached, stack, popped, p, pi, k)
        {
          var c := kids[k];
          ChildIsNew(links, children, r, S, calls, pidx, reached, stack, popped, p, pi, k);
          ChildStep(links, children, r, S, calls, pidx, reached, stack, popped, p, pi, k);
          calls, pidx, reached := calls + [c], pidx + [pi], reached + {c};
          stack := stack + [c];
          k := k + 1;
        }
        assert k == |children[p]|;
        ChildLoopDone(links, children, r, S, calls, pidx, reached, stack, popped, p, pi);
        popped := popped + {p};
        remaining := remaining - {p};
      }
      TraversalLoopDone(links, children, r, S, calls, pidx, reached, popped);
    }

    /**
     * `propagateTransform`: afterwards the root's world transform is its
     * local transform and every object reachable from the root has as world
     * transform its parent's final world transform times its own local
     * transform; positions, local transforms, links and the world transforms
     * of unreachable objects are unchanged. `visited` is the order in which
     * objects were reached.
     */
    method PropagateTransform() returns (ghost visited: seq<ObjectId>)
      requires Valid() && root.Some? && RootOffCycle(parent, objects, root.value)
      modifies this`worldTransform
      ensures Valid()
      ensures IsTraversal(parent, objects, root.value, visited)
      ensures worldTransform == WorldsAfter(parent, localTransform, old(worldTransform), visited)
      ensures Propagated(parent, objects, localTransform, old(worldTransform), worldTransform, root.value, visited)
    {
      var links, children, locals := parent, objects, localTransform;
      ghost var before := worldTransform;
      var r := root.value;
      ghost var S := RootSet(links, children, r);
      var stack := [r];
      visited := [r];
      var world := worldTransform[r := locals[r]];
      assert [r][..0] == [];
      ghost var pidx: seq<nat> := [0];
      ghost var reached: set<ObjectId> := {r};
      ghost var popped: set<ObjectId> := {};
      ghost var remaining := IdsBelow(|links|);
      assert Elems(stack) == {r};
      while |stack| > 0
        invariant TraversalLoop(links, children, r, S, visited, pidx, reached, stack, popped)
        invariant remaining == IdsBelow(|links|) - popped
        invariant world == WorldsAfter(links, locals, before, visited)
        decreases remaining
      {
        var p := stack[|stack| - 1];
        ghost var pi := PopKeeps(links, children, r, S, visited, pidx, reached, stack, popped);
        stack := stack[..|stack| - 1];
        world, visited, pidx, reached, stack :=
          SetChildWorlds(links, children, locals, before, r, S, world, visited, pidx, reached, stack, popped, p, pi);
        ChildLoopDone(links, children, r, S, visited, pidx, reached, stack, popped, p, pi);
        popped := popped + {p};
        remaining := remaining - {p};
      }
      worldTransform := world;
      TraversalLoopDone(links, children, r, S, visited, pidx, reached, popped);
      WorldsAfterPropagated(links, children, locals, before, r, visited);
    }
  }

  /**
   * `setRoot(a); a.addObject(b); b.addObject(a)` passes every assert of
   * `setRoot` and `addObject`, yet leaves the root on a cycle, where
   * `updateGameObjects` and `propagateTransform` push `a` and `b` forever.
   */
  method CycleThroughRoot() returns (tree: SceneTree)
    ensures tree.Valid() && tree.root.Some?
    ensures !RootOffCycle(tree.parent, tree.objects, tree.root.value)
  {
    tree := new SceneTree();
    var a := tree.NewObject();
    var b := tree.NewObject();
    tree.SetRoot(a);
    tree.AddObject(a, b);
    tree.AddObject(b, a);
    RootOnCycle(tree.parent, tree.objects, a, b);
  }

  /**
   * The loop of `propagateTransform` over the children of the popped object
   * `p`: each child's world transform becomes `p`'s times the child's local
   * transform, and the child is reached and pushed.
   */
  method SetChildWorlds(parent: seq<Option<ObjectId>>, objects: seq<seq<ObjectId>>, local: seq<Matrix4>,
                        ghost before: seq<Matrix4>, ghost r: ObjectId, ghost S: set<ObjectId>, world: seq<Matrix4>,
                        ghost t: seq<ObjectId>, ghost pidx: seq<nat>, ghost reached: set<ObjectId>,
                        stack: seq<ObjectId>, ghost popped: set<ObjectId>, p: ObjectId, ghost pi: nat)
    returns (world': seq<Matrix4>, ghost t': seq<ObjectId>, ghost pidx': seq<nat>, ghost reached': set<ObjectId>,
             stack': seq<ObjectId>)
    requires ChildLoop(parent, objects, r, S, t, pidx, reached, stack, popped, p, pi, 0)
    requires world == WorldsAfter(parent, local, before, t) && |local| == |before| == |parent|
    ensures ChildLoop(parent, objects, r, S, t', pidx', reached', stack', popped, p, pi, |objects[p]|)
    ensures world' == WorldsAfter(parent, local, before, t')
    ensures t' == t + objects[p] && stack' == stack + objects[p]
  {
    world', t', pidx', reached', stack' := world, t, pidx, reached, stack;
    var kids := objects[p];
    var k := 0;
    while k < |kids|
      invariant ChildLoop(parent, objects, r, S, t', pidx', reached', stack', popped, p, pi, k)
      invariant world' == WorldsAfter(parent, local, before, t')
      invariant t' == t + kids[..k] && stack' == stack + kids[..k]
    {
      var c := kids[k];
      ChildIsNew(parent, objects, r, S, t', pidx', reached', stack', popped, p, pi, k);
      ChildStep(parent, objects, r, S, t', pidx', reached', stack', popped, p, pi, k);
      WorldsAfterSnoc(parent, local, before, t', c);
      world' := world'[c := Mul(world'[p], local[c])];
      t', pidx', reached' := t' + [c], pidx' + [pi], reached' + {c};
      stack' := stack' + [c];
      AppendTake(t, kids, k);
      AppendTake(stack, kids, k);
      k := k + 1;
    }
    assert kids[..|kids|] == kids;
  }

  /** Appending the next element of `s` to a prefix of `s`. */
  lemma AppendTake(t: seq<ObjectId>, s: seq<ObjectId>, k: nat)
    requires k < |s|
    ensures t + s[..k] + [s[k]] == t + s[..k + 1]
  {
    assert s[..k + 1] == s[..k] + [s[k]];
  }

  // The loop invariants of the two traversals, shared between them.

  /** The elements of `s`, built up from the back so that pushing and popping unfold it. */
  ghost function Elems(s: seq<ObjectId>): set<ObjectId>
  {
    if s == [] then {} else Elems(s[..|s| - 1]) + {s[|s| - 1]}
  }

  lemma {:induction false} ElemsIff(s: seq<ObjectId>)
    ensures forall x :: x in Elems(s) <==> x in s
  {
    if s != [] {
      ElemsIff(s[..|s| - 1]);
      assert s == s[..|s| - 1] + [s[|s| - 1]];
    }
  }

  lemma ElemsSnoc(s: seq<ObjectId>, x: ObjectId)
    ensures Elems(s + [x]) == Elems(s) + {x}
  {
    assert (s + [x])[..|s|] == s;
  }

  /** Taking one more element of `s` adds that element. */
  lemma ElemsTake(s: seq<ObjectId>, k: nat)
    requires k < |s|
    ensures Elems(s[..k + 1]) == Elems(s[..k]) + {s[k]}
  {
    assert s[..k + 1] == s[..k] + [s[k]];
    ElemsSnoc(s[..k], s[k]);
  }

  /**
   * No repetitions, stated from the back like `Elems`: the form the loop
   * invariants use, since it unfolds one element at a time.
   */
  ghost predicate Distinct(s: seq<ObjectId>)
    decreases |s|
  {
    s == [] || (Distinct(s[..|s| - 1]) && s[|s| - 1] !in Elems(s[..|s| - 1]))
  }

  lemma {:induction false} DistinctNoDup(s: seq<ObjectId>)
    requires Distinct(s)
    ensures NoDup(s)
    decreases |s|
  {
    if s != [] {
      var s' := s[..|s| - 1];
      DistinctNoDup(s');
      ElemsIff(s');
      forall i, j | 0 <= i < j < |s|
        ensures s[i] != s[j]
      {
        assert s[i] == s'[i];
        if j < |s| - 1 {
          assert s[j] == s'[j];
        }
      }
    }
  }

  /**
   * What every step of both traversals keeps: `calls` starts at `r`, names
   * each object once and names each object's parent earlier (at index
   * `pidx[j]`); `reached` is the set of what `calls` names.
   */
  ghost predicate Reached(parent: seq<Option<ObjectId>>, objects: seq<seq<ObjectId>>, r: ObjectId, S: set<ObjectId>,
                          calls: seq<ObjectId>, pidx: seq<nat>, reached: set<ObjectId>)
  {
    WellLinked(parent, objects) && r < |parent|
    && r in S && ClosedUnderChildren(objects, S) && (parent[r].Some? ==> parent[r].value !in S)
    && (forall x | x in reached :: x in S)
    && |calls| > 0 && calls[0] == r && |pidx| == |calls|
    && (forall j | 0 <= j < |calls| :: calls[j] < |parent| && calls[j] in reached)
    && (forall x | x in reached :: x < |parent|)
    && reached == Elems(calls)
    && Distinct(calls)
    && (forall j {:trigger pidx[j]} | 0 < j < |calls| :: pidx[j] < j && parent[calls[j]] == Some(calls[pidx[j]]))
  }

  /**
   * Between two pops: `popped` holds the objects whose children have all been
   * reached and `stack` those still to expand. Every reached object other
   * than the root has an expanded parent.
   */
  ghost predicate TraversalLoop(parent: seq<Option<ObjectId>>, objects: seq<seq<ObjectId>>, r: ObjectId, S: set<ObjectId>,
                                calls: seq<ObjectId>, pidx: seq<nat>, reached: set<ObjectId>,
                                stack: seq<ObjectId>, popped: set<ObjectId>)
  {
    Reached(parent, objects, r, S, calls, pidx, reached)
    && reached == popped + Elems(stack) && popped !! Elems(stack)
    && (forall x {:trigger parent[x]} | x in reached && x != r :: parent[x].Some? && parent[x].value in popped)
    && (forall x, k | x in popped && 0 <= k < |objects[x]| :: objects[x][k] in reached)
    && Distinct(stack)
  }

  /** While the children of `p`, just popped, are being reached: the first `k` of them are. */
  ghost predicate ChildLoop(parent: seq<Option<ObjectId>>, objects: seq<seq<ObjectId>>, r: ObjectId, S: set<ObjectId>,
                            calls: seq<ObjectId>, pidx: seq<nat>, reached: set<ObjectId>,
                            stack: seq<ObjectId>, popped: set<ObjectId>, p: ObjectId, pi: nat, k: nat)
  {
    Reached(parent, objects, r, S, calls, pidx, reached)
    && pi < |calls| && calls[pi] == p && p < |objects| && k <= |objects[p]|
    && reached == popped + Elems(stack) + {p} && popped !! Elems(stack) && p !in popped && p !in Elems(stack)
    && (forall x {:trigger parent[x]} | x in reached && x != r ::
          parent[x].Some? && (parent[x].value in popped || parent[x].value == p))
    && (forall x {:trigger parent[x]} | x in reached && parent[x] == Some(p) :: x in Elems(objects[p][..k]))
    && (forall i | 0 <= i < k :: objects[p][i] in reached)
    && (forall x, k | x in popped && 0 <= k < |objects[x]| :: objects[x][k] in reached)
    && Distinct(stack)
  }

  /** Popping the top `p` of the stack starts the child loop of `p`. */
  lemma PopKeeps(parent: seq<Option<ObjectId>>, objects: seq<seq<ObjectId>>, r: ObjectId, S: set<ObjectId>,
                 calls: seq<ObjectId>, pidx: seq<nat>, reached: set<ObjectId>,
                 full: seq<ObjectId>, popped: set<ObjectId>) returns (pi: nat)
    requires TraversalLoop(parent, objects, r, S, calls, pidx, reached, full, popped) && |full| > 0
    ensures full[|full| - 1] < |parent| && full[|full| - 1] !in popped
    ensures pi < |calls| && calls[pi] == full[|full| - 1]
    ensures ChildLoop(parent, objects, r, S, calls, pidx, reached, full[..|full| - 1], popped, full[|full| - 1], pi, 0)
  {
    var stack, p := full[..|full| - 1], full[|full| - 1];
    ElemsIff(calls);
    assert objects[p][..0] == [];
    pi :| 0 <= pi < |calls| && calls[pi] == p;
  }

  /** The next child of `p` has not been reached yet. */
  lemma ChildIsNew(parent: seq<Option<ObjectId>>, objects: seq<seq<ObjectId>>, r: ObjectId, S: set<ObjectId>,
                   calls: seq<ObjectId>, pidx: seq<nat>, reached: set<ObjectId>,
                   stack: seq<ObjectId>, popped: set<ObjectId>, p: ObjectId, pi: nat, k: nat)
    requires ChildLoop(parent, objects, r, S, calls, pidx, reached, stack, popped, p, pi, k) && k < |objects[p]|
    ensures objects[p][k] < |parent| && parent[objects[p][k]] == Some(p) && objects[p][k] in S
    ensures objects[p][k] !in reached
  {
    var kids := objects[p];
    var c := kids[k];
    ElemsIff(kids[..k]);
    forall i | 0 <= i < k
      ensures kids[..k][i] != c
    {
      assert NoDup(kids);
    }
    assert c !in Elems(kids[..k]);
  }

  /** Appending a newly reached object `c`, whose parent sits at index `pi`, keeps `Reached`. */
  lemma ReachedSnoc(parent: seq<Option<ObjectId>>, objects: seq<seq<ObjectId>>, r: ObjectId, S: set<ObjectId>,
                    calls: seq<ObjectId>, pidx: seq<nat>, reached: set<ObjectId>, c: ObjectId, pi: nat)
    requires Reached(parent, objects, r, S, calls, pidx, reached)
    requires c < |parent| && c in S && c !in reached && pi < |calls| && parent[c] == Some(calls[pi])
    ensures Reached(parent, objects, r, S, calls + [c], pidx + [pi], reached + {c})
  {
    var calls', pidx' := calls + [c], pidx + [pi];
    ElemsSnoc(calls, c);
    forall j | 0 <= j < |calls'|
      ensures calls'[j] < |parent| && calls'[j] in reached + {c}
    {
      if j < |calls| {
        assert calls'[j] == calls[j];
      }
    }
    forall j | 0 < j < |calls'|
      ensures pidx'[j] < j && parent[calls'[j]] == Some(calls'[pidx'[j]])
    {
      if j < |calls| {
        assert calls'[j] == calls[j] && pidx'[j] == pidx[j] && calls'[pidx[j]] == calls[pidx[j]];
      }
    }
    assert calls'[..|calls|] == calls;
  }

  /** Pushing an object not yet on the stack keeps it free of duplicates. */
  lemma StackSnoc(stack: seq<ObjectId>, c: ObjectId)
    requires Distinct(stack) && c !in Elems(stack)
    ensures Distinct(stack + [c]) && Elems(stack + [c]) == Elems(stack) + {c}
  {
    ElemsSnoc(stack, c);
    assert (stack + [c])[..|stack|] == stack;
  }

  /** Reaching the next child `c` of `p` keeps the child-loop invariant. */
  lemma ChildStep(parent: seq<Option<ObjectId>>, objects: seq<seq<ObjectId>>, r: ObjectId, S: set<ObjectId>,
                  calls: seq<ObjectId>, pidx: seq<nat>, reached: set<ObjectId>,
                  stack: seq<ObjectId>, popped: set<ObjectId>, p: ObjectId, pi: nat, k: nat)
    requires ChildLoop(parent, objects, r, S, calls, pidx, reached, stack, popped, p, pi, k) && k < |objects[p]|
    requires objects[p][k] < |parent| && parent[objects[p][k]] == Some(p) && objects[p][k] in S
    requires objects[p][k] !in reached
    ensures ChildLoop(parent, objects, r, S, calls + [objects[p][k]], pidx + [pi], reached + {objects[p][k]},
                      stack + [objects[p][k]], popped, p, pi, k + 1)
  {
    var c := objects[p][k];
    ReachedSnoc(parent, objects, r, S, calls, pidx, reached, c, pi);
    StackSnoc(stack, c);
    ElemsTake(objects[p], k);
  }

  /** After the children of `p` are all reached, `p` counts as expanded. */
  lemma ChildLoopDone(parent: seq<Option<ObjectId>>, objects: seq<seq<ObjectId>>, r: ObjectId, S: set<ObjectId>,
                      calls: seq<ObjectId>, pidx: seq<nat>, reached: set<ObjectId>,
                      stack: seq<ObjectId>, popped: set<ObjectId>, p: ObjectId, pi: nat)
    requires p < |objects| && ChildLoop(parent, objects, r, S, calls, pidx, reached, stack, popped, p, pi, |objects[p]|)
    ensures TraversalLoop(parent, objects, r, S, calls, pidx, reached, stack, popped + {p})
  {
  }

  /** An empty stack means the traversal is complete. */
  lemma TraversalLoopDone(parent: seq<Option<ObjectId>>, objects: seq<seq<ObjectId>>, r: ObjectId, S: set<ObjectId>,
                          calls: seq<ObjectId>, pidx: seq<nat>, reached: set<ObjectId>, popped: set<ObjectId>)
    requires TraversalLoop(parent, objects, r, S, calls, pidx, reached, [], popped)
    ensures IsTraversal(parent, objects, r, calls)
  {
    ElemsIff(calls);
    DistinctNoDup(calls);
    forall j | 0 < j < |calls|
      ensures parent[calls[j]].Some? && parent[calls[j]].value < |parent| && parent[calls[j]].value in calls
    {
      assert calls[pidx[j]] in calls;
    }
    forall i | 0 <= i < |calls|
      ensures parent[calls[0]] != Some(calls[i])
    {
      assert calls[i] in reached;
    }
    forall i, j | 0 <= i < |calls| && 0 < j < |calls| && parent[calls[j]] == Some(calls[i])
      ensures i < j
    {
      assert calls[i] == calls[pidx[j]];
      assert i == pidx[j] by { DistinctNoDup(calls); }
    }
    forall j, k | 0 <= j < |calls| && 0 <= k < |objects[calls[j]]|
      ensures objects[calls[j]][k] in calls
    {
      assert calls[j] in popped;
      assert objects[calls[j]][k] in reached;
    }
  }
}
