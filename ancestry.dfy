/**
 * Facts about the parent relation of a well-formed scene: depth grows by one per
 * level, descent is transitive, and the ancestors of a node form a single chain.
 */
module Ancestry {
  import opened SceneGraph

  /** An ancestor is in the scene and no deeper than its descendant; strictly shallower when distinct. */
  lemma {:induction false} DescendsDepth<M>(m: SceneNode<M>, n: SceneNode<M>, scene: set<SceneNode<M>>)
    requires Scene(scene) && m in scene && Descends(m, n, scene)
    ensures n in scene && n.depth <= m.depth && (m != n ==> n.depth < m.depth)
    decreases m.depth
  {
    if m != n {
      DescendsDepth(m.parent, n, scene);
    }
  }

  /** A child is in the scene, one level below its parent, and descends from it. */
  lemma ChildDescends<M>(p: SceneNode<M>, c: SceneNode<M>, scene: set<SceneNode<M>>)
    requires Scene(scene) && p in scene && c in p.children
    ensures c in scene && c.parent == p && c.depth == p.depth + 1 && Descends(c, p, scene)
  {
    assert Descends(p, p, scene);
  }

  /** Descent is transitive. */
  lemma {:induction false} DescendsTrans<M>(a: SceneNode<M>, b: SceneNode<M>, c: SceneNode<M>, scene: set<SceneNode<M>>)
    requires Scene(scene) && a in scene && b in scene
    requires Descends(a, b, scene) && Descends(b, c, scene)
    ensures Descends(a, c, scene)
    decreases a.depth
  {
    if a != b {
      DescendsTrans(a.parent, b, c, scene);
    }
  }

  /** Two ancestors of one node are themselves related: the deeper one descends from the other. */
  lemma {:induction false} DescendsComparable<M>(x: SceneNode<M>, u: SceneNode<M>, v: SceneNode<M>, scene: set<SceneNode<M>>)
    requires Scene(scene) && x in scene
    requires Descends(x, u, scene) && Descends(x, v, scene)
    requires u in scene && v in scene && v.depth <= u.depth
    ensures Descends(u, v, scene)
    decreases x.depth
  {
    DescendsDepth(x, v, scene);
    if x != u {
      DescendsDepth(x, u, scene);
      DescendsComparable(x.parent, u, v, scene);
    }
  }

  /** A node has at most one ancestor at each depth. */
  lemma CommonAncestorsAtDepth<M>(x: SceneNode<M>, u: SceneNode<M>, v: SceneNode<M>, scene: set<SceneNode<M>>)
    requires Scene(scene) && x in scene
    requires Descends(x, u, scene) && Descends(x, v, scene)
    requires u in scene && v in scene && u.depth == v.depth
    ensures u == v
  {
    DescendsComparable(x, u, v, scene);
    DescendsDepth(u, v, scene);
  }

  /** A proper descendant of `n` descends from one of `n`'s children. */
  lemma {:induction false} ChildOnPath<M>(m: SceneNode<M>, n: SceneNode<M>, scene: set<SceneNode<M>>) returns (c: SceneNode<M>)
    requires Scene(scene) && m in scene && Descends(m, n, scene) && m != n
    ensures c in n.children && Descends(m, c, scene)
    decreases m.depth
  {
    if m.parent == n {
      c := m;
    } else {
      c := ChildOnPath(m.parent, n, scene);
    }
  }
}
