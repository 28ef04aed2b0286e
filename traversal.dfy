/**
 * The order in which `draw` visits a scene: exactly the subtree below the node
 * drawn, each node once, every node before its descendants, and sibling
 * subtrees in the order the children were added.
 */
module Traversal {
  import opened SceneGraph
  import opened Ancestry

  /** Every node visited lies below the node drawn. */
  lemma {:induction false} VisitsSound<M>(n: SceneNode<M>, scene: set<SceneNode<M>>)
    requires Scene(scene) && n in scene
    ensures forall i | 0 <= i < |n.Visits(scene)| :: Descends(n.Visits(scene)[i], n, scene)
    decreases Below(scene, n.depth), 0
  {
    BelowShrinks(scene, n);
    ChildVisitsSound(n, |n.children|, scene);
    assert Descends(n, n, scene);
  }

  /** Every node visited through the first `k` children lies strictly below the parent. */
  lemma {:induction false} ChildVisitsSound<M>(p: SceneNode<M>, k: nat, scene: set<SceneNode<M>>)
    requires Scene(scene) && p in scene && k <= |p.children|
    ensures forall i | 0 <= i < |p.ChildVisits(k, scene)| ::
      Descends(p.ChildVisits(k, scene)[i], p, scene) && p.ChildVisits(k, scene)[i].depth > p.depth
    decreases Below(scene, p.depth + 1), k
  {
    if k > 0 {
      var c := p.children[k - 1];
      var front := p.ChildVisits(k - 1, scene);
      var back := c.Visits(scene);
      ChildVisitsSound(p, k - 1, scene);
      ChildDescends(p, c, scene);
      VisitsSound(c, scene);
      forall i | 0 <= i < |back| ensures Descends(back[i], p, scene) && back[i].depth > p.depth {
        DescendsTrans(back[i], c, p, scene);
        DescendsDepth(back[i], c, scene);
      }
      assert p.ChildVisits(k, scene) == front + back;
    }
  }

  /** A node visited through the first `k` children descends from none of the later ones. */
  lemma {:induction false} ChildVisitsBlock<M>(p: SceneNode<M>, k: nat, scene: set<SceneNode<M>>)
    requires Scene(scene) && p in scene && k <= |p.children|
    ensures forall i, j | 0 <= i < |p.ChildVisits(k, scene)| && 0 <= j < |p.children| &&
      Descends(p.ChildVisits(k, scene)[i], p.children[j], scene) :: j < k
    decreases k
  {
    if k > 0 {
      var c := p.children[k - 1];
      var front := p.ChildVisits(k - 1, scene);
      var back := c.Visits(scene);
      var all := p.ChildVisits(k, scene);
      assert all == front + back;
      ChildVisitsBlock(p, k - 1, scene);
      VisitsSound(c, scene);
      ChildDescends(p, c, scene);
      forall i, j | 0 <= i < |all| && 0 <= j < |p.children| && Descends(all[i], p.children[j], scene)
        ensures j < k
      {
        if i < |front| {
          assert all[i] == front[i];
        } else {
          assert all[i] == back[i - |front|];
          ChildDescends(p, p.children[j], scene);
          CommonAncestorsAtDepth(all[i], c, p.children[j], scene);
        }
      }
    }
  }

  /** The subtrees of the first `k` children are all visited through those children. */
  lemma {:induction false} ChildVisitsContain<M>(p: SceneNode<M>, k: nat, j: nat, scene: set<SceneNode<M>>)
    requires Scene(scene) && p in scene && j < k <= |p.children|
    ensures forall x | x in p.children[j].Visits(scene) :: x in p.ChildVisits(k, scene)
    decreases k
  {
    ChildDescends(p, p.children[j], scene);
    if j < k - 1 {
      ChildVisitsContain(p, k - 1, j, scene);
    }
  }

  /** Every node below the node drawn is visited. */
  lemma {:induction false} VisitsComplete<M>(n: SceneNode<M>, m: SceneNode<M>, scene: set<SceneNode<M>>)
    requires Scene(scene) && n in scene && m in scene && Descends(m, n, scene)
    ensures m in n.Visits(scene)
    decreases Below(scene, n.depth)
  {
    if m != n {
      var c := ChildOnPath(m, n, scene);
      var j :| 0 <= j < |n.children| && n.children[j] == c;
      ChildDescends(n, c, scene);
      BelowShrinks(scene, n);
      VisitsComplete(c, m, scene);
      ChildVisitsContain(n, |n.children|, j, scene);
    }
  }

  /** No node is visited twice. */
  lemma {:induction false} VisitsDistinct<M>(n: SceneNode<M>, scene: set<SceneNode<M>>)
    requires Scene(scene) && n in scene
    ensures Distinct(n.Visits(scene))
    decreases Below(scene, n.depth), 0
  {
    BelowShrinks(scene, n);
    ChildVisitsDistinct(n, |n.children|, scene);
    ChildVisitsSound(n, |n.children|, scene);
  }

  /** No node is visited twice through the first `k` children. */
  lemma {:induction false} ChildVisitsDistinct<M>(p: SceneNode<M>, k: nat, scene: set<SceneNode<M>>)
    requires Scene(scene) && p in scene && k <= |p.children|
    ensures Distinct(p.ChildVisits(k, scene))
    decreases Below(scene, p.depth + 1), k
  {
    if k > 0 {
      var c := p.children[k - 1];
      var front := p.ChildVisits(k - 1, scene);
      var back := c.Visits(scene);
      var all := p.ChildVisits(k, scene);
      assert all == front + back;
      ChildDescends(p, c, scene);
      ChildVisitsDistinct(p, k - 1, scene);
      VisitsDistinct(c, scene);
      ChildVisitsBlock(p, k - 1, scene);
      VisitsSound(c, scene);
      forall i, j | 0 <= i < j < |all| ensures all[i] != all[j] {
        if i < |front| && |front| <= j {
          assert all[i] == front[i];
          assert all[j] == back[j - |front|];
        }
      }
    }
  }

  /** The nodes visited are exactly the subtree below the node drawn, each once. */
  lemma VisitsExactlyOnce<M>(n: SceneNode<M>, scene: set<SceneNode<M>>)
    requires Scene(scene) && n in scene
    ensures Distinct(n.Visits(scene))
    ensures forall m | m in scene :: m in n.Visits(scene) <==> Descends(m, n, scene)
  {
    VisitsDistinct(n, scene);
    VisitsSound(n, scene);
    forall m | m in scene && Descends(m, n, scene) ensures m in n.Visits(scene) {
      VisitsComplete(n, m, scene);
    }
  }

  /** Pre-order: a node is visited no later than any of its descendants. */
  lemma {:induction false} VisitsPreOrder<M>(n: SceneNode<M>, scene: set<SceneNode<M>>)
    requires Scene(scene) && n in scene
    ensures forall i, j | 0 <= i < |n.Visits(scene)| && 0 <= j < |n.Visits(scene)| &&
      Descends(n.Visits(scene)[j], n.Visits(scene)[i], scene) :: i <= j
    decreases Below(scene, n.depth), 0
  {
    var all := n.Visits(scene);
    var rest := n.ChildVisits(|n.children|, scene);
    assert all == [n] + rest;
    BelowShrinks(scene, n);
    ChildVisitsPreOrder(n, |n.children|, scene);
    ChildVisitsSound(n, |n.children|, scene);
    forall i, j | 0 <= i < |all| && 0 <= j < |all| && Descends(all[j], all[i], scene) ensures i <= j {
      if 0 < i {
        assert all[i] == rest[i - 1];
        if j == 0 {
          DescendsDepth(n, all[i], scene);
        } else {
          assert all[j] == rest[j - 1];
        }
      }
    }
  }

  /** Pre-order within the nodes visited through the first `k` children. */
  lemma {:induction false} ChildVisitsPreOrder<M>(p: SceneNode<M>, k: nat, scene: set<SceneNode<M>>)
    requires Scene(scene) && p in scene && k <= |p.children|
    ensures forall i, j | 0 <= i < |p.ChildVisits(k, scene)| && 0 <= j < |p.ChildVisits(k, scene)| &&
      Descends(p.ChildVisits(k, scene)[j], p.ChildVisits(k, scene)[i], scene) :: i <= j
    decreases Below(scene, p.depth + 1), k
  {
    if k > 0 {
      var c := p.children[k - 1];
      var front := p.ChildVisits(k - 1, scene);
      var back := c.Visits(scene);
      var all := p.ChildVisits(k, scene);
      assert all == front + back;
      ChildDescends(p, c, scene);
      ChildVisitsPreOrder(p, k - 1, scene);
      VisitsPreOrder(c, scene);
      ChildVisitsBlock(p, k - 1, scene);
      VisitsSound(c, scene);
      forall i, j | 0 <= i < |all| && 0 <= j < |all| && Descends(all[j], all[i], scene) ensures i <= j {
        if i < |front| && j < |front| {
          assert all[i] == front[i] && all[j] == front[j];
        } else if |front| <= i && |front| <= j {
          assert all[i] == back[i - |front|] && all[j] == back[j - |front|];
        } else if |front| <= i {
          assert all[i] == back[i - |front|] && all[j] == front[j];
          DescendsTrans(all[j], all[i], c, scene);
        }
      }
    }
  }

  /**
   * Sibling order: for any node `p` and children added in the order a < b,
   * every node below `p.children[a]` is visited before every node below `p.children[b]`.
   */
  lemma {:induction false} VisitsSiblingOrder<M>(n: SceneNode<M>, p: SceneNode<M>, a: nat, b: nat, scene: set<SceneNode<M>>)
    requires Scene(scene) && n in scene && p in scene && a < b < |p.children|
    ensures forall i, j | 0 <= i < |n.Visits(scene)| && 0 <= j < |n.Visits(scene)| &&
      Descends(n.Visits(scene)[i], p.children[a], scene) && Descends(n.Visits(scene)[j], p.children[b], scene) :: i < j
    decreases Below(scene, n.depth), 0
  {
    var all := n.Visits(scene);
    var rest := n.ChildVisits(|n.children|, scene);
    assert all == [n] + rest;
    var pa, pb := p.children[a], p.children[b];
    ChildDescends(p, pa, scene);
    ChildDescends(p, pb, scene);
    BelowShrinks(scene, n);
    ChildVisitsSiblingOrder(n, |n.children|, p, a, b, scene);
    VisitsSound(n, scene);
    forall i, j | 0 <= i < |all| && 0 <= j < |all| && Descends(all[i], pa, scene) && Descends(all[j], pb, scene)
      ensures i < j
    {
      if i == 0 {
        DescendsTrans(all[j], n, pa, scene);
        CommonAncestorsAtDepth(all[j], pa, pb, scene);
      } else if j == 0 {
        DescendsTrans(all[i], n, pb, scene);
      } else {
        assert all[i] == rest[i - 1] && all[j] == rest[j - 1];
      }
    }
  }

  /** Sibling order within the nodes visited through the first `k` children of `q`. */
  lemma {:induction false} ChildVisitsSiblingOrder<M>(q: SceneNode<M>, k: nat, p: SceneNode<M>, a: nat, b: nat,
                                                      scene: set<SceneNode<M>>)
    requires Scene(scene) && q in scene && k <= |q.children| && p in scene && a < b < |p.children|
    ensures forall i, j | 0 <= i < |q.ChildVisits(k, scene)| && 0 <= j < |q.ChildVisits(k, scene)| &&
      Descends(q.ChildVisits(k, scene)[i], p.children[a], scene) &&
      Descends(q.ChildVisits(k, scene)[j], p.children[b], scene) :: i < j
    decreases Below(scene, q.depth + 1), k
  {
    if k > 0 {
      var c := q.children[k - 1];
      var front := q.ChildVisits(k - 1, scene);
      var back := c.Visits(scene);
      var all := q.ChildVisits(k, scene);
      assert all == front + back;
      var pa, pb := p.children[a], p.children[b];
      ChildDescends(p, pa, scene);
      ChildDescends(p, pb, scene);
      ChildDescends(q, c, scene);
      ChildVisitsSiblingOrder(q, k - 1, p, a, b, scene);
      VisitsSiblingOrder(c, p, a, b, scene);
      ChildVisitsBlock(q, k - 1, scene);
      ChildVisitsSound(q, k - 1, scene);
      VisitsSound(c, scene);
      forall i, j | 0 <= i < |all| && 0 <= j < |all| && Descends(all[i], pa, scene) && Descends(all[j], pb, scene)
        ensures i < j
      {
        if i < |front| && j < |front| {
          assert all[i] == front[i] && all[j] == front[j];
        } else if |front| <= i && |front| <= j {
          assert all[i] == back[i - |front|] && all[j] == back[j - |front|];
        } else if |front| <= i {
          // all[i] lies below c, all[j] does not: the two cannot be ordered the wrong way.
          var x, y := back[i - |front|], front[j];
          assert all[i] == x && all[j] == y;
          LastChildCase(q, c, p, a, b, x, y, scene);
        }
      }
    }
  }

  /**
   * The case of ChildVisitsSiblingOrder where `x`, below `p.children[a]`, lies below the
   * child `c` of `q` and `y`, below `p.children[b]`, lies below `q`: then `y` lies below `c`
   * too, unless `c` is `p.children[a]` itself.
   */
  lemma LastChildCase<M>(q: SceneNode<M>, c: SceneNode<M>, p: SceneNode<M>, a: nat, b: nat,
                         x: SceneNode<M>, y: SceneNode<M>, scene: set<SceneNode<M>>)
    requires Scene(scene) && q in scene && c in q.children
    requires p in scene && a < b < |p.children|
    requires x in scene && Descends(x, c, scene) && Descends(x, p.children[a], scene)
    requires y in scene && Descends(y, q, scene) && Descends(y, p.children[b], scene)
    ensures Descends(y, c, scene) || (p == q && c == p.children[a])
  {
    var pa, pb := p.children[a], p.children[b];
    ChildDescends(p, pa, scene);
    ChildDescends(p, pb, scene);
    ChildDescends(q, c, scene);
    if pa.depth >= c.depth {
      DescendsComparable(x, pa, c, scene);
      if pa != c {
        DescendsDepth(pa, c, scene);
        DescendsTrans(pb, p, c, scene);
        DescendsTrans(y, pb, c, scene);
      }
    } else {
      DescendsTrans(x, c, q, scene);
      DescendsComparable(x, q, pa, scene);
      DescendsComparable(y, q, pb, scene);
      CommonAncestorsAtDepth(q, pa, pb, scene);
      assert false;
    }
  }
}
