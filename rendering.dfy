/**
 * What each `draw` invocation computes and what reaches the mesh drawers:
 * the draw calls are those of the visited nodes that have a drawer, in visit
 * order; each node's matrices follow from its parent's; and, for an
 * associative product, a node's world model matrix is the product of the
 * local matrices from the node drawn down to it.
 */
module Rendering {
  import opened Optional
  import opened MatrixChain
  import opened SceneGraph
  import opened Ancestry
  import opened Traversal

  /** The draw calls of two runs of invocations, one after the other. */
  lemma {:induction false} RecordsAppend<M>(a: seq<Frame<M>>, b: seq<Frame<M>>)
    ensures Records(a + b) == Records(a) + Records(b)
    decreases |a|
  {
    if a == [] {
      assert a + b == b;
    } else {
      var f := a[0];
      var own := if f.drawer.Some? then [DrawCall(f.drawer.value, f.mvp, f.modelView, f.normal, f.model)] else [];
      assert Records(a) == own + Records(a[1..]);
      assert (a + b)[0] == f && (a + b)[1..] == a[1..] + b;
      assert Records(a + b) == own + Records(a[1..] + b);
      RecordsAppend(a[1..], b);
      AppendAssoc(own, Records(a[1..]), Records(b));
    }
  }

  /** The invocations of a draw are exactly the visits, in the same order. */
  lemma {:induction false} FramesFollowVisits<M>(n: SceneNode<M>, mult: (M, M) -> M, mvp: M, modelView: M, normalMatrix: M,
                                                 modelMatrix: Option<M>, scene: set<SceneNode<M>>)
    requires Scene(scene) && n in scene
    ensures |n.Frames(mult, mvp, modelView, normalMatrix, modelMatrix, scene)| == |n.Visits(scene)|
    ensures forall i | 0 <= i < |n.Visits(scene)| ::
      n.Frames(mult, mvp, modelView, normalMatrix, modelMatrix, scene)[i].node == n.Visits(scene)[i]
    decreases Below(scene, n.depth), 0
  {
    var w := WorldModel(mult, modelMatrix, n.trs);
    BelowShrinks(scene, n);
    ChildFramesFollowVisits(n, |n.children|, mult, mult(mvp, w), mult(modelView, w), normalMatrix, w, scene);
  }

  /** The invocations through the first `k` children are the visits through them. */
  lemma {:induction false} ChildFramesFollowVisits<M>(p: SceneNode<M>, k: nat, mult: (M, M) -> M, mvp: M, modelView: M,
                                                      normalMatrix: M, modelMatrix: M, scene: set<SceneNode<M>>)
    requires Scene(scene) && p in scene && k <= |p.children|
    ensures |p.ChildFrames(k, mult, mvp, modelView, normalMatrix, modelMatrix, scene)| == |p.ChildVisits(k, scene)|
    ensures forall i | 0 <= i < |p.ChildVisits(k, scene)| ::
      p.ChildFrames(k, mult, mvp, modelView, normalMatrix, modelMatrix, scene)[i].node == p.ChildVisits(k, scene)[i]
    decreases Below(scene, p.depth + 1), k
  {
    if k > 0 {
      var c := p.children[k - 1];
      ChildDescends(p, c, scene);
      ChildFramesFollowVisits(p, k - 1, mult, mvp, modelView, normalMatrix, modelMatrix, scene);
      FramesFollowVisits(c, mult, mvp, modelView, normalMatrix, Some(modelMatrix), scene);
    }
  }

  /**
   * `draw` calls the drawers of the visited nodes that have one, in visit order, with the
   * matrices of that node's invocation; nodes without a drawer make no call.
   */
  lemma {:induction false} TraceIsRecordsOfFrames<M>(n: SceneNode<M>, mult: (M, M) -> M, mvp: M, modelView: M, normalMatrix: M,
                                                     modelMatrix: Option<M>, scene: set<SceneNode<M>>)
    requires Scene(scene) && n in scene
    ensures n.Trace(mult, mvp, modelView, normalMatrix, modelMatrix, scene)
         == Records(n.Frames(mult, mvp, modelView, normalMatrix, modelMatrix, scene))
    decreases Below(scene, n.depth), 0
  {
    var w := WorldModel(mult, modelMatrix, n.trs);
    var frames := n.Frames(mult, mvp, modelView, normalMatrix, modelMatrix, scene);
    var rest := n.ChildFrames(|n.children|, mult, mult(mvp, w), mult(modelView, w), normalMatrix, w, scene);
    BelowShrinks(scene, n);
    ChildrenTraceIsRecordsOfFrames(n, |n.children|, mult, mult(mvp, w), mult(modelView, w), normalMatrix, w, scene);
    assert frames[1..] == rest;
  }

  /** The same, for the first `k` children. */
  lemma {:induction false} ChildrenTraceIsRecordsOfFrames<M>(p: SceneNode<M>, k: nat, mult: (M, M) -> M, mvp: M, modelView: M,
                                                             normalMatrix: M, modelMatrix: M, scene: set<SceneNode<M>>)
    requires Scene(scene) && p in scene && k <= |p.children|
    ensures p.ChildrenTrace(k, mult, mvp, modelView, normalMatrix, modelMatrix, scene)
         == Records(p.ChildFrames(k, mult, mvp, modelView, normalMatrix, modelMatrix, scene))
    decreases Below(scene, p.depth + 1), k
  {
    if k > 0 {
      var c := p.children[k - 1];
      ChildDescends(p, c, scene);
      ChildrenTraceIsRecordsOfFrames(p, k - 1, mult, mvp, modelView, normalMatrix, modelMatrix, scene);
      TraceIsRecordsOfFrames(c, mult, mvp, modelView, normalMatrix, Some(modelMatrix), scene);
      RecordsAppend(p.ChildFrames(k - 1, mult, mvp, modelView, normalMatrix, modelMatrix, scene),
                    c.Frames(mult, mvp, modelView, normalMatrix, Some(modelMatrix), scene));
    }
  }

  /**
   * Drawing a child of `p` with the matrices `p` computed gives every node below the
   * child the same frame as drawing `p` with `p`'s own inherited matrices.
   */
  lemma {:induction false} FrameAtShift<M>(x: SceneNode<M>, c: SceneNode<M>, p: SceneNode<M>, mult: (M, M) -> M, mvp: M,
                                           modelView: M, normalMatrix: M, modelMatrix: Option<M>, scene: set<SceneNode<M>>)
    requires Scene(scene) && p in scene && c in p.children && x in scene && Descends(x, c, scene)
    ensures Descends(x, p, scene)
    ensures var w := WorldModel(mult, modelMatrix, p.trs);
      FrameAt(x, c, mult, mult(mvp, w), mult(modelView, w), normalMatrix, Some(w), scene)
        == FrameAt(x, p, mult, mvp, modelView, normalMatrix, modelMatrix, scene)
    decreases x.depth
  {
    ChildDescends(p, c, scene);
    DescendsTrans(x, c, p, scene);
    DescendsDepth(x, c, scene);
    if x != c {
      FrameAtShift(x.parent, c, p, mult, mvp, modelView, normalMatrix, modelMatrix, scene);
    }
  }

  /**
   * Every invocation of a draw of `n` is the frame `FrameAt` defines along parent
   * references: `n` composes with the inherited matrices and each other node's world
   * model is its parent's times its local matrix, its MVP and model-view are its
   * parent's times its world model, and its normal matrix is its parent's.
   */
  lemma {:induction false} FramesMatchFrameAt<M>(n: SceneNode<M>, mult: (M, M) -> M, mvp: M, modelView: M, normalMatrix: M,
                                                 modelMatrix: Option<M>, scene: set<SceneNode<M>>)
    requires Scene(scene) && n in scene
    ensures forall i | 0 <= i < |n.Frames(mult, mvp, modelView, normalMatrix, modelMatrix, scene)| ::
      var f := n.Frames(mult, mvp, modelView, normalMatrix, modelMatrix, scene)[i];
      Descends(f.node, n, scene) && f == FrameAt(f.node, n, mult, mvp, modelView, normalMatrix, modelMatrix, scene)
    decreases Below(scene, n.depth), 0
  {
    var w := WorldModel(mult, modelMatrix, n.trs);
    var frames := n.Frames(mult, mvp, modelView, normalMatrix, modelMatrix, scene);
    var rest := n.ChildFrames(|n.children|, mult, mult(mvp, w), mult(modelView, w), normalMatrix, w, scene);
    assert frames == [frames[0]] + rest;
    BelowShrinks(scene, n);
    ChildFramesMatchFrameAt(n, |n.children|, mult, mvp, modelView, normalMatrix, modelMatrix, scene);
    assert Descends(n, n, scene);
  }

  /** The same, for the invocations through the first `k` children of `p`. */
  lemma {:induction false} ChildFramesMatchFrameAt<M>(p: SceneNode<M>, k: nat, mult: (M, M) -> M, mvp: M, modelView: M,
                                                      normalMatrix: M, modelMatrix: Option<M>, scene: set<SceneNode<M>>)
    requires Scene(scene) && p in scene && k <= |p.children|
    ensures var w := WorldModel(mult, modelMatrix, p.trs);
      forall i | 0 <= i < |p.ChildFrames(k, mult, mult(mvp, w), mult(modelView, w), normalMatrix, w, scene)| ::
        var f := p.ChildFrames(k, mult, mult(mvp, w), mult(modelView, w), normalMatrix, w, scene)[i];
        Descends(f.node, p, scene) && f == FrameAt(f.node, p, mult, mvp, modelView, normalMatrix, modelMatrix, scene)
    decreases Below(scene, p.depth + 1), k
  {
    if k > 0 {
      var w := WorldModel(mult, modelMatrix, p.trs);
      var c := p.children[k - 1];
      var front := p.ChildFrames(k - 1, mult, mult(mvp, w), mult(modelView, w), normalMatrix, w, scene);
      var back := c.Frames(mult, mult(mvp, w), mult(modelView, w), normalMatrix, Some(w), scene);
      var all := p.ChildFrames(k, mult, mult(mvp, w), mult(modelView, w), normalMatrix, w, scene);
      assert all == front + back;
      ChildDescends(p, c, scene);
      ChildFramesMatchFrameAt(p, k - 1, mult, mvp, modelView, normalMatrix, modelMatrix, scene);
      FramesMatchFrameAt(c, mult, mult(mvp, w), mult(modelView, w), normalMatrix, Some(w), scene);
      forall i | 0 <= i < |back|
        ensures Descends(back[i].node, p, scene)
        ensures back[i] == FrameAt(back[i].node, p, mult, mvp, modelView, normalMatrix, modelMatrix, scene)
      {
        FrameAtShift(back[i].node, c, p, mult, mvp, modelView, normalMatrix, modelMatrix, scene);
      }
      forall i | 0 <= i < |all|
        ensures Descends(all[i].node, p, scene)
        ensures all[i] == FrameAt(all[i].node, p, mult, mvp, modelView, normalMatrix, modelMatrix, scene)
      {
        if i < |front| {
          assert all[i] == front[i];
        } else {
          assert all[i] == back[i - |front|];
        }
      }
    }
  }

  /**
   * With an associative product, the world model matrix of a node `x` below `n` is
   * T1·T2·…·Tk, the local matrices from `n` down to `x`, preceded by the model matrix
   * `n` inherited if it inherited one.
   */
  lemma {:induction false} FrameAtWorldModel<M(!new)>(x: SceneNode<M>, n: SceneNode<M>, mult: (M, M) -> M, mvp: M,
                                                      modelView: M, normalMatrix: M, modelMatrix: Option<M>,
                                                      scene: set<SceneNode<M>>)
    requires Associative(mult)
    requires Scene(scene) && x in scene && Descends(x, n, scene)
    ensures FrameAt(x, n, mult, mvp, modelView, normalMatrix, modelMatrix, scene).model
         == WorldModel(mult, modelMatrix, Product(mult, Locals(x, n, scene)))
    decreases x.depth
  {
    if x != n {
      var ts := Locals(x.parent, n, scene);
      FrameAtWorldModel(x.parent, n, mult, mvp, modelView, normalMatrix, modelMatrix, scene);
      ProductSnoc(mult, ts, x.trs);
    }
  }

  /**
   * The world model matrices of the nodes on the path from `n` down to `x`, `n`'s first,
   * when `n` is drawn with the given matrices.
   */
  ghost function WorldsOnPath<M>(x: SceneNode<M>, n: SceneNode<M>, mult: (M, M) -> M, mvp: M, modelView: M,
                                 normalMatrix: M, modelMatrix: Option<M>, scene: set<SceneNode<M>>): (r: seq<M>)
    requires Scene(scene) && x in scene && Descends(x, n, scene)
    reads scene
    ensures |r| > 0 && r[0] == WorldModel(mult, modelMatrix, n.trs)
    ensures r[|r| - 1] == FrameAt(x, n, mult, mvp, modelView, normalMatrix, modelMatrix, scene).model
    decreases x.depth
  {
    var w := FrameAt(x, n, mult, mvp, modelView, normalMatrix, modelMatrix, scene).model;
    if x == n then [w]
    else WorldsOnPath(x.parent, n, mult, mvp, modelView, normalMatrix, modelMatrix, scene) + [w]
  }

  /**
   * As written, the MVP and model-view a node below `n` receives are the camera's
   * matrices multiplied by the world model matrix of every node on the path from `n`
   * down to it, not by its own world model matrix alone: each ancestor's world model
   * matrix, which already contains the ancestors above it, is applied again.
   */
  lemma {:induction false} FrameAtMvpAsWritten<M>(x: SceneNode<M>, n: SceneNode<M>, mult: (M, M) -> M, mvp: M,
                                                  modelView: M, normalMatrix: M, modelMatrix: Option<M>,
                                                  scene: set<SceneNode<M>>)
    requires Scene(scene) && x in scene && Descends(x, n, scene)
    ensures var f := FrameAt(x, n, mult, mvp, modelView, normalMatrix, modelMatrix, scene);
      var worlds := WorldsOnPath(x, n, mult, mvp, modelView, normalMatrix, modelMatrix, scene);
      f.mvp == Accumulate(mult, mvp, worlds) && f.modelView == Accumulate(mult, modelView, worlds)
    decreases x.depth
  {
    var worlds := WorldsOnPath(x, n, mult, mvp, modelView, normalMatrix, modelMatrix, scene);
    if x == n {
      assert worlds[..0] == [];
    } else {
      var above := WorldsOnPath(x.parent, n, mult, mvp, modelView, normalMatrix, modelMatrix, scene);
      FrameAtMvpAsWritten(x.parent, n, mult, mvp, modelView, normalMatrix, modelMatrix, scene);
      assert worlds[..|worlds| - 1] == above;
    }
  }

  /**
   * One level down, as written: a child `c` of the drawn node `n` receives MVP
   * (mvp·Wn)·(Wn·Tc), where Wn is `n`'s world model matrix, so `n`'s world model matrix
   * is applied twice, while its own world model matrix is Wn·Tc.
   */
  lemma ChildMvpAsWritten<M>(c: SceneNode<M>, n: SceneNode<M>, mult: (M, M) -> M, mvp: M, modelView: M,
                             normalMatrix: M, modelMatrix: Option<M>, scene: set<SceneNode<M>>)
    requires Scene(scene) && n in scene && c in n.children
    ensures c in scene && Descends(c, n, scene)
    ensures var w := WorldModel(mult, modelMatrix, n.trs);
      var f := FrameAt(c, n, mult, mvp, modelView, normalMatrix, modelMatrix, scene);
      f.model == mult(w, c.trs) && f.mvp == mult(mult(mvp, w), mult(w, c.trs))
        && f.modelView == mult(mult(modelView, w), mult(w, c.trs))
  {
    ChildDescends(n, c, scene);
  }

  /**
   * Drawing `n`: every invocation's world model matrix is the root-first product of the
   * local matrices from `n` down to its node (after the inherited model matrix, if any),
   * and its normal matrix is the one passed to `n`.
   */
  lemma LeafWorldModel<M(!new)>(n: SceneNode<M>, mult: (M, M) -> M, mvp: M, modelView: M, normalMatrix: M,
                                modelMatrix: Option<M>, scene: set<SceneNode<M>>)
    requires Associative(mult)
    requires Scene(scene) && n in scene
    ensures forall i | 0 <= i < |n.Frames(mult, mvp, modelView, normalMatrix, modelMatrix, scene)| ::
      var f := n.Frames(mult, mvp, modelView, normalMatrix, modelMatrix, scene)[i];
      Descends(f.node, n, scene) && f.normal == normalMatrix &&
      f.model == WorldModel(mult, modelMatrix, Product(mult, Locals(f.node, n, scene)))
  {
    var frames := n.Frames(mult, mvp, modelView, normalMatrix, modelMatrix, scene);
    FramesMatchFrameAt(n, mult, mvp, modelView, normalMatrix, modelMatrix, scene);
    forall i | 0 <= i < |frames|
      ensures frames[i].model == WorldModel(mult, modelMatrix, Product(mult, Locals(frames[i].node, n, scene)))
    {
      FrameAtWorldModel(frames[i].node, n, mult, mvp, modelView, normalMatrix, modelMatrix, scene);
    }
  }

  /**
   * The corrected traversal makes the same calls as `draw`, in the same order, with the
   * same drawers, world model matrices and normal matrices; only MVP and model-view differ.
   */
  lemma {:induction false} CorrectedTraceAgrees<M>(n: SceneNode<M>, mult: (M, M) -> M, mvp: M, modelView: M,
                                                   cameraMvp: M, cameraModelView: M, normalMatrix: M,
                                                   modelMatrix: Option<M>, scene: set<SceneNode<M>>)
    requires Scene(scene) && n in scene
    ensures var asWritten := n.Trace(mult, mvp, modelView, normalMatrix, modelMatrix, scene);
      var corrected := n.CorrectedTrace(mult, cameraMvp, cameraModelView, normalMatrix, modelMatrix, scene);
      |corrected| == |asWritten| &&
      forall i | 0 <= i < |asWritten| ::
        corrected[i].drawer == asWritten[i].drawer && corrected[i].model == asWritten[i].model
    decreases Below(scene, n.depth), 0
  {
    var w := WorldModel(mult, modelMatrix, n.trs);
    BelowShrinks(scene, n);
    ChildrenCorrectedTraceAgrees(n, |n.children|, mult, mult(mvp, w), mult(modelView, w), cameraMvp, cameraModelView,
                                 normalMatrix, w, scene);
  }

  /** The same, for the first `k` children. */
  lemma {:induction false} ChildrenCorrectedTraceAgrees<M>(p: SceneNode<M>, k: nat, mult: (M, M) -> M, mvp: M, modelView: M,
                                                           cameraMvp: M, cameraModelView: M, normalMatrix: M,
                                                           modelMatrix: M, scene: set<SceneNode<M>>)
    requires Scene(scene) && p in scene && k <= |p.children|
    ensures var asWritten := p.ChildrenTrace(k, mult, mvp, modelView, normalMatrix, modelMatrix, scene);
      var corrected := p.CorrectedChildrenTrace(k, mult, cameraMvp, cameraModelView, normalMatrix, modelMatrix, scene);
      |corrected| == |asWritten| &&
      forall i | 0 <= i < |asWritten| ::
        corrected[i].drawer == asWritten[i].drawer && corrected[i].model == asWritten[i].model
    decreases Below(scene, p.depth + 1), k
  {
    if k > 0 {
      var c := p.children[k - 1];
      ChildDescends(p, c, scene);
      ChildrenCorrectedTraceAgrees(p, k - 1, mult, mvp, modelView, cameraMvp, cameraModelView, normalMatrix, modelMatrix, scene);
      CorrectedTraceAgrees(c, mult, mvp, modelView, cameraMvp, cameraModelView, normalMatrix, Some(modelMatrix), scene);
    }
  }
}
