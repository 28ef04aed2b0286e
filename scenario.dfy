/**
 * A concrete scene drawn with pure translations, whose matrices compose by adding
 * their offsets: root R (identity, no drawer), its child A (translate (1,0,0),
 * drawer 0) and A's child B (translate (0,1,0), drawer 1), drawn with identity
 * camera matrices and an identity inherited model matrix.
 */
module Scenario {
  import opened Optional
  import opened MatrixChain
  import opened SceneGraph
  import opened Rendering

  /** A translation by (x, y, z), standing for its 4x4 matrix. */
  datatype Translation = Translation(x: int, y: int, z: int)

  const Identity := Translation(0, 0, 0)

  /** The product of two translation matrices: the translation by the summed offsets. */
  function Compose(a: Translation, b: Translation): Translation {
    Translation(a.x + b.x, a.y + b.y, a.z + b.z)
  }

  /** R, A and B linked as the constructor links them: R the root, A its child, B A's child. */
  ghost predicate ThreeLevel(r: SceneNode<Translation>, a: SceneNode<Translation>, b: SceneNode<Translation>)
    reads r, a, b
  {
    && r.meshDrawer == None && r.trs == Identity && r.parent == null && r.children == [a] && r.depth == 0
    && a.meshDrawer == Some(0) && a.trs == Translation(1, 0, 0) && a.parent == r && a.children == [b] && a.depth == 1
    && b.meshDrawer == Some(1) && b.trs == Translation(0, 1, 0) && b.parent == a && b.children == [] && b.depth == 2
  }

  /** Building R, then A under R, then B under A links the three nodes as `ThreeLevel` says. */
  method BuildThreeLevel() returns (r: SceneNode<Translation>, a: SceneNode<Translation>, b: SceneNode<Translation>)
    ensures ThreeLevel(r, a, b)
  {
    r := new SceneNode(None, Identity);
    a := new SceneNode(Some(0), Translation(1, 0, 0), r, {r});
    b := new SceneNode(Some(1), Translation(0, 1, 0), a, {r, a});
  }

  /** The three nodes form a well-formed scene. */
  lemma ThreeLevelWellFormed(r: SceneNode<Translation>, a: SceneNode<Translation>, b: SceneNode<Translation>)
    requires ThreeLevel(r, a, b)
    ensures Scene({r, a, b})
  {
  }

  /** B, a leaf, makes exactly its own draw call. */
  lemma ThreeLevelLeaf(r: SceneNode<Translation>, a: SceneNode<Translation>, b: SceneNode<Translation>)
    requires ThreeLevel(r, a, b) && Scene({r, a, b})
    ensures b.Trace(Compose, Translation(1, 0, 0), Translation(1, 0, 0), Identity, Some(Translation(1, 0, 0)), {r, a, b})
      == [DrawCall(1, Translation(2, 1, 0), Translation(2, 1, 0), Identity, Translation(1, 1, 0))]
  {
    assert b.ChildrenTrace(0, Compose, Translation(2, 1, 0), Translation(2, 1, 0), Identity, Translation(1, 1, 0), {r, a, b}) == [];
  }

  /** A makes its own draw call, then B's. */
  lemma ThreeLevelMiddle(r: SceneNode<Translation>, a: SceneNode<Translation>, b: SceneNode<Translation>)
    requires ThreeLevel(r, a, b) && Scene({r, a, b})
    ensures a.Trace(Compose, Identity, Identity, Identity, Some(Identity), {r, a, b}) == [
      DrawCall(0, Translation(1, 0, 0), Translation(1, 0, 0), Identity, Translation(1, 0, 0)),
      DrawCall(1, Translation(2, 1, 0), Translation(2, 1, 0), Identity, Translation(1, 1, 0))]
  {
    var one, scene := Translation(1, 0, 0), {r, a, b};
    ThreeLevelLeaf(r, a, b);
    var leaf := b.Trace(Compose, one, one, Identity, Some(one), scene);
    assert a.children[0] == b;
    assert a.ChildrenTrace(0, Compose, one, one, Identity, one, scene) == [];
    assert a.ChildrenTrace(1, Compose, one, one, Identity, one, scene) == [] + leaf;
    assert a.Trace(Compose, Identity, Identity, Identity, Some(Identity), scene)
      == [DrawCall(0, one, one, Identity, one)] + a.ChildrenTrace(1, Compose, one, one, Identity, one, scene);
    Pair(DrawCall(0, one, one, Identity, one), leaf);
  }

  /**
   * Drawing R with identity camera matrices: A's drawer receives world model
   * translate(1,0,0) and B's translate(1,1,0), the composition of the local matrices
   * on their paths, but B's MVP and model-view come out as translate(2,1,0): A's world
   * matrix is counted twice.
   */
  lemma ThreeLevelTrace(r: SceneNode<Translation>, a: SceneNode<Translation>, b: SceneNode<Translation>)
    requires ThreeLevel(r, a, b) && Scene({r, a, b})
    ensures r.Trace(Compose, Identity, Identity, Identity, Some(Identity), {r, a, b}) == [
      DrawCall(0, Translation(1, 0, 0), Translation(1, 0, 0), Identity, Translation(1, 0, 0)),
      DrawCall(1, Translation(2, 1, 0), Translation(2, 1, 0), Identity, Translation(1, 1, 0))]
  {
    var scene := {r, a, b};
    SilentOnlyChild(r, Compose, Identity, Identity, Identity, Some(Identity), scene);
    assert WorldModel(Compose, Some(Identity), r.trs) == Identity;
    ThreeLevelMiddle(r, a, b);
  }

  /**
   * Drawn as evidently intended, the same scene gives every drawer the camera times
   * its own world model: B receives translate(1,1,0) as its MVP and model-view.
   */
  lemma ThreeLevelCorrected(r: SceneNode<Translation>, a: SceneNode<Translation>, b: SceneNode<Translation>)
    requires ThreeLevel(r, a, b) && Scene({r, a, b})
    ensures r.CorrectedTrace(Compose, Identity, Identity, Identity, Some(Identity), {r, a, b}) == [
      DrawCall(0, Translation(1, 0, 0), Translation(1, 0, 0), Identity, Translation(1, 0, 0)),
      DrawCall(1, Translation(1, 1, 0), Translation(1, 1, 0), Identity, Translation(1, 1, 0))]
  {
    var corrected := r.CorrectedTrace(Compose, Identity, Identity, Identity, Some(Identity), {r, a, b});
    CorrectedShape(r, a, b);
    TwoCalls(corrected, DrawCall(0, Translation(1, 0, 0), Translation(1, 0, 0), Identity, Translation(1, 0, 0)),
             DrawCall(1, Translation(1, 1, 0), Translation(1, 1, 0), Identity, Translation(1, 1, 0)));
  }

  /** The intended trace has the drawers and world models of the trace as written. */
  lemma CorrectedShape(r: SceneNode<Translation>, a: SceneNode<Translation>, b: SceneNode<Translation>)
    requires ThreeLevel(r, a, b) && Scene({r, a, b})
    ensures var corrected := r.CorrectedTrace(Compose, Identity, Identity, Identity, Some(Identity), {r, a, b});
      |corrected| == 2 &&
      corrected[0].drawer == 0 && corrected[0].model == Translation(1, 0, 0) &&
      corrected[1].drawer == 1 && corrected[1].model == Translation(1, 1, 0)
  {
    ThreeLevelTrace(r, a, b);
    CorrectedTraceAgrees(r, Compose, Identity, Identity, Identity, Identity, Identity, Some(Identity), {r, a, b});
  }

  /** A node without a drawer and with one child makes exactly that child's draw calls. */
  lemma SilentOnlyChild<M>(n: SceneNode<M>, mult: (M, M) -> M, mvp: M, modelView: M, normalMatrix: M, modelMatrix: Option<M>,
                           scene: set<SceneNode<M>>)
    requires Scene(scene) && n in scene && n.meshDrawer == None && |n.children| == 1
    ensures n.children[0] in scene
    ensures var w := WorldModel(mult, modelMatrix, n.trs);
      n.Trace(mult, mvp, modelView, normalMatrix, modelMatrix, scene)
        == n.children[0].Trace(mult, mult(mvp, w), mult(modelView, w), normalMatrix, Some(w), scene)
  {
    var w := WorldModel(mult, modelMatrix, n.trs);
    var child := n.children[0].Trace(mult, mult(mvp, w), mult(modelView, w), normalMatrix, Some(w), scene);
    assert n.ChildrenTrace(1, mult, mult(mvp, w), mult(modelView, w), normalMatrix, w, scene) == [] + child;
    assert [] + ([] + child) == child;
  }

  /** A single call followed by a one-call trace is the two-call trace. */
  lemma Pair<T>(x: T, rest: seq<T>)
    requires |rest| == 1
    ensures [x] + ([] + rest) == [x, rest[0]]
  {
  }

  /** A two-call trace is determined by its two calls. */
  lemma TwoCalls<T>(s: seq<T>, x: T, y: T)
    requires |s| == 2 && s[0] == x && s[1] == y
    ensures s == [x, y]
  {
  }

  /**
   * Builds R, A and B with the constructor and draws R with identity camera matrices:
   * the draw calls as written, and the intended ones.
   */
  method ThreeLevelScene() returns (asWritten: seq<DrawCall<Translation>>, corrected: seq<DrawCall<Translation>>)
    ensures asWritten == [
      DrawCall(0, Translation(1, 0, 0), Translation(1, 0, 0), Identity, Translation(1, 0, 0)),
      DrawCall(1, Translation(2, 1, 0), Translation(2, 1, 0), Identity, Translation(1, 1, 0))]
    ensures corrected == [
      DrawCall(0, Translation(1, 0, 0), Translation(1, 0, 0), Identity, Translation(1, 0, 0)),
      DrawCall(1, Translation(1, 1, 0), Translation(1, 1, 0), Identity, Translation(1, 1, 0))]
  {
    var r, a, b := BuildThreeLevel();
    ThreeLevelWellFormed(r, a, b);
    asWritten := r.Draw(Compose, Identity, Identity, Identity, Some(Identity), {r, a, b});
    ThreeLevelWellFormed(r, a, b);
    corrected := r.CorrectedTrace(Compose, Identity, Identity, Identity, Some(Identity), {r, a, b});
    ThreeLevelTrace(r, a, b);
    ThreeLevelCorrected(r, a, b);
  }
}
