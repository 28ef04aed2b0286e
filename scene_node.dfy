/**
 * The scene-graph node of cs405-project3/src/sceneNode.js.
 *
 * A node holds an optional mesh drawer, the matrix its TRS transform produces,
 * a back-reference to its parent and the ordered list of its children.
 * Constructing a node with a parent appends it to that parent's children;
 * drawing a node composes its matrices with the inherited ones, calls its
 * drawer (if any) and draws its children in order with the new matrices.
 *
 * The drawer's side effect is modelled as the sequence of `DrawCall` records
 * a draw produces. The tree shape is not checked by the source; here it is the
 * precondition `Scene(scene)`: every node of `scene` is linked both ways to its
 * parent and its children, and a ghost `depth` (the parent's depth plus one,
 * fixed at construction) gives the recursion a measure.
 */
module SceneGraph {
  import opened Optional
  import opened MatrixChain

  /** Identity of a mesh drawer (the source holds a MeshDrawer object). */
  type DrawerId = nat

  /** One call `meshDrawer.draw(mvp, modelView, normal, model)`. */
  datatype DrawCall<M> = DrawCall(drawer: DrawerId, mvp: M, modelView: M, normal: M, model: M)

  /**
   * One invocation of a node's `draw`: the node, its drawer and the four matrices
   * it computes (and hands to its drawer and to its children).
   */
  datatype Frame<M> = Frame(node: SceneNode<M>, drawer: Option<DrawerId>, mvp: M, modelView: M, normal: M, model: M)

  /** No element occurs twice. */
  ghost predicate Distinct<T>(s: seq<T>) {
    forall i, j | 0 <= i < j < |s| :: s[i] != s[j]
  }

  /**
   * `scene` is a well-formed forest: a node with a parent sits one level below it
   * and occurs in the parent's children, each node's children are distinct, and
   * every child points back to the node that holds it.
   */
  ghost predicate Scene<M>(scene: set<SceneNode<M>>)
    reads scene
  {
    && (forall n {:trigger n.parent} | n in scene && n.parent != null ::
          n.parent in scene && n.depth == n.parent.depth + 1 && n in n.parent.children)
    && (forall n | n in scene :: Distinct(n.children) && forall c | c in n.children :: c in scene && c.parent == n)
  }

  /** The nodes of `scene` at depth `d` or deeper: the termination measure of every traversal. */
  ghost function Below<M>(scene: set<SceneNode<M>>, d: nat): set<SceneNode<M>>
    reads scene
  {
    set m | m in scene && m.depth >= d
  }

  /** Going one level down strictly shrinks the measure. */
  lemma BelowShrinks<M>(scene: set<SceneNode<M>>, n: SceneNode<M>)
    requires n in scene
    ensures Below(scene, n.depth + 1) < Below(scene, n.depth)
  {
    assert n in Below(scene, n.depth) - Below(scene, n.depth + 1);
  }

  /** Concatenation of draw-call sequences is associative. */
  lemma AppendAssoc<T>(a: seq<T>, b: seq<T>, c: seq<T>)
    ensures (a + b) + c == a + (b + c)
  {
  }

  class SceneNode<M> {
    var meshDrawer: Option<DrawerId>
    /** The matrix `trs.getTransformationMatrix()` returns. */
    var trs: M
    var parent: SceneNode?<M>
    var children: seq<SceneNode<M>>
    ghost var depth: nat

    /**
     * Stores the drawer, the local matrix and the parent, starts with no children
     * and, when a parent is given, appends the new node to the parent's children.
     * Built onto a well-formed scene, the scene with the new node is well formed.
     */
    constructor (meshDrawer: Option<DrawerId>, trs: M, parent: SceneNode?<M> := null, ghost scene: set<SceneNode<M>> := {})
      modifies (if parent == null then {} else {parent})`children
      ensures this.meshDrawer == meshDrawer && this.trs == trs && this.parent == parent && children == []
      ensures depth == if parent == null then 0 else parent.depth + 1
      ensures parent != null ==> parent.children == old(parent.children) + [this]
      ensures old(Scene(scene)) && (parent != null ==> parent in scene) ==> Scene(scene + {this})
    {
      this.meshDrawer := meshDrawer;
      this.trs := trs;
      this.parent := parent;
      this.children := [];
      this.depth := if parent == null then 0 else parent.depth + 1;
      new;
      if parent != null {
        parent.AddChild(this);
      }
    }

    /** Appends `node` as the last child; nothing else changes. */
    method AddChild(node: SceneNode<M>)
      modifies this`children
      ensures children == old(children) + [node]
    {
      children := children + [node];
    }

    /**
     * The draw calls `draw(mvp, modelView, normalMatrix, modelMatrix)` makes, in order.
     * An absent `modelMatrix` is `None`. The normal matrix reaches every call unchanged.
     */
    function Trace(mult: (M, M) -> M, mvp: M, modelView: M, normalMatrix: M, modelMatrix: Option<M>,
                   ghost scene: set<SceneNode<M>>): (r: seq<DrawCall<M>>)
      requires Scene(scene) && this in scene
      reads scene
      ensures forall k | 0 <= k < |r| :: r[k].normal == normalMatrix
      decreases Below(scene, depth), 0
    {
      var worldModel := WorldModel(mult, modelMatrix, trs);
      var worldMvp := mult(mvp, worldModel);
      var worldModelView := mult(modelView, worldModel);
      BelowShrinks(scene, this);
      (if meshDrawer.Some? then [DrawCall(meshDrawer.value, worldMvp, worldModelView, normalMatrix, worldModel)] else [])
        + ChildrenTrace(|children|, mult, worldMvp, worldModelView, normalMatrix, worldModel, scene)
    }

    /** The draw calls of the first `k` children, each drawn with the given matrices. */
    function ChildrenTrace(k: nat, mult: (M, M) -> M, mvp: M, modelView: M, normalMatrix: M, modelMatrix: M,
                           ghost scene: set<SceneNode<M>>): (r: seq<DrawCall<M>>)
      requires Scene(scene) && this in scene && k <= |children|
      reads scene
      ensures forall i | 0 <= i < |r| :: r[i].normal == normalMatrix
      decreases Below(scene, depth + 1), k
    {
      if k == 0 then []
      else
        ChildrenTrace(k - 1, mult, mvp, modelView, normalMatrix, modelMatrix, scene)
          + children[k - 1].Trace(mult, mvp, modelView, normalMatrix, Some(modelMatrix), scene)
    }

    /**
     * `draw` itself: computes the world matrices, calls the drawer if there is one and
     * draws every child in order. It changes no field of any node.
     */
    method Draw(mult: (M, M) -> M, mvp: M, modelView: M, normalMatrix: M, modelMatrix: Option<M>,
                ghost scene: set<SceneNode<M>>) returns (calls: seq<DrawCall<M>>)
      requires Scene(scene) && this in scene
      ensures calls == Trace(mult, mvp, modelView, normalMatrix, modelMatrix, scene)
      decreases Below(scene, depth), 0
    {
      var localTransformationMatrix := trs;
      var worldModelMatrix := if modelMatrix.Some? then mult(modelMatrix.value, localTransformationMatrix)
                              else localTransformationMatrix;
      var worldMvp := mult(mvp, worldModelMatrix);
      var worldModelView := mult(modelView, worldModelMatrix);
      var worldNormalMatrix := normalMatrix;
      calls := [];
      if meshDrawer.Some? {
        calls := [DrawCall(meshDrawer.value, worldMvp, worldModelView, worldNormalMatrix, worldModelMatrix)];
      }
      ghost var own := calls;
      BelowShrinks(scene, this);
      for i := 0 to |children|
        invariant calls == own + ChildrenTrace(i, mult, worldMvp, worldModelView, worldNormalMatrix, worldModelMatrix, scene)
      {
        var child := children[i];
        assert child in scene && child.depth == depth + 1;
        var childCalls := child.Draw(mult, worldMvp, worldModelView, worldNormalMatrix, Some(worldModelMatrix), scene);
        AppendAssoc(own, ChildrenTrace(i, mult, worldMvp, worldModelView, worldNormalMatrix, worldModelMatrix, scene), childCalls);
        calls := calls + childCalls;
      }
    }

    /** The nodes whose `draw` runs when this node is drawn, in the order they run. */
    ghost function Visits(scene: set<SceneNode<M>>): (r: seq<SceneNode<M>>)
      requires Scene(scene) && this in scene
      reads scene
      ensures |r| > 0 && r[0] == this
      ensures forall i | 0 <= i < |r| :: r[i] in scene
      decreases Below(scene, depth), 0
    {
      BelowShrinks(scene, this);
      [this] + ChildVisits(|children|, scene)
    }

    /** The nodes visited by drawing the first `k` children. */
    ghost function ChildVisits(k: nat, scene: set<SceneNode<M>>): (r: seq<SceneNode<M>>)
      requires Scene(scene) && this in scene && k <= |children|
      reads scene
      ensures forall i | 0 <= i < |r| :: r[i] in scene
      decreases Below(scene, depth + 1), k
    {
      if k == 0 then [] else ChildVisits(k - 1, scene) + children[k - 1].Visits(scene)
    }

    /** Every `draw` invocation of the traversal with the matrices it computes, in order. */
    ghost function Frames(mult: (M, M) -> M, mvp: M, modelView: M, normalMatrix: M, modelMatrix: Option<M>,
                          scene: set<SceneNode<M>>): (r: seq<Frame<M>>)
      requires Scene(scene) && this in scene
      reads scene
      ensures forall i | 0 <= i < |r| :: r[i].node in scene && r[i].drawer == r[i].node.meshDrawer
      decreases Below(scene, depth), 0
    {
      var worldModel := WorldModel(mult, modelMatrix, trs);
      var worldMvp := mult(mvp, worldModel);
      var worldModelView := mult(modelView, worldModel);
      BelowShrinks(scene, this);
      [Frame(this, meshDrawer, worldMvp, worldModelView, normalMatrix, worldModel)]
        + ChildFrames(|children|, mult, worldMvp, worldModelView, normalMatrix, worldModel, scene)
    }

    /** The `draw` invocations of the first `k` children, each drawn with the given matrices. */
    ghost function ChildFrames(k: nat, mult: (M, M) -> M, mvp: M, modelView: M, normalMatrix: M, modelMatrix: M,
                               scene: set<SceneNode<M>>): (r: seq<Frame<M>>)
      requires Scene(scene) && this in scene && k <= |children|
      reads scene
      ensures forall i | 0 <= i < |r| :: r[i].node in scene && r[i].drawer == r[i].node.meshDrawer
      decreases Below(scene, depth + 1), k
    {
      if k == 0 then []
      else
        ChildFrames(k - 1, mult, mvp, modelView, normalMatrix, modelMatrix, scene)
          + children[k - 1].Frames(mult, mvp, modelView, normalMatrix, Some(modelMatrix), scene)
    }

    /**
     * `draw` as evidently intended: children receive the camera's MVP and model-view
     * unchanged (only the model matrix accumulates), so every drawer gets the camera
     * matrices times its own world model matrix.
     */
    function CorrectedTrace(mult: (M, M) -> M, mvp: M, modelView: M, normalMatrix: M, modelMatrix: Option<M>,
                            ghost scene: set<SceneNode<M>>): (r: seq<DrawCall<M>>)
      requires Scene(scene) && this in scene
      reads scene
      ensures forall k | 0 <= k < |r| ::
        r[k].mvp == mult(mvp, r[k].model) && r[k].modelView == mult(modelView, r[k].model) && r[k].normal == normalMatrix
      decreases Below(scene, depth), 0
    {
      var worldModel := WorldModel(mult, modelMatrix, trs);
      BelowShrinks(scene, this);
      (if meshDrawer.Some? then [DrawCall(meshDrawer.value, mult(mvp, worldModel), mult(modelView, worldModel), normalMatrix, worldModel)] else [])
        + CorrectedChildrenTrace(|children|, mult, mvp, modelView, normalMatrix, worldModel, scene)
    }

    /** The intended draw calls of the first `k` children. */
    function CorrectedChildrenTrace(k: nat, mult: (M, M) -> M, mvp: M, modelView: M, normalMatrix: M, modelMatrix: M,
                                    ghost scene: set<SceneNode<M>>): (r: seq<DrawCall<M>>)
      requires Scene(scene) && this in scene && k <= |children|
      reads scene
      ensures forall i | 0 <= i < |r| ::
        r[i].mvp == mult(mvp, r[i].model) && r[i].modelView == mult(modelView, r[i].model) && r[i].normal == normalMatrix
      decreases Below(scene, depth + 1), k
    {
      if k == 0 then []
      else
        CorrectedChildrenTrace(k - 1, mult, mvp, modelView, normalMatrix, modelMatrix, scene)
          + children[k - 1].CorrectedTrace(mult, mvp, modelView, normalMatrix, Some(modelMatrix), scene)
    }
  }

  /** The draw call a frame makes, if its node has a drawer. */
  function Records<M>(frames: seq<Frame<M>>): seq<DrawCall<M>>
  {
    if frames == [] then []
    else
      var f := frames[0];
      (if f.drawer.Some? then [DrawCall(f.drawer.value, f.mvp, f.modelView, f.normal, f.model)] else [])
        + Records(frames[1..])
  }

  /** `m` is `n` or lies below `n`, following parent references upwards. */
  ghost predicate Descends<M>(m: SceneNode<M>, n: SceneNode<M>, scene: set<SceneNode<M>>)
    requires Scene(scene) && m in scene
    reads scene
    decreases m.depth
  {
    m == n || (m.parent != null && Descends(m.parent, n, scene))
  }

  /** The local matrices on the path from `n` down to `m`, root-most first. */
  ghost function Locals<M>(m: SceneNode<M>, n: SceneNode<M>, scene: set<SceneNode<M>>): (r: seq<M>)
    requires Scene(scene) && m in scene && Descends(m, n, scene)
    reads scene
    ensures |r| > 0 && r[0] == n.trs && r[|r| - 1] == m.trs && |r| == m.depth - n.depth + 1
    decreases m.depth
  {
    if m == n then [m.trs] else Locals(m.parent, n, scene) + [m.trs]
  }

  /**
   * The frame of a node `x` below `n` when `n` is drawn with the given matrices,
   * defined upwards along parent references: `n` composes with the inherited
   * matrices, every other node with its parent's frame.
   */
  ghost function FrameAt<M>(x: SceneNode<M>, n: SceneNode<M>, mult: (M, M) -> M, mvp: M, modelView: M, normalMatrix: M,
                            modelMatrix: Option<M>, scene: set<SceneNode<M>>): (r: Frame<M>)
    requires Scene(scene) && x in scene && Descends(x, n, scene)
    reads scene
    ensures r.node == x && r.normal == normalMatrix
    decreases x.depth
  {
    if x == n then
      var w := WorldModel(mult, modelMatrix, n.trs);
      Frame(n, n.meshDrawer, mult(mvp, w), mult(modelView, w), normalMatrix, w)
    else
      var up := FrameAt(x.parent, n, mult, mvp, modelView, normalMatrix, modelMatrix, scene);
      var w := WorldModel(mult, Some(up.model), x.trs);
      Frame(x, x.meshDrawer, mult(up.mvp, w), mult(up.modelView, w), up.normal, w)
  }
}
