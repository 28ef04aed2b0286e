# Scene graph node, in Dafny

This project models `SceneNode` from `cs405-project3/src/sceneNode.js`, the node of a
small WebGL scene graph. A node owns an optional mesh drawer and a local TRS transform,
and keeps a reference to its parent and an ordered list of its children. Constructing a
node under a parent registers it as the parent's last child. `draw(mvp, modelView,
normalMatrix, modelMatrix)` works in three steps:

- It composes the inherited model matrix with the node's local matrix into a world model
  matrix, and derives the node's MVP and model-view matrices from it.
- It calls the drawer (if there is one) with those matrices and the unchanged normal
  matrix.
- It draws every child, in order, with the matrices just computed.

The model has the following parts:

- `SceneGraph`: the node as a class, whose constructor and `AddChild` update fields in
  place. `Draw` is the recursive method with the source's `for` loop. It is proved equal
  to `Trace`, the sequence of drawer calls a draw makes. The model also defines:
  - `Visits` (the nodes whose `draw` runs, in order);
  - `Frames` (the matrices each of those invocations computes);
  - `FrameAt`, an independent definition of one node's frame by following parent
    references upwards.

  Matrix multiplication is a parameter `mult`. Its only assumed property is
  associativity, and only where a lemma says so.
- `Ancestry`: facts about parent references in a well-formed scene.
- `Traversal`: the visiting order. Drawing a node visits each of its descendants exactly
  once, a node before its descendants, and the subtree of an earlier child before that
  of a later one.
- `Rendering`: what each drawer receives. The calls are the frames whose node has a
  drawer, in visiting order. Each frame matches `FrameAt`. Every world model matrix is
  the inherited matrix times the product of the local matrices from the drawn node down
  to the drawer's node, and the normal matrix is passed through unchanged.
- `Scenario`: the three-level scene of translations, and the double-counted MVP listed
  under Findings.

A scene is well formed (`Scene`) when every node's parent and children are linked both
ways, no node lists the same child twice, and a child's ghost `depth` is its parent's
plus one. The source never checks that
the parent links are acyclic. Here that is the precondition of `Draw`, and the
constructor proves that building onto a well-formed scene keeps it well formed.

## Model

| member | source | states |
|---|---|---|
| SceneGraph.SceneNode.constructor | cs405-project3/src/sceneNode.js:11-20 | stores drawer, local transform and parent and starts with no children; with a parent, the parent's children become the old children followed by the new node; a well-formed scene with the new node added stays well formed |
| SceneGraph.SceneNode.AddChild | cs405-project3/src/sceneNode.js:22-24 | the children become the old children followed by the added node; nothing else changes |
| SceneGraph.SceneNode.Draw | cs405-project3/src/sceneNode.js:26-47 | the drawer calls of one `draw` are exactly `Trace` of the same inputs, and no field of any node changes |
| SceneGraph.SceneNode.Trace | cs405-project3/src/sceneNode.js:26-47 | every drawer call of a draw receives the inherited normal matrix unchanged |
| SceneGraph.SceneNode.ChildrenTrace | cs405-project3/src/sceneNode.js:44-46 | every drawer call made while drawing the children receives the normal matrix handed to them |
| SceneGraph.SceneNode.Visits | cs405-project3/src/sceneNode.js:39-46 | the first `draw` to run is the node's own, and every node drawn is in the scene |
| SceneGraph.SceneNode.Frames | cs405-project3/src/sceneNode.js:39-41 | each `draw` invocation uses the drawer of the node being drawn |
| SceneGraph.Locals | cs405-project3/src/sceneNode.js:28-31 | the local matrices on the path from an ancestor down to a node start with the ancestor's, end with the node's, and number one more than the depth difference |
| SceneGraph.FrameAt | cs405-project3/src/sceneNode.js:31-36 | a node's frame, defined upwards along parent references, belongs to that node and carries the inherited normal matrix |
| MatrixChain.ProductSnoc | cs405-project3/src/sceneNode.js:31 | with associative multiplication, extending a chain of local matrices by one multiplies its product on the right by that matrix |
| Ancestry.DescendsDepth | cs405-project3/src/sceneNode.js:14-19 | an ancestor is in the scene and no deeper than its descendant, strictly shallower when distinct |
| Ancestry.DescendsTrans | cs405-project3/src/sceneNode.js:14-19 | descent along parent references is transitive |
| Ancestry.CommonAncestorsAtDepth | cs405-project3/src/sceneNode.js:14-19 | a node has at most one ancestor at each depth |
| Ancestry.ChildOnPath | cs405-project3/src/sceneNode.js:15-18 | a proper descendant of a node descends from one of its children |
| Traversal.VisitsSound | cs405-project3/src/sceneNode.js:44-46 | every node drawn descends from the node drawn first |
| Traversal.VisitsComplete | cs405-project3/src/sceneNode.js:44-46 | every descendant of the drawn node is drawn |
| Traversal.VisitsDistinct | cs405-project3/src/sceneNode.js:44-46 | no node is drawn twice |
| Traversal.VisitsExactlyOnce | cs405-project3/src/sceneNode.js:26-47 | a node of the scene is drawn if and only if it descends from the drawn node, and then exactly once |
| Traversal.VisitsPreOrder | cs405-project3/src/sceneNode.js:39-46 | a node is drawn before each of its descendants |
| Traversal.VisitsSiblingOrder | cs405-project3/src/sceneNode.js:44-46 | for any node, every node under an earlier child is drawn before every node under a later child |
| Rendering.RecordsAppend | cs405-project3/src/sceneNode.js:44-46 | the drawer calls of two runs of invocations in a row are the calls of the first run followed by those of the second |
| Rendering.FramesFollowVisits | cs405-project3/src/sceneNode.js:44-46 | the invocations of a draw are one per visited node, in visiting order |
| Rendering.TraceIsRecordsOfFrames | cs405-project3/src/sceneNode.js:39-41 | the drawer calls of a draw are exactly the invocations whose node has a drawer, in order, each with its invocation's matrices |
| Rendering.FrameAtShift | cs405-project3/src/sceneNode.js:44-46 | drawing a child with the matrices its parent computed gives each node below the child the frame it gets when the parent is drawn |
| Rendering.FramesMatchFrameAt | cs405-project3/src/sceneNode.js:26-47 | every invocation of a draw is that of a descendant of the drawn node and equals the frame `FrameAt` defines for it |
| Rendering.FrameAtWorldModel | cs405-project3/src/sceneNode.js:31 | with associative multiplication, a node's world model matrix is the inherited model matrix times the product of the local matrices from the drawn node down to it, or that product alone when none is inherited |
| Rendering.WorldsOnPath | cs405-project3/src/sceneNode.js:31 | the world model matrices on the path from the drawn node down to a node start with the drawn node's and end with that node's |
| Rendering.FrameAtMvpAsWritten | cs405-project3/src/sceneNode.js:31-45 | as written, a node's MVP and model-view are the camera's matrices multiplied in turn by the world model matrix of every node on the path from the drawn node down to it |
| Rendering.ChildMvpAsWritten | cs405-project3/src/sceneNode.js:31-45 | as written, a child of the drawn node gets MVP (mvp·W)·(W·T) and model-view (modelView·W)·(W·T), where W is the drawn node's world model matrix and T the child's local matrix, while its world model matrix is W·T |
| Rendering.LeafWorldModel | cs405-project3/src/sceneNode.js:31-40 | every invocation of a draw has the world model matrix of `FrameAtWorldModel` and the inherited normal matrix |
| SceneGraph.SceneNode.CorrectedTrace | cs405-project3/src/sceneNode.js:32-33 | in the corrected traversal, every drawer call's MVP and model-view are the camera's matrices times that call's world model matrix |
| Rendering.CorrectedTraceAgrees | cs405-project3/src/sceneNode.js:31-46 | the corrected traversal calls the same drawers in the same order with the same world model matrices as the source's, whatever camera matrices it is given |
| Scenario.BuildThreeLevel | cs405-project3/src/sceneNode.js:11-20 | building a root, a child under it and a grandchild under the child links the three nodes both ways with the given drawers and transforms |
| Scenario.ThreeLevelWellFormed | cs405-project3/src/sceneNode.js:11-20 | the three nodes form a well-formed scene |
| Scenario.ThreeLevelTrace | cs405-project3/src/sceneNode.js:26-47 | drawing the root with identity matrices calls A's drawer with world model translate(1,0,0) and B's with translate(1,1,0), but gives B MVP and model-view translate(2,1,0) |
| Scenario.ThreeLevelCorrected | cs405-project3/src/sceneNode.js:32-33 | the corrected traversal of the same scene gives B MVP and model-view translate(1,1,0) |
| Scenario.ThreeLevelScene | cs405-project3/src/sceneNode.js:11-47 | the constructor followed by `Draw` yields the calls of `ThreeLevelTrace`, and the corrected traversal yields those of `ThreeLevelCorrected` |

## Left out

- `MatrixMult` is a parameter `mult` over an arbitrary matrix type. 4x4 matrix arithmetic and floating point are not modelled. Associativity is the only property assumed of it, and only by the lemmas that state it as a precondition.
- `TRS` and `getTransformationMatrix()` are not part of this model. The node stores the matrix that call returns, and a change to the TRS object after construction is not modelled.
- `MeshDrawer.draw` is represented by the `DrawCall` record it receives. The drawer's rendering is not modelled, and a drawer is identified by a number.
- JavaScript truthiness: an absent or falsy `parent`, `meshDrawer` or `modelMatrix` is `null` or `None`. Other falsy values (`0`, `""`) are not distinguished.
- Cycles: the source never checks that a parent is not a descendant, and `draw` on a cyclic graph would recurse until the stack overflows. The model requires a well-formed scene instead, and its ghost `depth` field rules cycles out.
- `SceneGraph.SceneNode.AddChild`: JavaScript lets a caller invoke `__addChild` directly or assign `parent`/`children`. The model states only what `AddChild` does to `children`; it does not claim such direct use keeps a scene well formed.
- Exceptions a drawer or `MatrixMult` might throw are not modelled.

## Findings

| source | as written | input that shows it | evidently intended | confidence | as-written member | corrected member |
|---|---|---|---|---|---|---|
| cs405-project3/src/sceneNode.js:32-33 | a child receives its parent's `worldMvp` and `worldModelView` and multiplies them by its own world model matrix, which already contains the parent's world model matrix. A node k levels below the drawn node therefore gets the camera matrix times the world model matrices of all k+1 nodes on its path, in order, instead of its own alone: already a child of the drawn node gets the drawn node's world model matrix twice, and a local matrix j levels above the node is applied j+1 times | root R (identity, no drawer), A under R (translate(1,0,0), drawer 0), B under A (translate(0,1,0), drawer 1), drawn with identity matrices: B's drawer gets MVP translate(2,1,0) and world model translate(1,1,0) | MVP and model-view equal to the camera's projection-view and view matrices times the node's world model matrix, i.e. translate(1,1,0) for B | not executed | Scenario.ThreeLevelTrace | SceneGraph.SceneNode.CorrectedTrace |

`Draw` and `Trace` keep the behaviour as written, because they model the source. The
corrected traversal `CorrectedTrace` passes the camera's matrices to children unchanged.
`Rendering.CorrectedTraceAgrees` proves it calls the same drawers with the same world
model matrices, and `Scenario.ThreeLevelCorrected` shows its result on the scene above.
For any scene, `Rendering.FrameAtMvpAsWritten` states the MVP and model-view as written
as the camera's matrices times every world model matrix on the path, and
`Rendering.ChildMvpAsWritten` spells this out for a child of the drawn node. In the
scene above R's local matrix is the identity, so the doubling first shows at B.
