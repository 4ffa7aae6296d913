# Katamari player script — a Dafny model

The game is a katamari-style roller. The player is a cluster that rolls
around the scene. Every object tagged `Mergeable` that it touches is glued
on: the object becomes a child of the player's transform, and its physics
body is frozen (made kinematic). Its mass is added to the cluster's running
total and its collider is switched off. The object and everything below it
move to the `Player` layer. At start-up the script adds the player's own
mass to the total. It also builds a collision mesh wrapped around the
cluster: a latitude/longitude grid of resolution 3, sampled by ray casts
and stitched into two triangles per grid cell.

The project has four modules:

- `Envelope` covers the mesh builder. It proves the index layout of the
  vertex and triangle arrays: sizes, in-range indices, the one-to-one
  numbering of grid cells and triangle slots, longitude wrap-around, and
  the diagonal shared by the two triangles of a cell.
- `Tree` covers the transform hierarchy. It is an arena of nodes with
  parent and ordered child lists, plus a ghost depth that rules out
  cycles. The module also holds the invariant of the stack-based
  depth-first walk and the lemmas about re-parenting.
- `Scene` holds the scene graph as a class. `SetParent` re-parents a node
  and `SetAllLayers` relabels a subtree in place with an explicit stack.
- `Player` holds the script itself, `CameraPosition`: its mass and merge
  counters, `Start`, and `OnCollisionEnter`.

Points worth knowing about how the script behaves:

- Absorption is not idempotent. There is no "already attached" or
  "already kinematic" guard, so touching an absorbed object again counts
  its mass and the merge again.
- The envelope is not rebuilt on each merge. The script builds it only in
  `Start`.
- An absorbed object is parented directly under the player's transform.
  There is no separate container node.
- An absorbed object is not moved toward the centre by a settle factor.
- Mass is accumulated explicitly in `totalMass`. The engine's own mass
  combination is not used.
- Rays are cast from the centre outward, and the farthest hit on the
  Player layer is kept.

## Model

| member | source | states |
|---|---|---|
| Envelope.VertexIndexInRange | Assets/CameraPosition.cs:91-112 | the index i·r+j of every grid cell lies inside the r·r vertex array |
| Envelope.VertexIndexInjective | Assets/CameraPosition.cs:95-112 | two different cells never share a vertex index, so each slot is written once |
| Envelope.VertexIndexOnto | Assets/CameraPosition.cs:95-112 | every slot of the vertex array is the index of some cell (its quotient and remainder by r), so the loops fill the whole array |
| Envelope.SamplesAt | Assets/CameraPosition.cs:112 | the vertex array's slot i·r+j holds the sample of cell (i, j) |
| Envelope.SlotDecodes | Assets/CameraPosition.cs:121-129 | slot offset+t of cell (i, j) decodes back to that cell and corner t, and the triangle value found there is that corner's vertex |
| Envelope.SlotsInRange | Assets/CameraPosition.cs:119-129 | every slot 6·(i·r+j)+t written for a cell of the first r−1 rows lies inside the triangle array |
| Envelope.SlotsDistinct | Assets/CameraPosition.cs:119-131 | different cells or corners get different slots, so no slot is written twice |
| Envelope.SlotsCover | Assets/CameraPosition.cs:92-131 | every slot of the triangle array is a corner of a cell of the first r−1 rows, so the six-slot blocks tile the array of 6·r·(r−1) entries (line 92) with no gap: two triangles per cell of the first r−1 rows |
| Envelope.CornerValid | Assets/CameraPosition.cs:123-129 | each of the six vertex indices written for a grid cell lies in [0, r·r) |
| Envelope.TriangleIndicesValid | Assets/CameraPosition.cs:123-129 | every value in the whole triangle array is a valid vertex index |
| Envelope.Wrapping | Assets/CameraPosition.cs:124-129 | the next longitude column after column r−1 is column 0. The next latitude row is always i+1, because the rows stop at r−2 |
| Envelope.SharedDiagonal | Assets/CameraPosition.cs:123-129 | entries offset+1 and offset+2 equal entries offset+4 and offset+5, so the two triangles of a cell share the diagonal edge |
| Envelope.ResolutionThree | Assets/CameraPosition.cs:89-92 | at the game's resolution 3 there are 9 vertices and 36 triangle indices. Two concrete cells are checked: the first cell and the wrapping one |
| Envelope.SampleVertices | Assets/CameraPosition.cs:95-116 | the nested loops fill a fresh array with exactly `Samples(r, sample)`: r·r vertices, cell (i, j) at i·r+j |
| Envelope.BuildTriangles | Assets/CameraPosition.cs:119-131 | the nested loops fill the fresh triangle array with exactly the layout `Layout(r)`, corner t of cell (i, j) at slot 6·(i·r+j)+t |
| Envelope.GenerateCollisionMesh | Assets/CameraPosition.cs:88-142 | the mesh has r·r sampled vertices and the triangle layout, and every triangle entry indexes the vertex array |
| Tree.SubtreeDepth | Assets/CameraPosition.cs:79-86 | a descendant lies at least as deep as its ancestor |
| Tree.SubtreeTransitive | Assets/CameraPosition.cs:79-86 | descent in the transform hierarchy is transitive |
| Tree.ChildInSubtree | Assets/CameraPosition.cs:84 | a child enumerated from a transform, and everything below it, is in that transform's subtree |
| Tree.ChildOnPath | Assets/CameraPosition.cs:84 | every proper descendant of a transform lies below one of its enumerated children |
| Tree.SubtreeHoldsChildren | Assets/CameraPosition.cs:84 | the subtree of the root holds the children of each of its nodes |
| Tree.FrontierStart | Assets/CameraPosition.cs:80 | the stack holding only root satisfies the walk invariant |
| Tree.ChildrenAreNew | Assets/CameraPosition.cs:84 | the children pushed for the popped node are in the subtree and are neither visited, nor on the stack, nor root |
| Tree.FrontierPop | Assets/CameraPosition.cs:81-84 | one pop–relabel–push step keeps the walk invariant. The popped node is a node of the subtree not visited before, so no node is relabelled twice and the loop ends |
| Tree.FrontierDone | Assets/CameraPosition.cs:81-86 | when the stack is empty, every node of the root's subtree has been visited |
| Tree.Without | Assets/CameraPosition.cs:68 | removing a node from its old parent's child list keeps every other child and the list's distinctness |
| Tree.ReparentKeepsForest | Assets/CameraPosition.cs:68 | re-parenting x under p (p not below x) keeps the hierarchy a forest, with x moved to the end of p's children |
| Tree.ReparentKeepsSubtree | Assets/CameraPosition.cs:68 | re-parenting x leaves the set of x's descendants unchanged |
| Scene.PushAll | Assets/CameraPosition.cs:84 | pushing the children one by one leaves the stack extended by all of them, in order |
| Scene.SceneGraph.SetParent | Assets/CameraPosition.cs:68 | the hierarchy stays valid, x's parent becomes p, the child lists are `Reattached`, and x's subtree is unchanged |
| Scene.SceneGraph.SetAllLayers | Assets/CameraPosition.cs:79-86 | every node in root's subtree gets the new layer and every other node keeps its old one. Only the layer field may change, so the hierarchy is untouched |
| Player.CameraPosition.constructor | Assets/CameraPosition.cs:20-21 | the mass and merge counters start at zero |
| Player.CameraPosition.Start | Assets/CameraPosition.cs:25-35 | the player's own mass is added to the total. The mesh is 9 sampled vertices with the resolution-3 triangle layout, and every triangle index is in range |
| Player.CameraPosition.OnCollisionEnter | Assets/CameraPosition.cs:66-76 | a contact with an object not tagged Mergeable changes nothing. A Mergeable contact re-parents the object under the player and adds 1 to the merge count. Its rigidbody, if present, turns kinematic and adds its mass to the total; with none, the mass is unchanged. Its collider, if present, is disabled, and its subtree moves to the player layer |

## Left out

- `LateUpdate`, the camera control, is not modelled: mouse input, a float angle modulo 360, clamping and transform calls.
- `FixedUpdate` is not modelled: input polling, torque and jump forces, and the ground ray cast are physics-engine plumbing.
- In `Start`, cursor locking and the `GetComponent` lookups are not modelled. The player's rigidbody is a precondition.
- Envelope.SampleVertices: the vertex values come from float trigonometry and from ray casts against the Player layer, ordered by distance. Both are foreign engine calls, so the model takes them as a parameter `sample(i, j)`.
- `Debug.Log` and the engine `Mesh` object are left out: the mesh name, normal and bounds recalculation, and assignment to the collider and filter. `Start` keeps the two arrays as sequences instead.
- Player.CameraPosition.Start: `totalMass` is a float in the game and is modelled as `real`, so rounding is not modelled.
- Player.CameraPosition.OnCollisionEnter: `totalMerges` is a float in the game and is modelled as `nat`, so precision loss past 2^24 merges is not modelled.
- Player.CameraPosition.OnCollisionEnter requires that the touched object is neither the player nor one of its ancestors. In the engine, such a re-parent would close a cycle, and the model does not say what the engine does then.
- Scene.SceneGraph.SetParent always moves the node to the end of its new parent's child list, even when the parent does not change. The order of children affects only the order of the layer walk, never its result.
- The engine's layer masks are not modelled. `LayerMask.NameToLayer("Player")` is the constant `playerLayer` given to the script.
- No other engine behaviour is modelled: contact generation, when the physics engine calls `OnCollisionEnter`, or whether a disabled collider or kinematic body reports further contacts.
- The collision mesh is built only once, in `Start`. Absorbing an object does not rebuild it.
