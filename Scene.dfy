/**
 * The scene: an arena of game objects addressed by index, each with its
 * transform links (parent, ordered children), its layer and tag, and the
 * optional physics components the player script touches.
 */
module Scene {
  import opened Tree

  datatype Option<T> = None | Some(value: T)

  /** The physics body of a game object: its mass and whether the engine simulates it. */
  datatype Rigidbody = Rigidbody(mass: real, isKinematic: bool)

  /** The collider of a game object; a disabled collider takes part in no contact. */
  datatype Collider = Collider(enabled: bool)

  /** Pushes the items onto the stack one by one, in order. */
  method PushAll(stack: seq<nat>, items: seq<nat>) returns (r: seq<nat>)
    ensures r == stack + items
  {
    r := stack;
    for i := 0 to |items|
      invariant r == stack + items[..i]
    {
      r := r + [items[i]];
    }
    assert items[..|items|] == items;
  }

  class SceneGraph {
    var parent: seq<int>
    var children: seq<seq<nat>>
    var layer: seq<int>
    var tag: seq<string>
    var rigidbody: seq<Option<Rigidbody>>
    var collider: seq<Option<Collider>>
    ghost var depth: seq<nat>

    ghost predicate Valid()
      reads this
    {
      IsForest(parent, children, depth) &&
      |layer| == |parent| && |tag| == |parent| && |rigidbody| == |parent| && |collider| == |parent|
    }

    /** x is a or lies below a in the transform hierarchy. */
    ghost predicate Descends(x: nat, a: nat)
      reads this
      requires Valid() && x < |parent|
    {
      InSubtree(parent, depth, x, a)
    }

    constructor (parent: seq<int>, children: seq<seq<nat>>, layer: seq<int>, tag: seq<string>,
                 rigidbody: seq<Option<Rigidbody>>, collider: seq<Option<Collider>>, ghost depth: seq<nat>)
      requires IsForest(parent, children, depth)
      requires |layer| == |parent| && |tag| == |parent| && |rigidbody| == |parent| && |collider| == |parent|
      ensures Valid()
      ensures this.parent == parent && this.children == children && this.layer == layer
      ensures this.tag == tag && this.rigidbody == rigidbody && this.collider == collider
    {
      this.parent, this.children, this.layer, this.tag := parent, children, layer, tag;
      this.rigidbody, this.collider, this.depth := rigidbody, collider, depth;
    }

    /**
     * Makes p the parent of x: x leaves its old parent's child list and is
     * appended to p's. The hierarchy must stay acyclic, so p may not lie in
     * x's own subtree. x keeps its descendants.
     */
    method SetParent(x: nat, p: nat)
      requires Valid() && x < |parent| && p < |parent|
      requires !Descends(p, x)
      modifies this`parent, this`children, this`depth
      ensures Valid()
      ensures parent == old(parent)[x := p]
      ensures children == Reattached(old(children), old(parent[x]), x, p)
      ensures forall y :: 0 <= y < |parent| ==> (Descends(y, x) <==> old(Descends(y, x)))
    {
      ReparentKeepsForest(parent, children, depth, x, p);
      forall y | 0 <= y < |parent|
        ensures InSubtree(parent[x := p], Shifted(parent, depth, x, depth[p] + 1), y, x) <==> InSubtree(parent, depth, y, x)
      {
        ReparentKeepsSubtree(parent, children, depth, x, p, y);
      }
      var from := parent[x];
      if from != NoParent {
        children := children[from := Without(children[from], x)];
      }
      children := children[p := children[p] + [x]];
      depth := Shifted(parent, depth, x, depth[p] + 1);
      parent := parent[x := p];
    }

    /**
     * Assigns newLayer to root and every node below it, depth first with an
     * explicit stack; every other node keeps its layer and the hierarchy is
     * untouched.
     */
    method SetAllLayers(root: nat, newLayer: int)
      requires Valid() && root < |parent|
      modifies this`layer
      ensures Valid()
      ensures |layer| == |old(layer)|
      ensures forall x :: 0 <= x < |layer| ==> layer[x] == if Descends(x, root) then newLayer else old(layer[x])
    {
      ghost var sub := Subtree(parent, depth, root);
      ghost var visited: set<nat> := {};
      var stack := [root];
      FrontierStart(parent, children, depth, root);
      while |stack| > 0
        invariant Valid()
        invariant Frontier(parent, children, sub, root, visited, stack)
        invariant forall x :: 0 <= x < |layer| ==> layer[x] == if x in visited then newLayer else old(layer[x])
        decreases |sub - visited|
      {
        FrontierPop(parent, children, depth, root, visited, stack);
        var current := stack[|stack| - 1];
        stack := stack[..|stack| - 1];
        layer := layer[current := newLayer];
        ghost var before := visited;
        visited := visited + {current};

        stack := PushAll(stack, children[current]);
        assert sub - visited < sub - before;
      }
      forall x | x in sub
        ensures x in visited
      {
        FrontierDone(parent, children, depth, root, visited, x);
      }
    }
  }
}
