/**
 * The transform hierarchy as an arena: node n has a parent index (or
 * NoParent) and an ordered list of child indices. The ghost `depth` of a
 * node is strictly greater than its parent's, which rules out cycles; it is
 * a proof device and has no counterpart in the engine.
 */
module Tree {

  /** Parent value of a node at the top of the hierarchy. */
  const NoParent: int := -1

  predicate Distinct(s: seq<nat>) {
    forall i, j :: 0 <= i < j < |s| ==> s[i] != s[j]
  }

  /**
   * The arena is a forest: parents are in range, every listed child points
   * back to the node listing it, every node with a parent is listed by it
   * exactly once, and depth grows from parent to child.
   */
  ghost predicate IsForest(parent: seq<int>, children: seq<seq<nat>>, depth: seq<nat>) {
    |children| == |parent| && |depth| == |parent| &&
    (forall n :: 0 <= n < |parent| ==> parent[n] == NoParent || 0 <= parent[n] < |parent|) &&
    (forall n :: 0 <= n < |parent| ==> Distinct(children[n])) &&
    (forall n, k :: 0 <= n < |parent| && 0 <= k < |children[n]| ==>
       children[n][k] < |parent| && parent[children[n][k]] == n) &&
    (forall c :: 0 <= c < |parent| && parent[c] != NoParent ==>
       c in children[parent[c]] && depth[parent[c]] < depth[c])
  }

  /** x is a (or one of a's descendants): a lies on the parent chain from x. */
  ghost predicate InSubtree(parent: seq<int>, depth: seq<nat>, x: nat, a: nat)
    requires |depth| == |parent| && x < |parent|
    decreases depth[x]
  {
    x == a ||
    (0 <= parent[x] < |parent| && depth[parent[x]] < depth[x] && InSubtree(parent, depth, parent[x], a))
  }

  /** A descendant lies at least as deep as its ancestor. */
  lemma {:induction false} SubtreeDepth(parent: seq<int>, children: seq<seq<nat>>, depth: seq<nat>, x: nat, a: nat)
    requires IsForest(parent, children, depth) && x < |parent| && a < |parent|
    requires InSubtree(parent, depth, x, a)
    ensures depth[a] <= depth[x]
    decreases depth[x]
  {
    if x != a {
      SubtreeDepth(parent, children, depth, parent[x], a);
    }
  }

  /** Descent is transitive. */
  lemma {:induction false} SubtreeTransitive(parent: seq<int>, depth: seq<nat>, x: nat, y: nat, z: nat)
    requires |depth| == |parent| && x < |parent| && y < |parent|
    requires InSubtree(parent, depth, x, y) && InSubtree(parent, depth, y, z)
    ensures InSubtree(parent, depth, x, z)
    decreases depth[x]
  {
    if x != y {
      SubtreeTransitive(parent, depth, parent[x], y, z);
    }
  }

  /** A listed child of a is in a's subtree, and so is everything below it. */
  lemma ChildInSubtree(parent: seq<int>, children: seq<seq<nat>>, depth: seq<nat>, a: nat, k: nat, x: nat)
    requires IsForest(parent, children, depth) && a < |parent| && k < |children[a]| && x < |parent|
    requires InSubtree(parent, depth, x, children[a][k])
    ensures InSubtree(parent, depth, x, a)
  {
    var c := children[a][k];
    assert InSubtree(parent, depth, c, a);
    SubtreeTransitive(parent, depth, x, c, a);
  }

  /**
   * A proper descendant of a lies below one of a's listed children: the
   * subtree of a is a together with the subtrees of its children.
   */
  lemma {:induction false} ChildOnPath(parent: seq<int>, children: seq<seq<nat>>, depth: seq<nat>, x: nat, a: nat)
    returns (k: nat)
    requires IsForest(parent, children, depth) && x < |parent| && a < |parent|
    requires InSubtree(parent, depth, x, a) && x != a
    ensures k < |children[a]| && InSubtree(parent, depth, x, children[a][k])
    decreases depth[x]
  {
    var p := parent[x];
    if p == a {
      assert x in children[a];
      k :| 0 <= k < |children[a]| && children[a][k] == x;
    } else {
      k := ChildOnPath(parent, children, depth, p, a);
      assert InSubtree(parent, depth, x, p);
      SubtreeTransitive(parent, depth, x, p, children[a][k]);
    }
  }

  /** The nodes of a's subtree. */
  ghost function Subtree(parent: seq<int>, depth: seq<nat>, a: nat): set<nat>
    requires |depth| == |parent|
  {
    set x | 0 <= x < |parent| && InSubtree(parent, depth, x, a)
  }

  /** The subtree of a node holds the children of each of its nodes. */
  lemma SubtreeHoldsChildren(parent: seq<int>, children: seq<seq<nat>>, depth: seq<nat>, a: nat, x: nat, c: nat)
    requires IsForest(parent, children, depth)
    requires x in Subtree(parent, depth, a) && c in children[x]
    ensures c in Subtree(parent, depth, a)
  {
    var i :| 0 <= i < |children[x]| && children[x][i] == c;
    ChildInSubtree(parent, children, depth, x, i, c);
    SubtreeTransitive(parent, depth, c, x, a);
  }

  /**
   * The state of the depth-first relabelling of root's subtree `sub` between
   * two pops: visited and stacked nodes lie in the subtree, no node is both
   * visited and stacked or stacked twice, root has been reached, every
   * visited or stacked node other than root was reached from its visited
   * parent, and the children of every visited node are visited or stacked.
   */
  ghost predicate Frontier(parent: seq<int>, children: seq<seq<nat>>, sub: set<nat>,
                           root: nat, visited: set<nat>, stack: seq<nat>)
  {
    visited <= sub &&
    (forall k :: 0 <= k < |stack| ==> stack[k] in sub && stack[k] !in visited) &&
    Distinct(stack) &&
    (root in visited || root in stack) &&
    (forall x {:trigger parent[x]} :: 0 <= x < |parent| && (x in visited || x in stack) ==>
       x == root || (0 <= parent[x] && parent[x] in visited)) &&
    (forall v, i :: v in visited && v < |children| && 0 <= i < |children[v]| ==>
       children[v][i] in visited || children[v][i] in stack)
  }

  /** The traversal starts with root alone on the stack. */
  lemma FrontierStart(parent: seq<int>, children: seq<seq<nat>>, depth: seq<nat>, root: nat)
    requires IsForest(parent, children, depth) && root < |parent|
    ensures Frontier(parent, children, Subtree(parent, depth, root), root, {}, [root])
  {
    assert root in Subtree(parent, depth, root);
  }

  /** Two duplicate-free sequences with no element in common concatenate duplicate-free. */
  lemma AppendDistinct(a: seq<nat>, b: seq<nat>)
    requires Distinct(a) && Distinct(b) && forall x :: x in b ==> x !in a
    ensures Distinct(a + b)
  {
    forall i, j | 0 <= i < j < |a + b|
      ensures (a + b)[i] != (a + b)[j]
    {
      if j < |a| {
        assert (a + b)[i] == a[i] && (a + b)[j] == a[j];
      } else if i < |a| {
        assert (a + b)[i] == a[i] && (a + b)[j] == b[j - |a|];
        assert b[j - |a|] in b;
      } else {
        assert (a + b)[i] == b[i - |a|] && (a + b)[j] == b[j - |a|];
      }
    }
  }

  /**
   * The children of the popped node are new to the traversal: they lie in
   * the subtree and are neither visited, nor stacked, nor root.
   */
  lemma ChildrenAreNew(parent: seq<int>, children: seq<seq<nat>>, depth: seq<nat>,
                       root: nat, visited: set<nat>, stack: seq<nat>, current: nat)
    requires IsForest(parent, children, depth) && root < |parent|
    requires current in Subtree(parent, depth, root) && current !in visited
    requires forall x {:trigger parent[x]} :: 0 <= x < |parent| && (x in visited || x in stack) ==>
               x == root || (0 <= parent[x] && parent[x] in visited)
    ensures forall c :: c in children[current] ==>
              c in Subtree(parent, depth, root) && c !in visited && c !in stack && c != root
  {
    SubtreeDepth(parent, children, depth, current, root);
    forall c | c in children[current]
      ensures c in Subtree(parent, depth, root) && c !in visited && c !in stack && c != root
    {
      SubtreeHoldsChildren(parent, children, depth, root, current, c);
      assert parent[c] == current;
    }
  }

  /**
   * Popping the top node, marking it visited and pushing its children keeps
   * the frontier; the popped node is a node of the subtree not yet visited.
   */
  lemma FrontierPop(parent: seq<int>, children: seq<seq<nat>>, depth: seq<nat>,
                    root: nat, visited: set<nat>, stack: seq<nat>)
    requires IsForest(parent, children, depth) && root < |parent|
    requires Frontier(parent, children, Subtree(parent, depth, root), root, visited, stack) && |stack| > 0
    ensures var current := stack[|stack| - 1];
            current in Subtree(parent, depth, root) && current !in visited &&
            Frontier(parent, children, Subtree(parent, depth, root), root,
                     visited + {current}, stack[..|stack| - 1] + children[current])
  {
    var sub := Subtree(parent, depth, root);
    var current := stack[|stack| - 1];
    var pending := stack[..|stack| - 1];
    var kids := children[current];
    var visited', stack' := visited + {current}, pending + kids;
    assert stack == pending + [current];
    ChildrenAreNew(parent, children, depth, root, visited, stack, current);
    assert Distinct(pending);
    AppendDistinct(pending, kids);
    forall k | 0 <= k < |stack'|
      ensures stack'[k] in sub && stack'[k] !in visited'
    {
      if k < |pending| {
        assert stack'[k] == stack[k] && stack[k] != stack[|stack| - 1];
      } else {
        assert stack'[k] in kids;
      }
    }
    forall x {:trigger parent[x]} | 0 <= x < |parent| && (x in visited' || x in stack')
      ensures x == root || (0 <= parent[x] && parent[x] in visited')
    {
      if x in kids {
        var i :| 0 <= i < |kids| && kids[i] == x;
      } else if x in pending {
        assert x in stack;
      }
    }
    forall v, i | v in visited' && v < |children| && 0 <= i < |children[v]|
      ensures children[v][i] in visited' || children[v][i] in stack'
    {
      if v == current {
        assert stack'[|pending| + i] == children[v][i];
      } else if children[v][i] != current {
        assert children[v][i] in visited || children[v][i] in stack;
      }
    }
    assert root in visited' || root in stack';
  }

  /**
   * Once the stack is empty every node of the subtree has been visited: a
   * node's parent in the subtree was visited, and its children with it.
   */
  lemma {:induction false} FrontierDone(parent: seq<int>, children: seq<seq<nat>>, depth: seq<nat>,
                                        root: nat, visited: set<nat>, x: nat)
    requires IsForest(parent, children, depth) && root < |parent|
    requires Frontier(parent, children, Subtree(parent, depth, root), root, visited, [])
    requires x in Subtree(parent, depth, root)
    ensures x in visited
    decreases depth[x]
  {
    if x != root {
      var p := parent[x];
      assert p in Subtree(parent, depth, root);
      FrontierDone(parent, children, depth, root, visited, p);
      assert x in children[p];
      var i :| 0 <= i < |children[p]| && children[p][i] == x;
    }
  }

  /** s with x taken out, order kept. */
  function Without(s: seq<nat>, x: nat): (r: seq<nat>)
    ensures forall y :: y in r <==> y in s && y != x
    ensures Distinct(s) ==> Distinct(r)
  {
    if s == [] then []
    else if s[0] == x then Without(s[1..], x)
    else
      var rest := Without(s[1..], x);
      assert Distinct(s) ==> s[0] !in s[1..];
      [s[0]] + rest
  }

  /**
   * The child lists after x moves from parent `from` (or from no parent) to
   * the end of p's list, which is where the engine places a reparented node.
   */
  function Reattached(children: seq<seq<nat>>, from: int, x: nat, p: nat): seq<seq<nat>>
    requires p < |children| && (from == NoParent || 0 <= from < |children|)
  {
    var detached := if from == NoParent then children else children[from := Without(children[from], x)];
    detached[p := detached[p] + [x]]
  }

  /** Depths after the subtree of x is pushed down by d. */
  ghost function Shifted(parent: seq<int>, depth: seq<nat>, x: nat, d: nat): (r: seq<nat>)
    requires |depth| == |parent|
    ensures |r| == |depth|
  {
    seq(|depth|, i requires 0 <= i < |depth| => if InSubtree(parent, depth, i, x) then depth[i] + d else depth[i])
  }

  /**
   * Moving x under p keeps the arena a forest, provided p is not inside x's
   * subtree; the depths of x's subtree are pushed down below p.
   */
  lemma ReparentKeepsForest(parent: seq<int>, children: seq<seq<nat>>, depth: seq<nat>, x: nat, p: nat)
    requires IsForest(parent, children, depth) && x < |parent| && p < |parent|
    requires !InSubtree(parent, depth, p, x)
    ensures IsForest(parent[x := p], Reattached(children, parent[x], x, p), Shifted(parent, depth, x, depth[p] + 1))
  {
    var parent', children', depth' := parent[x := p], Reattached(children, parent[x], x, p), Shifted(parent, depth, x, depth[p] + 1);
    var from := parent[x];
    forall n | 0 <= n < |parent|
      ensures Distinct(children'[n])
    {
      if n == p {
        var detached := if from == NoParent then children[p] else if from == p then Without(children[p], x) else children[p];
        assert children'[p] == detached + [x];
        assert x !in detached;
      }
    }
    forall n, k | 0 <= n < |parent| && 0 <= k < |children'[n]|
      ensures children'[n][k] < |parent| && parent'[children'[n][k]] == n
    {
      var c := children'[n][k];
      if c != x {
        assert c in children[n];
      }
    }
    forall c | 0 <= c < |parent| && parent'[c] != NoParent
      ensures c in children'[parent'[c]] && depth'[parent'[c]] < depth'[c]
    {
      if c != x {
        var q := parent[c];
        assert c in children[q];
        if InSubtree(parent, depth, q, x) {
          assert InSubtree(parent, depth, c, x);
        } else {
          assert !InSubtree(parent, depth, c, x);
        }
      }
    }
  }

  /**
   * Moving x under p does not change which nodes are in x's subtree: x takes
   * its descendants along.
   */
  lemma {:induction false} ReparentKeepsSubtree(parent: seq<int>, children: seq<seq<nat>>, depth: seq<nat>, x: nat, p: nat, y: nat)
    requires IsForest(parent, children, depth) && x < |parent| && p < |parent| && y < |parent|
    requires !InSubtree(parent, depth, p, x)
    ensures InSubtree(parent[x := p], Shifted(parent, depth, x, depth[p] + 1), y, x) <==> InSubtree(parent, depth, y, x)
    decreases depth[y]
  {
    ReparentKeepsForest(parent, children, depth, x, p);
    var depth' := Shifted(parent, depth, x, depth[p] + 1);
    if y != x && 0 <= parent[y] < |parent| {
      ReparentKeepsSubtree(parent, children, depth, x, p, parent[y]);
    }
  }
}
