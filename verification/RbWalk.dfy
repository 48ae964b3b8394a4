/** Iteration in sort order: `rb_first`, `rb_last`, `rb_next`, `rb_prev`. */
module RbWalk {
  import opened RbShape
  import opened RbLinks

  /** The element at index `i`, or null outside the sequence. */
  ghost function At(s: seq<Node>, i: int): Node? {
    if 0 <= i < |s| then s[i] else null
  }

  /** Which neighbours the topmost node of `t` has in the whole sequence. */
  lemma NeighboursOf(ctx: Context, t: Tree)
    requires t.Branch? && Distinct(Plug(ctx, t))
    ensures forall i :: 0 <= i < |InOrder(Plug(ctx, t))| && InOrder(Plug(ctx, t))[i] == t.node ==>
              At(InOrder(Plug(ctx, t)), i + 1) == At(InOrder(t.right) + After(ctx), 0) &&
              At(InOrder(Plug(ctx, t)), i - 1) == At(Before(ctx) + InOrder(t.left), |Before(ctx)| + |InOrder(t.left)| - 1)
  {
    var s, a, b := InOrder(Plug(ctx, t)), Before(ctx) + InOrder(t.left), InOrder(t.right) + After(ctx);
    PlugInOrder(ctx, t);
    Halves(Before(ctx), InOrder(t.left), t.node, InOrder(t.right), After(ctx));
    hide InOrder, Before, After, Plug, Distinct, At;
    Middle(a, t.node, b);
    forall i | 0 <= i < |s| && s[i] == t.node ensures i == |a| {
      Once(Plug(ctx, t), i, |a|);
    }
  }

  lemma Once(t: Tree, i: nat, j: nat)
    requires Distinct(t) && i < |InOrder(t)| && j < |InOrder(t)| && InOrder(t)[i] == InOrder(t)[j]
    ensures i == j
  {
    if i < j { InOrderInjective(t, i, j); }
    if j < i { InOrderInjective(t, j, i); }
  }

  lemma Middle(a: seq<Node>, n: Node, b: seq<Node>)
    ensures var s := a + [n] + b; s[|a|] == n && At(s, |a| + 1) == At(b, 0) && At(s, |a| - 1) == At(a, |a| - 1)
  {
  }

  /** On which side of its parent the node in focus hangs. */
  lemma SideOfParent(root: Root, ctx: Context, t: Tree)
    requires Holds(root, Plug(ctx, t)) && t.Branch?
    ensures t.node.parent == Parent(ctx)
    ensures !ctx.Top? ==> (t.node == ctx.node.right <==> ctx.RightOf?) && (t.node == ctx.node.left <==> ctx.LeftOf?)
  {
    Look(root, ctx, t);
    if ctx.LeftOf? && ctx.right.Branch? { assert ctx.right.node in ContextNodes(ctx); }
    if ctx.RightOf? && ctx.left.Branch? { assert ctx.left.node in ContextNodes(ctx); }
  }

  /** The leftmost node below a focus. */
  method Leftmost(from: Node, root: Root, ghost ctx: Context, ghost t: Tree) returns (n: Node)
    requires Holds(root, Plug(ctx, t)) && t.Branch? && t.node == from
    ensures Holds(root, Plug(ctx, t)) && InOrder(t) != [] && n == InOrder(t)[0]
  {
    n := from;
    ghost var inner, cur := Top, t;
    Links(root, ctx, t);
    while n.left != null
      invariant Holds(root, Plug(ctx, t)) && cur.Branch? && cur.node == n && n.left == TopNode(cur.left)
      invariant Plug(inner, cur) == t && Before(inner) == []
      decreases cur
    {
      n := n.left;
      inner, cur := LeftOf(cur.color, cur.node, cur.right, inner), cur.left;
      PlugWithin(inner, ctx, cur);
      Links(root, Within(inner, ctx), cur);
    }
    PlugInOrder(inner, cur);
  }

  /** `rb_first`. */
  method First(root: Root, ghost tree: Tree) returns (n: Node?)
    requires Holds(root, tree)
    ensures Holds(root, tree)
    ensures n == if InOrder(tree) == [] then null else InOrder(tree)[0]
  {
    n := root.node;
    if n == null {
      return null;
    }
    n := Leftmost(n, root, Top, tree);
  }

  /** The rightmost node below a focus. */
  method Rightmost(from: Node, root: Root, ghost ctx: Context, ghost t: Tree) returns (n: Node)
    requires Holds(root, Plug(ctx, t)) && t.Branch? && t.node == from
    ensures Holds(root, Plug(ctx, t)) && InOrder(t) != [] && n == InOrder(t)[|InOrder(t)| - 1]
  {
    n := from;
    ghost var inner, cur := Top, t;
    Links(root, ctx, t);
    while n.right != null
      invariant Holds(root, Plug(ctx, t)) && cur.Branch? && cur.node == n && n.right == TopNode(cur.right)
      invariant Plug(inner, cur) == t && After(inner) == []
      decreases cur
    {
      n := n.right;
      inner, cur := RightOf(cur.color, cur.left, cur.node, inner), cur.right;
      PlugWithin(inner, ctx, cur);
      Links(root, Within(inner, ctx), cur);
    }
    PlugInOrder(inner, cur);
  }

  /** `rb_last`. */
  method Last(root: Root, ghost tree: Tree) returns (n: Node?)
    requires Holds(root, tree)
    ensures Holds(root, tree)
    ensures n == if InOrder(tree) == [] then null else InOrder(tree)[|InOrder(tree)| - 1]
  {
    n := root.node;
    if n == null {
      return null;
    }
    n := Rightmost(n, root, Top, tree);
  }

  /** `rb_next`: the neighbour in the in-order sequence, or null at its end. */
  method Next(from: Node, root: Root, ghost tree: Tree) returns (n: Node?)
    requires Holds(root, tree) && from in Nodes(tree)
    ensures Holds(root, tree)
    ensures forall i :: 0 <= i < |InOrder(tree)| && InOrder(tree)[i] == from ==> n == At(InOrder(tree), i + 1)
  {
    ghost var (ctx, t) := Locate(Top, tree, from);
    NeighboursOf(ctx, t);
    Links(root, ctx, t);
    if from.right != null {
      n := Leftmost(from.right, root, RightOf(t.color, t.left, from, ctx), t.right);
      return;
    }

    var node := from;
    ghost var place, sub := ctx, t;
    SideOfParent(root, place, sub);
    while node.parent != null && node == node.parent.right
      invariant Holds(root, tree) && Plug(place, sub) == tree && sub.Branch? && sub.node == node
      invariant node.parent == Parent(place) && (!place.Top? ==> (node == node.parent.right <==> place.RightOf?))
      invariant After(place) == After(ctx)
      decreases place
    {
      node := node.parent;
      place, sub := place.up, Wrap(place, sub);
      SideOfParent(root, place, sub);
    }
    n := node.parent;
  }

  /** `rb_prev`: the neighbour in the in-order sequence, or null at its end. */
  method Prev(from: Node, root: Root, ghost tree: Tree) returns (n: Node?)
    requires Holds(root, tree) && from in Nodes(tree)
    ensures Holds(root, tree)
    ensures forall i :: 0 <= i < |InOrder(tree)| && InOrder(tree)[i] == from ==> n == At(InOrder(tree), i - 1)
  {
    ghost var (ctx, t) := Locate(Top, tree, from);
    NeighboursOf(ctx, t);
    Links(root, ctx, t);
    if from.left != null {
      n := Rightmost(from.left, root, LeftOf(t.color, from, t.right, ctx), t.left);
      return;
    }

    var node := from;
    ghost var place, sub := ctx, t;
    SideOfParent(root, place, sub);
    while node.parent != null && node == node.parent.left
      invariant Holds(root, tree) && Plug(place, sub) == tree && sub.Branch? && sub.node == node
      invariant node.parent == Parent(place) && (!place.Top? ==> (node == node.parent.left <==> place.LeftOf?))
      invariant Before(place) == Before(ctx)
      decreases place
    {
      node := node.parent;
      place, sub := place.up, Wrap(place, sub);
      SideOfParent(root, place, sub);
    }
    n := node.parent;
  }

  // ---------- whole walks ----------

  /** The loop of `traverse` in the repository's tree test: every node once, in order, then null. */
  method Traverse(root: Root, ghost tree: Tree) returns (visited: seq<Node>)
    requires Holds(root, tree)
    ensures visited == InOrder(tree)
  {
    ghost var s := InOrder(tree);
    visited := [];
    var node := First(root, tree);
    while node != null
      invariant Holds(root, tree)
      invariant |visited| <= |s| && visited == s[..|visited|] && node == At(s, |visited|)
      decreases |s| - |visited|
    {
      visited := visited + [node];
      InOrderNodes(tree, node);
      node := Next(node, root, tree);
    }
  }

  /** The same backwards. */
  method TraverseBack(root: Root, ghost tree: Tree) returns (visited: seq<Node>)
    requires Holds(root, tree)
    ensures |visited| == |InOrder(tree)|
    ensures forall i :: 0 <= i < |visited| ==> visited[i] == InOrder(tree)[|visited| - 1 - i]
  {
    ghost var s := InOrder(tree);
    visited := [];
    var node := Last(root, tree);
    while node != null
      invariant Holds(root, tree)
      invariant |visited| <= |s| && node == At(s, |s| - 1 - |visited|)
      invariant forall i :: 0 <= i < |visited| ==> visited[i] == s[|s| - 1 - i]
      decreases |s| - |visited|
    {
      visited := visited + [node];
      InOrderNodes(tree, node);
      node := Prev(node, root, tree);
    }
  }

  /** Stepping forward and back again returns to the start, and the other way round. */
  method StepAndBack(node: Node, root: Root, ghost tree: Tree) returns (after: Node?, before: Node?)
    requires Holds(root, tree) && node in Nodes(tree)
    ensures after == node || (after == null && InOrder(tree)[|InOrder(tree)| - 1] == node)
    ensures before == node || (before == null && InOrder(tree)[0] == node)
  {
    InOrderNodes(tree, node);
    ghost var i :| 0 <= i < |InOrder(tree)| && InOrder(tree)[i] == node;
    after := Next(node, root, tree);
    if after != null {
      InOrderNodes(tree, after);
      after := Prev(after, root, tree);
    }
    before := Prev(node, root, tree);
    if before != null {
      InOrderNodes(tree, before);
      before := Next(before, root, tree);
    }
  }
}
