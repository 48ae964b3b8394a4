/**
 The heap behind the shapes: which pointers and colors the nodes of a tree hold, and the primitive
 steps (rotation, recoloring, redirecting a child pointer) that rewrite them.

 `Holds(root, tree)` says that the nodes in memory spell out exactly `tree`. Every step is stated at
 a focus inside the tree: the tree is `Plug(ctx, t)` and the step rewrites the subtree `t`.
 */
module RbLinks {
  import opened RbShape

  /** The root object. The ghost counter records the rotations done on the tree. */
  class Root {
    var node: Node?
    ghost var rotations: nat

    constructor ()
      ensures node == null && rotations == 0
    {
      node, rotations := null, 0;
    }
  }

  /** What one node holds. */
  datatype Cell = Cell(parent: Node?, left: Node?, right: Node?, color: Color)

  ghost function CellOf(n: Node): Cell
    reads n
  {
    Cell(n.parent, n.left, n.right, n.color)
  }

  /** What the node `n` of the tree `t` must hold, when the topmost node of `t` has the parent `p`. */
  ghost function CellIn(t: Tree, p: Node?, n: Node): Cell
    requires n in Nodes(t)
  {
    var Branch(c, l, m, r) := t;
    if n == m then Cell(p, TopNode(l), TopNode(r), c)
    else if n in Nodes(l) then CellIn(l, m, n)
    else CellIn(r, m, n)
  }

  /** The same for a node of the context, when `hole` is the node that fills its hole. */
  ghost function ContextCell(ctx: Context, hole: Node?, n: Node): Cell
    requires n in ContextNodes(ctx)
    decreases ctx
  {
    match ctx
    case LeftOf(c, m, r, up) =>
      if n == m then Cell(Parent(up), hole, TopNode(r), c)
      else if n in Nodes(r) then CellIn(r, m, n)
      else ContextCell(up, m, n)
    case RightOf(c, l, m, up) =>
      if n == m then Cell(Parent(up), TopNode(l), hole, c)
      else if n in Nodes(l) then CellIn(l, m, n)
      else ContextCell(up, m, n)
  }

  /** The outermost node: the one in the root pointer when `hole` fills the hole of `ctx`. */
  ghost function Outermost(ctx: Context, hole: Node?): Node?
    decreases ctx
  {
    if ctx.Top? then hole else Outermost(ctx.up, ctx.node)
  }

  ghost predicate Holds(root: Root, tree: Tree)
    reads root, Nodes(tree)
  {
    Distinct(tree) && root.node == TopNode(tree) && forall n :: n in Nodes(tree) ==> CellOf(n) == CellIn(tree, null, n)
  }

  /** The nodes of `ctx` hold its cells, `hole` being the node in its hole. */
  ghost predicate Surrounds(root: Root, ctx: Context, hole: Node?)
    reads root, ContextNodes(ctx)
  {
    root.node == Outermost(ctx, hole) && forall n :: n in ContextNodes(ctx) ==> CellOf(n) == ContextCell(ctx, hole, n)
  }

  /** `Holds`, seen from a focus. */
  ghost predicate HoldsAt(root: Root, ctx: Context, t: Tree)
    reads root, Nodes(t), ContextNodes(ctx)
  {
    Separate(ctx, t) && Surrounds(root, ctx, TopNode(t)) &&
    forall n :: n in Nodes(t) ==> CellOf(n) == CellIn(t, Parent(ctx), n)
  }

  lemma {:induction false} PlugCell(ctx: Context, t: Tree, n: Node)
    requires Separate(ctx, t) && n in Nodes(Plug(ctx, t))
    ensures n in Nodes(t) + ContextNodes(ctx)
    ensures CellIn(Plug(ctx, t), null, n) ==
            if n in Nodes(t) then CellIn(t, Parent(ctx), n) else ContextCell(ctx, TopNode(t), n)
    decreases ctx
  {
    PlugNodes(ctx, t);
    match ctx
    case Top =>
    case LeftOf(c, m, r, up) => PlugCell(up, Branch(c, t, m, r), n);
    case RightOf(c, l, m, up) => PlugCell(up, Branch(c, l, m, t), n);
  }

  lemma {:induction false} PlugTop(ctx: Context, t: Tree)
    ensures TopNode(Plug(ctx, t)) == Outermost(ctx, TopNode(t))
    decreases ctx
  {
    match ctx
    case Top =>
    case LeftOf(c, m, r, up) => PlugTop(up, Branch(c, t, m, r));
    case RightOf(c, l, m, up) => PlugTop(up, Branch(c, l, m, t));
  }

  lemma Focus(root: Root, ctx: Context, t: Tree)
    ensures Holds(root, Plug(ctx, t)) <==> HoldsAt(root, ctx, t)
  {
    PlugNodes(ctx, t);
    PlugTop(ctx, t);
    if Separate(ctx, t) {
      forall n | n in Nodes(Plug(ctx, t))
        ensures CellIn(Plug(ctx, t), null, n) ==
                if n in Nodes(t) then CellIn(t, Parent(ctx), n) else ContextCell(ctx, TopNode(t), n)
      {
        PlugCell(ctx, t, n);
      }
    }
  }

  /** What a step at the focus may read off: the links of the topmost node of `t` and of its parent. */
  lemma Look(root: Root, ctx: Context, t: Tree)
    requires Holds(root, Plug(ctx, t))
    ensures Nodes(Plug(ctx, t)) == Nodes(t) + ContextNodes(ctx) && Separate(ctx, t)
    ensures t.Branch? ==> t.node in Nodes(t) && CellOf(t.node) == Cell(Parent(ctx), TopNode(t.left), TopNode(t.right), t.color)
    ensures !ctx.Top? ==> ctx.node in ContextNodes(ctx) && CellOf(ctx.node) == ContextCell(ctx, TopNode(t), ctx.node)
    ensures ctx.Top? ==> root.node == TopNode(t)
  {
    PlugNodes(ctx, t);
    Focus(root, ctx, t);
  }

  /** Hanging a subtree under another parent changes one cell. */
  lemma Reparented(t: Tree, p: Node?, q: Node?, n: Node)
    requires n in Nodes(t)
    ensures CellIn(t, q, n) == if n == TopNode(t) then CellIn(t, p, n).(parent := q) else CellIn(t, p, n)
  {
  }

  /** Cells in place around and inside the hole make up the whole. */
  lemma Assemble(root: Root, ctx: Context, t: Tree)
    requires Separate(ctx, t) && Surrounds(root, ctx, TopNode(t))
    requires forall n :: n in Nodes(t) ==> CellOf(n) == CellIn(t, Parent(ctx), n)
    ensures Holds(root, Plug(ctx, t))
  {
    Focus(root, ctx, t);
  }

  /** The links and the color of the node in focus, and of its parent. */
  lemma Links(root: Root, ctx: Context, t: Tree)
    requires Holds(root, Plug(ctx, t)) && t.Branch?
    ensures t.node in Nodes(Plug(ctx, t)) && CellOf(t.node) == Cell(Parent(ctx), TopNode(t.left), TopNode(t.right), t.color)
    ensures !ctx.Top? ==> ctx.node in Nodes(Plug(ctx, t)) && ctx.node.color == ctx.color && ctx.node.parent == Parent(ctx.up)
  {
    Look(root, ctx, t);
  }
}
