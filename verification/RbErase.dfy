/** `rb_erase` and its fix-up: a node leaves the tree and the red-black invariants are restored. */
module RbErase {
  import opened RbShape
  import opened RbLinks
  import opened RbSteps

  /** The same tree with a black top. */
  ghost function Blackened(t: Tree): Tree {
    if t.Leaf? then Leaf else t.(color := Black)
  }

  /** The subtree `t` lacks one black node for its place, apart from which everything is in order. */
  ghost predicate Short(ctx: Context, t: Tree) {
    Balanced(Blackened(t)) && BalancedAround(ctx, BlackHeight(t) + 1)
  }

  /** A deficient node has a sibling. */
  lemma SiblingExists(ctx: Context, t: Tree)
    requires Short(ctx, t)
    ensures ctx.LeftOf? ==> ctx.right.Branch?
    ensures ctx.RightOf? ==> ctx.left.Branch?
  {
  }

  /** What decreases: a red sibling first sends the deficit one level down, but then it ends at a red node. */
  ghost function Measure(ctx: Context, t: Tree): nat {
    Depth(ctx) + if IsBlack(t) then 1 else 0
  }

  /** The links and colors a round reads at the sibling and its children. */
  lemma Nephews(root: Root, at: Context, u: Tree)
    requires Holds(root, Plug(at, u)) && u.Branch?
    ensures u.node in Nodes(Plug(at, u)) && u.node.color == u.color
    ensures u.node.left == TopNode(u.left) && (u.left.Branch? ==> u.node.left.color == u.left.color)
    ensures u.node.right == TopNode(u.right) && (u.right.Branch? ==> u.node.right.color == u.right.color)
  {
    Look(root, at, u);
    Look(root, LeftOf(u.color, u.node, u.right, at), u.left);
    Look(root, RightOf(u.color, u.left, u.node, at), u.right);
  }

  // ---------- the deficient node is a left child ----------

  /** A red sibling is rotated above the parent; the new sibling is black. */
  ghost function LoweredLeft(ctx: Context): Context
    requires ctx.LeftOf? && ctx.right.Branch?
  {
    LeftOf(Red, ctx.node, ctx.right.left, LeftOf(Black, ctx.right.node, ctx.right.right, ctx.up))
  }

  lemma LowerLeftFits(ctx: Context, t: Tree)
    requires Short(ctx, t) && ctx.LeftOf? && ctx.right.Branch? && ctx.right.color == Red
    ensures Short(LoweredLeft(ctx), t) && LoweredLeft(ctx).right.Branch? && LoweredLeft(ctx).right.color == Black
    ensures ctx.color == Black
  {
    var g := Branch(ctx.color, t, ctx.node, ctx.right);
    assert BlackHeight(ctx.right) == BlackHeight(ctx.right.left) == BlackHeight(ctx.right.right);
  }

  method LowerNodeLeft(parent: Node, sibling: Node, root: Root, ghost ctx: Context, ghost t: Tree)
    requires Holds(root, Plug(ctx, t)) && ctx.LeftOf? && ctx.node == parent
    requires ctx.right.Branch? && ctx.right.node == sibling
    modifies root, Nodes(Plug(ctx, t))
    ensures Holds(root, Plug(LoweredLeft(ctx), t)) && SameContents(Plug(LoweredLeft(ctx), t), Plug(ctx, t))
    ensures root.rotations == old(root.rotations) + 1
  {
    ghost var pc, u, up := ctx.color, ctx.right, ctx.up;
    Look(root, ctx, t);
    Look(root, RightOf(pc, t, parent, up), u);
    Paint(sibling, Black, root, RightOf(pc, t, parent, up), u);
    u := u.(color := Black);
    Paint(parent, Red, root, up, Branch(pc, t, parent, u));
    RotateLeftAt(parent, root, up, Branch(Red, t, parent, u));
  }

  /** A black sibling without red children turns red: the deficit moves up to the parent. */
  ghost function AbsorbedLeft(ctx: Context, t: Tree): Tree
    requires ctx.LeftOf? && ctx.right.Branch?
  {
    Branch(ctx.color, t, ctx.node, ctx.right.(color := Red))
  }

  lemma AbsorbLeftFits(ctx: Context, t: Tree)
    requires Short(ctx, t) && IsBlack(t) && ctx.LeftOf? && ctx.right.Branch?
    requires ctx.right.color == Black && IsBlack(ctx.right.left) && IsBlack(ctx.right.right)
    ensures Short(ctx.up, AbsorbedLeft(ctx, t))
  {
    assert Balanced(ctx.right.(color := Red));
  }

  /** A black sibling with a red child: rotated so that the red child is the far one. */
  ghost function FarRedLeft(u: Tree): Tree
    requires u.Branch? && (IsBlack(u.right) ==> u.left.Branch?)
  {
    if IsBlack(u.right) then RotatedRight(Branch(Red, u.left.(color := Black), u.node, u.right)) else u
  }

  /** ... and rotated above the parent, taking over the parent's color. */
  ghost function LentLeft(ctx: Context, t: Tree): Tree
    requires ctx.LeftOf? && ctx.right.Branch? && ctx.right.right.Branch?
  {
    var u := ctx.right;
    Branch(ctx.color, Branch(Black, t, ctx.node, u.left), u.node, u.right.(color := Black))
  }

  lemma FarRedLeftFits(u: Tree)
    requires Balanced(u) && u.Branch? && u.color == Black && !(IsBlack(u.left) && IsBlack(u.right))
    ensures var near := FarRedLeft(u).left; Balanced(near) && BlackHeight(near) == BlackHeight(u.left)
    ensures var far := FarRedLeft(u).right;
            far.Branch? && Balanced(Blackened(far)) && BlackHeight(Blackened(far)) == BlackHeight(u)
  {
  }

  /** The deficit is gone. */
  lemma BorrowLeftFits(ctx: Context, t: Tree)
    requires Short(ctx, t) && IsBlack(t) && ctx.LeftOf? && ctx.right.Branch? && ctx.right.color == Black
    requires !(IsBlack(ctx.right.left) && IsBlack(ctx.right.right))
    ensures var c := ctx.(right := FarRedLeft(ctx.right));
            c.right.Branch? && c.right.right.Branch? && RedBlack(Plug(ctx.up, LentLeft(c, t)))
  {
    FarRedLeftFits(ctx.right);
    var b := LentLeft(ctx.(right := FarRedLeft(ctx.right)), t);
    assert Balanced(b.left) && Balanced(b.right) && IsBlack(b.left) && IsBlack(b.right);
    PlugRedBlack(ctx.up, b);
  }

  method MakeFarRedLeft(parent: Node, sibling: Node, root: Root, ghost ctx: Context, ghost t: Tree) returns (other: Node)
    requires Holds(root, Plug(ctx, t)) && ctx.LeftOf? && ctx.node == parent && ctx.right.Branch? && ctx.right.node == sibling
    requires ctx.right.color == Black && !(IsBlack(ctx.right.left) && IsBlack(ctx.right.right))
    modifies root, Nodes(Plug(ctx, t))
    ensures var u := FarRedLeft(ctx.right); u.color == Black && u.right.Branch? && other == u.node
    ensures var c := ctx.(right := FarRedLeft(ctx.right)); Holds(root, Plug(c, t)) && SameContents(Plug(c, t), Plug(ctx, t))
    ensures root.rotations <= old(root.rotations) + 1
  {
    other := sibling;
    ghost var u := ctx.right;
    ghost var at := RightOf(ctx.color, t, parent, ctx.up);
    Look(root, ctx, t);
    Look(root, at, u);
    Look(root, RightOf(u.color, u.left, other, at), u.right);
    if other.right == null || other.right.color == Black {
      Look(root, LeftOf(u.color, other, u.right, at), u.left);
      var near := other.left;
      if near != null {
        Paint(near, Black, root, LeftOf(u.color, other, u.right, at), u.left);
      }
      u := u.(left := u.left.(color := Black));
      Paint(other, Red, root, at, u);
      RotateRightAt(other, root, at, u.(color := Red));
      ghost var v := RotatedRight(u.(color := Red));
      Look(root, at, v);
      Look(root, ctx.(right := v), t);
      other := parent.right;
    }
  }

  /** The links and colors read when the sibling `u` and its far child are recolored. */
  lemma BorrowSiteLeft(root: Root, at: Context, u: Tree)
    requires Holds(root, Plug(at, u)) && u.Branch? && !at.Top? && u.right.Branch?
    ensures {u.node, at.node, u.right.node} <= Nodes(Plug(at, u)) && at.node.color == at.color && u.node.right == u.right.node
  {
    Look(root, at, u);
    Look(root, RightOf(u.color, u.left, u.node, at), u.right);
  }

  method BorrowLeft(parent: Node, other: Node, root: Root, ghost ctx: Context, ghost t: Tree)
    requires Holds(root, Plug(ctx, t)) && ctx.LeftOf? && ctx.node == parent
    requires ctx.right.Branch? && ctx.right.node == other && ctx.right.color == Black && ctx.right.right.Branch?
    modifies root, Nodes(Plug(ctx, t))
    ensures Holds(root, Plug(ctx.up, LentLeft(ctx, t))) && SameContents(Plug(ctx.up, LentLeft(ctx, t)), Plug(ctx, t))
    ensures root.rotations == old(root.rotations) + 1
  {
    ghost var pc, u, up := ctx.color, ctx.right, ctx.up;
    ghost var at := RightOf(pc, t, parent, up);
    BorrowSiteLeft(root, at, u);
    Paint(other, parent.color, root, at, u);
    u := u.(color := pc);
    Paint(parent, Black, root, up, Branch(pc, t, parent, u));
    assert other.right == u.right.node;
    at := RightOf(Black, t, parent, up);
    assert Holds(root, Plug(at, u));
    if other.right != null {
      Paint(other.right, Black, root, RightOf(pc, u.left, other, at), u.right);
    }
    u := u.(right := u.right.(color := Black));
    assert Holds(root, Plug(at, u));
    RotateLeftAt(parent, root, up, Branch(Black, t, parent, u));
  }

  /** The part of a round after the sibling has been made black. */
  method SettleLeft(parent: Node, sibling: Node, root: Root, ghost ctx: Context, ghost t: Tree)
    returns (done: bool, node: Node?, up: Node?, ghost ctx': Context, ghost t': Tree)
    requires Holds(root, Plug(ctx, t)) && Short(ctx, t) && IsBlack(t) && ctx.LeftOf? && ctx.node == parent
    requires ctx.right.Branch? && ctx.right.node == sibling && ctx.right.color == Black
    modifies root, Nodes(Plug(ctx, t))
    ensures Holds(root, Plug(ctx', t')) && SameContents(Plug(ctx', t'), Plug(ctx, t))
    ensures if done then ctx' == Top && RedBlack(t') && root.rotations <= old(root.rotations) + 2
            else Short(ctx', t') && node == TopNode(t') && up == Parent(ctx') && ctx' == ctx.up && root.rotations == old(root.rotations)
    ensures !done ==> t'.Branch? && t'.color == ctx.color
  {
    done, node, up := false, parent, null;
    ghost var u, at := ctx.right, RightOf(ctx.color, t, parent, ctx.up);
    Nephews(root, at, u);
    if (sibling.left == null || sibling.left.color == Black) && (sibling.right == null || sibling.right.color == Black) {
      AbsorbLeftFits(ctx, t);
      Paint(sibling, Red, root, at, u);
      ctx', t' := ctx.up, AbsorbedLeft(ctx, t);
      Look(root, ctx', t');
      up := node.parent;
    } else {
      BorrowLeftFits(ctx, t);
      var other := MakeFarRedLeft(parent, sibling, root, ctx, t);
      ghost var c := ctx.(right := FarRedLeft(u));
      BorrowLeft(parent, other, root, c, t);
      done, ctx', t' := true, Top, Plug(ctx.up, LentLeft(c, t));
    }
  }

  /** The body of the loop for a left child. */
  method RoundLeft(parent: Node, root: Root, ghost ctx: Context, ghost t: Tree)
    returns (done: bool, node: Node?, up: Node?, ghost ctx': Context, ghost t': Tree)
    requires Holds(root, Plug(ctx, t)) && Short(ctx, t) && IsBlack(t) && ctx.LeftOf? && ctx.node == parent
    modifies root, Nodes(Plug(ctx, t))
    ensures Holds(root, Plug(ctx', t')) && SameContents(Plug(ctx', t'), Plug(ctx, t))
    ensures if done then ctx' == Top && RedBlack(t') && root.rotations <= old(root.rotations) + 3
            else Short(ctx', t') && node == TopNode(t') && up == Parent(ctx') && Measure(ctx', t') < Measure(ctx, t) &&
                 (root.rotations == old(root.rotations) || (root.rotations == old(root.rotations) + 1 && !IsBlack(t')))
  {
    SiblingExists(ctx, t);
    ghost var c, u := ctx, ctx.right;
    Look(root, ctx, t);
    Nephews(root, RightOf(ctx.color, t, parent, ctx.up), u);
    var other := parent.right;
    if other.color == Red {
      LowerLeftFits(ctx, t);
      LowerNodeLeft(parent, other, root, ctx, t);
      c := LoweredLeft(ctx);
      Look(root, c, t);
      other := parent.right;
    }
    done, node, up, ctx', t' := SettleLeft(parent, other, root, c, t);
  }

  // ---------- the deficient node is a right child ----------

  /** A red sibling is rotated above the parent; the new sibling is black. */
  ghost function LoweredRight(ctx: Context): Context
    requires ctx.RightOf? && ctx.left.Branch?
  {
    RightOf(Red, ctx.left.right, ctx.node, RightOf(Black, ctx.left.left, ctx.left.node, ctx.up))
  }

  lemma LowerRightFits(ctx: Context, t: Tree)
    requires Short(ctx, t) && ctx.RightOf? && ctx.left.Branch? && ctx.left.color == Red
    ensures Short(LoweredRight(ctx), t) && LoweredRight(ctx).left.Branch? && LoweredRight(ctx).left.color == Black
    ensures ctx.color == Black
  {
    var g := Branch(ctx.color, ctx.left, ctx.node, t);
    assert BlackHeight(ctx.left) == BlackHeight(ctx.left.right) == BlackHeight(ctx.left.left);
  }

  method LowerNodeRight(parent: Node, sibling: Node, root: Root, ghost ctx: Context, ghost t: Tree)
    requires Holds(root, Plug(ctx, t)) && ctx.RightOf? && ctx.node == parent
    requires ctx.left.Branch? && ctx.left.node == sibling
    modifies root, Nodes(Plug(ctx, t))
    ensures Holds(root, Plug(LoweredRight(ctx), t)) && SameContents(Plug(LoweredRight(ctx), t), Plug(ctx, t))
    ensures root.rotations == old(root.rotations) + 1
  {
    ghost var pc, u, up := ctx.color, ctx.left, ctx.up;
    Look(root, ctx, t);
    Look(root, LeftOf(pc, parent, t, up), u);
    Paint(sibling, Black, root, LeftOf(pc, parent, t, up), u);
    u := u.(color := Black);
    Paint(parent, Red, root, up, Branch(pc, u, parent, t));
    RotateRightAt(parent, root, up, Branch(Red, u, parent, t));
  }

  /** A black sibling without red children turns red: the deficit moves up to the parent. */
  ghost function AbsorbedRight(ctx: Context, t: Tree): Tree
    requires ctx.RightOf? && ctx.left.Branch?
  {
    Branch(ctx.color, ctx.left.(color := Red), ctx.node, t)
  }

  lemma AbsorbRightFits(ctx: Context, t: Tree)
    requires Short(ctx, t) && IsBlack(t) && ctx.RightOf? && ctx.left.Branch?
    requires ctx.left.color == Black && IsBlack(ctx.left.left) && IsBlack(ctx.left.right)
    ensures Short(ctx.up, AbsorbedRight(ctx, t))
  {
    assert Balanced(ctx.left.(color := Red));
  }

  /** A black sibling with a red child: rotated so that the red child is the far one. */
  ghost function FarRedRight(u: Tree): Tree
    requires u.Branch? && (IsBlack(u.left) ==> u.right.Branch?)
  {
    if IsBlack(u.left) then RotatedLeft(Branch(Red, u.left, u.node, u.right.(color := Black))) else u
  }

  /** ... and rotated above the parent, taking over the parent's color. */
  ghost function LentRight(ctx: Context, t: Tree): Tree
    requires ctx.RightOf? && ctx.left.Branch? && ctx.left.left.Branch?
  {
    var u := ctx.left;
    Branch(ctx.color, u.left.(color := Black), u.node, Branch(Black, u.right, ctx.node, t))
  }

  lemma FarRedRightFits(u: Tree)
    requires Balanced(u) && u.Branch? && u.color == Black && !(IsBlack(u.left) && IsBlack(u.right))
    ensures var near := FarRedRight(u).right; Balanced(near) && BlackHeight(near) == BlackHeight(u.left)
    ensures var far := FarRedRight(u).left;
            far.Branch? && Balanced(Blackened(far)) && BlackHeight(Blackened(far)) == BlackHeight(u)
  {
  }

  /** The deficit is gone. */
  lemma BorrowRightFits(ctx: Context, t: Tree)
    requires Short(ctx, t) && IsBlack(t) && ctx.RightOf? && ctx.left.Branch? && ctx.left.color == Black
    requires !(IsBlack(ctx.left.left) && IsBlack(ctx.left.right))
    ensures var c := ctx.(left := FarRedRight(ctx.left));
            c.left.Branch? && c.left.left.Branch? && RedBlack(Plug(ctx.up, LentRight(c, t)))
  {
    FarRedRightFits(ctx.left);
    var b := LentRight(ctx.(left := FarRedRight(ctx.left)), t);
    assert Balanced(b.right) && Balanced(b.left) && IsBlack(b.right) && IsBlack(b.left);
    PlugRedBlack(ctx.up, b);
  }

  method MakeFarRedRight(parent: Node, sibling: Node, root: Root, ghost ctx: Context, ghost t: Tree) returns (other: Node)
    requires Holds(root, Plug(ctx, t)) && ctx.RightOf? && ctx.node == parent && ctx.left.Branch? && ctx.left.node == sibling
    requires ctx.left.color == Black && !(IsBlack(ctx.left.left) && IsBlack(ctx.left.right))
    modifies root, Nodes(Plug(ctx, t))
    ensures var u := FarRedRight(ctx.left); u.color == Black && u.left.Branch? && other == u.node
    ensures var c := ctx.(left := FarRedRight(ctx.left)); Holds(root, Plug(c, t)) && SameContents(Plug(c, t), Plug(ctx, t))
    ensures root.rotations <= old(root.rotations) + 1
  {
    other := sibling;
    ghost var u := ctx.left;
    ghost var at := LeftOf(ctx.color, parent, t, ctx.up);
    Look(root, ctx, t);
    Look(root, at, u);
    Look(root, LeftOf(u.color, other, u.right, at), u.left);
    if other.left == null || other.left.color == Black {
      Look(root, RightOf(u.color, u.left, other, at), u.right);
      var near := other.right;
      if near != null {
        Paint(near, Black, root, RightOf(u.color, u.left, other, at), u.right);
      }
      u := u.(right := u.right.(color := Black));
      Paint(other, Red, root, at, u);
      RotateLeftAt(other, root, at, u.(color := Red));
      ghost var v := RotatedLeft(u.(color := Red));
      Look(root, at, v);
      Look(root, ctx.(left := v), t);
      other := parent.left;
    }
  }

  /** The links and colors read when the sibling `u` and its far child are recolored. */
  lemma BorrowSiteRight(root: Root, at: Context, u: Tree)
    requires Holds(root, Plug(at, u)) && u.Branch? && !at.Top? && u.left.Branch?
    ensures {u.node, at.node, u.left.node} <= Nodes(Plug(at, u)) && at.node.color == at.color && u.node.left == u.left.node
  {
    Look(root, at, u);
    Look(root, LeftOf(u.color, u.node, u.right, at), u.left);
  }

  method BorrowRight(parent: Node, other: Node, root: Root, ghost ctx: Context, ghost t: Tree)
    requires Holds(root, Plug(ctx, t)) && ctx.RightOf? && ctx.node == parent
    requires ctx.left.Branch? && ctx.left.node == other && ctx.left.color == Black && ctx.left.left.Branch?
    modifies root, Nodes(Plug(ctx, t))
    ensures Holds(root, Plug(ctx.up, LentRight(ctx, t))) && SameContents(Plug(ctx.up, LentRight(ctx, t)), Plug(ctx, t))
    ensures root.rotations == old(root.rotations) + 1
  {
    ghost var pc, u, up := ctx.color, ctx.left, ctx.up;
    ghost var at := LeftOf(pc, parent, t, up);
    BorrowSiteRight(root, at, u);
    Paint(other, parent.color, root, at, u);
    u := u.(color := pc);
    Paint(parent, Black, root, up, Branch(pc, u, parent, t));
    assert other.left == u.left.node;
    at := LeftOf(Black, parent, t, up);
    assert Holds(root, Plug(at, u));
    if other.left != null {
      Paint(other.left, Black, root, LeftOf(pc, other, u.right, at), u.left);
    }
    u := u.(left := u.left.(color := Black));
    assert Holds(root, Plug(at, u));
    RotateRightAt(parent, root, up, Branch(Black, u, parent, t));
  }

  /** The part of a round after the sibling has been made black. */
  method SettleRight(parent: Node, sibling: Node, root: Root, ghost ctx: Context, ghost t: Tree)
    returns (done: bool, node: Node?, up: Node?, ghost ctx': Context, ghost t': Tree)
    requires Holds(root, Plug(ctx, t)) && Short(ctx, t) && IsBlack(t) && ctx.RightOf? && ctx.node == parent
    requires ctx.left.Branch? && ctx.left.node == sibling && ctx.left.color == Black
    modifies root, Nodes(Plug(ctx, t))
    ensures Holds(root, Plug(ctx', t')) && SameContents(Plug(ctx', t'), Plug(ctx, t))
    ensures if done then ctx' == Top && RedBlack(t') && root.rotations <= old(root.rotations) + 2
            else Short(ctx', t') && node == TopNode(t') && up == Parent(ctx') && ctx' == ctx.up && root.rotations == old(root.rotations)
    ensures !done ==> t'.Branch? && t'.color == ctx.color
  {
    done, node, up := false, parent, null;
    ghost var u, at := ctx.left, LeftOf(ctx.color, parent, t, ctx.up);
    Nephews(root, at, u);
    if (sibling.left == null || sibling.left.color == Black) && (sibling.right == null || sibling.right.color == Black) {
      AbsorbRightFits(ctx, t);
      Paint(sibling, Red, root, at, u);
      ctx', t' := ctx.up, AbsorbedRight(ctx, t);
      Look(root, ctx', t');
      up := node.parent;
    } else {
      BorrowRightFits(ctx, t);
      var other := MakeFarRedRight(parent, sibling, root, ctx, t);
      ghost var c := ctx.(left := FarRedRight(u));
      BorrowRight(parent, other, root, c, t);
      done, ctx', t' := true, Top, Plug(ctx.up, LentRight(c, t));
    }
  }

  /** The body of the loop for a right child. */
  method RoundRight(parent: Node, root: Root, ghost ctx: Context, ghost t: Tree)
    returns (done: bool, node: Node?, up: Node?, ghost ctx': Context, ghost t': Tree)
    requires Holds(root, Plug(ctx, t)) && Short(ctx, t) && IsBlack(t) && ctx.RightOf? && ctx.node == parent
    modifies root, Nodes(Plug(ctx, t))
    ensures Holds(root, Plug(ctx', t')) && SameContents(Plug(ctx', t'), Plug(ctx, t))
    ensures if done then ctx' == Top && RedBlack(t') && root.rotations <= old(root.rotations) + 3
            else Short(ctx', t') && node == TopNode(t') && up == Parent(ctx') && Measure(ctx', t') < Measure(ctx, t) &&
                 (root.rotations == old(root.rotations) || (root.rotations == old(root.rotations) + 1 && !IsBlack(t')))
  {
    SiblingExists(ctx, t);
    ghost var c, u := ctx, ctx.left;
    Look(root, ctx, t);
    Nephews(root, LeftOf(ctx.color, parent, t, ctx.up), u);
    var other := parent.left;
    if other.color == Red {
      LowerRightFits(ctx, t);
      LowerNodeRight(parent, other, root, ctx, t);
      c := LoweredRight(ctx);
      Look(root, c, t);
      other := parent.left;
    }
    done, node, up, ctx', t' := SettleRight(parent, other, root, c, t);
  }

  // ---------- the loop ----------

  lemma {:induction false} OutermostInContext(ctx: Context, hole: Node?)
    requires !ctx.Top?
    ensures Outermost(ctx, hole) in ContextNodes(ctx)
    decreases ctx
  {
    if !ctx.up.Top? { OutermostInContext(ctx.up, ctx.node); }
  }

  /** What the loop guard and the choice of a side read. */
  lemma Guard(root: Root, ctx: Context, t: Tree)
    requires Holds(root, Plug(ctx, t)) && Short(ctx, t)
    ensures TopNode(t) == root.node <==> ctx.Top?
    ensures t.Branch? ==> t.node.color == t.color && t.node in Nodes(Plug(ctx, t))
    ensures !ctx.Top? ==> ctx.node in Nodes(Plug(ctx, t)) && (ctx.node.left == TopNode(t) <==> ctx.LeftOf?)
  {
    Look(root, ctx, t);
    PlugTop(ctx, t);
    if !ctx.Top? {
      OutermostInContext(ctx, TopNode(t));
      if ctx.RightOf? { assert ctx.left.Branch? && ctx.left.node in ContextNodes(ctx); }
    }
  }

  /** Blackening the node the loop stops at pays the deficit, or it was the root's to drop. */
  method PaintLast(node: Node?, root: Root, ghost ctx: Context, ghost t: Tree) returns (ghost tree: Tree)
    requires Holds(root, Plug(ctx, t)) && node == TopNode(t)
    requires Short(ctx, t) && (ctx.Top? || !IsBlack(t))
    modifies Nodes(Plug(ctx, t))
    ensures Holds(root, tree) && RedBlack(tree) && SameContents(tree, Plug(ctx, t))
  {
    Guard(root, ctx, t);
    PlugRedBlack(ctx, Blackened(t));
    if node != null {
      Paint(node, Black, root, ctx, t);
    }
    tree := Plug(ctx, Blackened(t));
  }

  /** A red-black tree as a whole may drop one black node from every path. */
  lemma Settled(root: Root, t: Tree)
    requires Holds(root, Plug(Top, t)) && RedBlack(t)
    ensures Short(Top, t) && root.node == TopNode(t)
  {
  }

  /** `__rb_erase_color`: the subtree in the hole of `place` is one black node short. */
  method EraseColor(child: Node?, over: Node?, root: Root, ghost place: Context, ghost rest: Tree) returns (ghost tree: Tree)
    requires Holds(root, Plug(place, rest)) && Short(place, rest)
    requires child == TopNode(rest) && over == Parent(place)
    modifies root, Nodes(Plug(place, rest))
    ensures Holds(root, tree) && RedBlack(tree) && SameContents(tree, Plug(place, rest))
    ensures root.rotations <= old(root.rotations) + 3
  {
    hide RedBlack, Short, Holds, Balanced, BlackHeight, Measure;
    var node, parent := child, over;
    ghost var ctx, t, whole := place, rest, Plug(place, rest);
    Guard(root, ctx, t);
    while (node == null || node.color == Black) && node != root.node
      invariant Holds(root, Plug(ctx, t)) && SameContents(Plug(ctx, t), whole)
      invariant Short(ctx, t) && node == TopNode(t) && parent == Parent(ctx)
      invariant TopNode(t) == root.node <==> ctx.Top?
      invariant t.Branch? ==> t.node.color == t.color
      invariant root.rotations == old(root.rotations) || (root.rotations == old(root.rotations) + 1 && !IsBlack(t))
      decreases Measure(ctx, t)
    {
      Guard(root, ctx, t);
      var done;
      if parent.left == node {
        done, node, parent, ctx, t := RoundLeft(parent, root, ctx, t);
      } else {
        done, node, parent, ctx, t := RoundRight(parent, root, ctx, t);
      }
      if done {
        Settled(root, t);
        node := root.node;
        break;
      }
      Guard(root, ctx, t);
    }
    tree := PaintLast(node, root, ctx, t);
  }

  // ---------- taking the node out ----------

  ghost function Without(s: seq<Node>, n: Node): seq<Node> {
    if s == [] then [] else if s[0] == n then s[1..] else [s[0]] + Without(s[1..], n)
  }

  lemma {:induction false} WithoutMiddle(a: seq<Node>, n: Node, b: seq<Node>)
    requires n !in a
    ensures Without(a + [n] + b, n) == a + b
  {
    var s := a + [n] + b;
    if a == [] {
      assert s == [n] + b;
    } else {
      assert s[1..] == a[1..] + [n] + b;
      WithoutMiddle(a[1..], n, b);
    }
  }

  /** Only the topmost node of the subtree leaves: the rest of the in-order sequence stays. */
  lemma TopRemoved(ctx: Context, t: Tree)
    requires t.Branch? && Separate(ctx, t)
    ensures Before(ctx) + (InOrder(t.left) + InOrder(t.right)) + After(ctx) == Without(InOrder(Plug(ctx, t)), t.node)
  {
    PlugInOrder(ctx, t);
    PlugNodes(ctx, t);
    var a, n, b := Before(ctx) + InOrder(t.left), t.node, InOrder(t.right) + After(ctx);
    Halves(Before(ctx), InOrder(t.left), n, InOrder(t.right), After(ctx));
    if n in a {
      var i :| 0 <= i < |a| && a[i] == n;
      assert (a + [n] + b)[i] == n && (a + [n] + b)[|a|] == n;
      InOrderInjective(Plug(ctx, t), i, |a|);
    }
    WithoutMiddle(a, n, b);
  }

  /** With at most one child, splicing leaves a deficit exactly when the node was black. */
  lemma SplicedFits(ctx: Context, t: Tree, only: Tree)
    requires HasOnlyChild(t, only) && RedBlack(Plug(ctx, t))
    ensures t.color == Black ==> Short(ctx, only)
    ensures t.color == Red ==> RedBlack(Plug(ctx, only))
  {
    PlugRedBlack(ctx, t);
    PlugRedBlack(ctx, only);
  }

  /** Which node stands in a frame does not matter to the balance around it. */
  lemma {:induction false} RenamedFrame(inner: Context, c: Color, l: Tree, n: Node, m: Node, ctx: Context, h: nat)
    ensures BalancedAround(Within(inner, RightOf(c, l, n, ctx)), h) ==> BalancedAround(Within(inner, RightOf(c, l, m, ctx)), h)
    decreases inner
  {
    match inner
    case Top =>
    case LeftOf(d, _, _, up) => RenamedFrame(up, c, l, n, m, ctx, h + Weight(d));
    case RightOf(d, _, _, up) => RenamedFrame(up, c, l, n, m, ctx, h + Weight(d));
  }

  /** Putting the spliced-out successor `s` in the place of the node keeps the deficit where it was. */
  lemma SuccessorFits(inner: Context, cur: Tree, c: Color, l: Tree, n: Node, ctx: Context)
    requires cur.Branch? && cur.left.Leaf?
    requires RedBlack(Plug(Within(inner, RightOf(c, l, n, ctx)), cur))
    ensures var place := Within(inner, RightOf(c, l, cur.node, ctx));
            if cur.color == Black then Short(place, cur.right) else RedBlack(Plug(place, cur.right))
  {
    var place := Within(inner, RightOf(c, l, cur.node, ctx));
    RenamedFrame(inner, c, l, n, cur.node, ctx, BlackHeight(cur));
    PlugRedBlack(Within(inner, RightOf(c, l, n, ctx)), cur);
    PlugRedBlack(place, cur);
    SplicedFits(place, cur, cur.right);
  }

  /** The in-order sequences before and after the successor's move. */
  lemma SuccessorOrder(inner: Context, cur: Tree, c: Color, l: Tree, n: Node, ctx: Context)
    requires cur.Branch? && cur.left.Leaf? && Before(inner) == []
    requires Separate(ctx, Branch(c, l, n, Plug(inner, cur)))
    ensures var t, u := Branch(c, l, n, Plug(inner, cur)), Branch(c, l, cur.node, Plug(inner, cur.right));
            InOrder(Plug(ctx, u)) == Without(InOrder(Plug(ctx, t)), n)
  {
    var t, u := Branch(c, l, n, Plug(inner, cur)), Branch(c, l, cur.node, Plug(inner, cur.right));
    LeftmostFirst(inner, cur);
    PlugInOrder(ctx, u);
    assert InOrder(u) == InOrder(l) + [cur.node] + InOrder(u.right) == InOrder(l) + ([cur.node] + InOrder(u.right));
    TopRemoved(ctx, t);
  }

  lemma LeftmostFirst(inner: Context, cur: Tree)
    requires cur.Branch? && cur.left.Leaf? && Before(inner) == []
    ensures InOrder(Plug(inner, cur)) == [cur.node] + InOrder(Plug(inner, cur.right))
  {
    PlugInOrder(inner, cur);
    PlugInOrder(inner, cur.right);
  }

  /** The leftmost node of a right subtree, with the way down to it. */
  method Successor(victim: Node, root: Root, ghost outer: Context, ghost t: Tree)
    returns (node: Node, ghost inner: Context, ghost cur: Tree)
    requires Holds(root, Plug(outer, t)) && t.Branch? && victim.right == t.node
    ensures Holds(root, Plug(outer, t))
    ensures cur.Branch? && cur.node == node && cur.left.Leaf? && Plug(inner, cur) == t && Before(inner) == []
  {
    node := victim.right;
    inner, cur := Top, t;
    Look(root, outer, t);
    while node.left != null
      invariant Holds(root, Plug(outer, t))
      invariant cur.Branch? && cur.node == node && Plug(inner, cur) == t && Before(inner) == []
      invariant Plug(Within(inner, outer), cur) == Plug(outer, t)
      invariant node.left == TopNode(cur.left)
      decreases cur
    {
      node := node.left;
      inner, cur := LeftOf(cur.color, cur.node, cur.right, inner), cur.left;
      assert Plug(Within(inner, outer), cur) == Plug(outer, t);
      Look(root, Within(inner, outer), cur);
    }
  }

  /** A place below the right child of `n`, seen from above `n`. */
  lemma PlaceBelow(ctx: Context, c: Color, l: Tree, n: Node, inner: Context, t: Tree)
    ensures var at := Within(inner, RightOf(c, l, n, ctx));
            Plug(at, t) == Plug(ctx, Branch(c, l, n, Plug(inner, t))) && Parent(at) == if inner.Top? then n else inner.node
  {
    PlugWithin(inner, RightOf(c, l, n, ctx), t);
  }

  /** The nodes on the way to the successor lie in the right subtree. */
  lemma WayDown(inner: Context, cur: Tree, t: Tree)
    requires t.Branch? && cur.Branch? && Plug(inner, cur) == t.right && Distinct(t)
    ensures cur.node != t.node && (!inner.Top? ==> inner.node != t.node)
  {
    PlugNodes(inner, cur);
    assert cur.node in Nodes(cur) && (!inner.Top? ==> inner.node in ContextNodes(inner));
  }

  /** The places of the successor and of its right child, before and after the move. */
  lemma SuccessorMoves(root: Root, ctx: Context, t: Tree, inner: Context, cur: Tree) returns (at: Context, place: Context)
    requires Holds(root, Plug(ctx, t)) && RedBlack(Plug(ctx, t)) && t.Branch?
    requires Plug(inner, cur) == t.right && cur.Branch? && cur.left.Leaf? && Before(inner) == []
    ensures var u := Branch(t.color, t.left, t.node, Plug(inner, cur.right));
            Plug(at, cur) == Plug(ctx, t) && Plug(at, cur.right) == Plug(ctx, u) &&
            Plug(place, cur.right) == Plug(ctx, u.(node := cur.node)) &&
            InOrder(Plug(place, cur.right)) == Without(InOrder(Plug(ctx, t)), t.node)
    ensures cur.node in Nodes(Plug(ctx, t)) && cur.node != t.node
    ensures CellOf(cur.node) == Cell(Parent(at), null, TopNode(cur.right), cur.color)
    ensures Parent(place) == if Parent(at) == t.node then cur.node else Parent(at)
    ensures if cur.color == Black then Short(place, cur.right) else RedBlack(Plug(place, cur.right))
  {
    var Branch(c, l, n, _) := t;
    at, place := Within(inner, RightOf(c, l, n, ctx)), Within(inner, RightOf(c, l, cur.node, ctx));
    PlaceBelow(ctx, c, l, n, inner, cur);
    PlaceBelow(ctx, c, l, n, inner, cur.right);
    PlaceBelow(ctx, c, l, cur.node, inner, cur.right);
    Look(root, ctx, t);
    WayDown(inner, cur, t);
    Links(root, at, cur);
    SuccessorFits(inner, cur, c, l, n, ctx);
    SuccessorOrder(inner, cur, c, l, n, ctx);
  }

  /** The branch of `rb_erase` for a node with two children: the successor is spliced out and takes over. */
  method DetachInner(victim: Node, root: Root, ghost ctx: Context, ghost t: Tree)
    returns (child: Node?, parent: Node?, color: Color, ghost place: Context, ghost rest: Tree)
    requires Holds(root, Plug(ctx, t)) && RedBlack(Plug(ctx, t)) && t.Branch? && t.node == victim && t.left.Branch? && t.right.Branch?
    modifies root`node, Nodes(Plug(ctx, t))
    ensures Holds(root, Plug(place, rest)) && child == TopNode(rest) && parent == Parent(place)
    ensures if color == Black then Short(place, rest) else RedBlack(Plug(place, rest))
    ensures InOrder(Plug(place, rest)) == Without(InOrder(Plug(ctx, t)), victim)
    ensures Nodes(Plug(place, rest)) == Nodes(Plug(ctx, t)) - {victim}
  {
    Links(root, ctx, t);
    var node; ghost var inner, cur, at;
    node, inner, cur := Successor(victim, root, RightOf(t.color, t.left, victim, ctx), t.right);
    at, place := SuccessorMoves(root, ctx, t, inner, cur);
    rest := cur.right;
    child := node.right;
    parent := node.parent;
    color := node.color;

    SpliceAt(node, child, parent, root, at, cur, rest);

    if node.parent == victim {
      parent := node;
    }
    TakeOverAt(victim, node, root, ctx, Branch(t.color, t.left, victim, Plug(inner, rest)));
  }

  /** `rb_erase` up to the fix-up: afterwards the tree is in order, or short of one black node where `child` hangs. */
  method Detach(node: Node, root: Root, ghost ctx: Context, ghost t: Tree)
    returns (child: Node?, parent: Node?, color: Color, ghost place: Context, ghost rest: Tree)
    requires Holds(root, Plug(ctx, t)) && RedBlack(Plug(ctx, t)) && t.Branch? && t.node == node
    modifies root`node, Nodes(Plug(ctx, t))
    ensures Holds(root, Plug(place, rest)) && child == TopNode(rest) && parent == Parent(place)
    ensures if color == Black then Short(place, rest) else RedBlack(Plug(place, rest))
    ensures InOrder(Plug(place, rest)) == Without(InOrder(Plug(ctx, t)), node)
    ensures Nodes(Plug(place, rest)) == Nodes(Plug(ctx, t)) - {node}
  {
    Links(root, ctx, t);
    if node.left == null {
      child := node.right;
    } else if node.right == null {
      child := node.left;
    } else {
      child, parent, color, place, rest := DetachInner(node, root, ctx, t);
      return;
    }

    parent := node.parent;
    color := node.color;
    place, rest := ctx, if t.left.Leaf? then t.right else t.left;
    SplicedFits(ctx, t, rest);
    PlugNodes(ctx, t);
    OnlyChildRemoved(ctx, t, rest);
    SpliceAt(node, child, parent, root, ctx, t, rest);
  }

  lemma OnlyChildRemoved(ctx: Context, t: Tree, only: Tree)
    requires HasOnlyChild(t, only) && Separate(ctx, t)
    ensures InOrder(Plug(ctx, only)) == Without(InOrder(Plug(ctx, t)), t.node)
  {
    TopRemoved(ctx, t);
    PlugInOrder(ctx, only);
    var l, r := InOrder(t.left), InOrder(t.right);
    assert InOrder(only) == l + r;
  }

  /** `rb_erase`. */
  method Erase(node: Node, root: Root, ghost tree: Tree) returns (ghost tree': Tree)
    requires Holds(root, tree) && RedBlack(tree) && node in Nodes(tree)
    modifies root, Nodes(tree)
    ensures Holds(root, tree') && RedBlack(tree')
    ensures InOrder(tree') == Without(InOrder(tree), node) && Nodes(tree') == Nodes(tree) - {node}
    ensures root.rotations <= old(root.rotations) + 3
  {
    ghost var (ctx, t) := Locate(Top, tree, node);
    var child, parent, color; ghost var place, rest;
    child, parent, color, place, rest := Detach(node, root, ctx, t);
    tree' := Plug(place, rest);
    if color == Black {
      tree' := EraseColor(child, parent, root, place, rest);
    }
  }
}
