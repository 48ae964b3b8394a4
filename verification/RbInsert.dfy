/** The insert fix-up: restores the red-black invariants after a red leaf has been linked in. */
module RbInsert {
  import opened RbShape
  import opened RbLinks
  import opened RbSteps

  /** A red-topped balanced subtree in a context that is in order, except perhaps for a red parent. */
  ghost predicate RedFits(ctx: Context, t: Tree) {
    t.Branch? && t.color == Red && Balanced(t) && BalancedAround(ctx, BlackHeight(t))
  }

  // ---------- the shapes of one round ----------

  /** The grandparent's subtree, when there are a parent and a grandparent. */
  ghost function Grand(ctx: Context, t: Tree): Tree
    requires !ctx.Top? && !ctx.up.Top?
  {
    Wrap(ctx.up, Wrap(ctx, t))
  }

  /** Both children black, their parent red. */
  ghost function Flipped(g: Tree): Tree
    requires g.Branch? && g.left.Branch? && g.right.Branch?
  {
    Branch(Red, g.left.(color := Black), g.node, g.right.(color := Black))
  }

  lemma RedParent(ctx: Context, t: Tree)
    requires RedFits(ctx, t) && !ctx.Top? && ctx.color == Red
    ensures !ctx.up.Top? && ctx.up.color == Black
    ensures var p, h := Wrap(ctx, t), BlackHeight(t);
            p.color == Red && Balanced(p.left) && Balanced(p.right) && BlackHeight(p.left) == BlackHeight(p.right) == h
    ensures var g, h := Grand(ctx, t), BlackHeight(t);
            g.Branch? && BalancedAround(ctx.up.up, h + 1) && g.color == Black &&
            (ctx.up.LeftOf? ==> Balanced(g.right) && BlackHeight(g.right) == h) &&
            (ctx.up.RightOf? ==> Balanced(g.left) && BlackHeight(g.left) == h)
    ensures if ctx.LeftOf? then IsBlack(ctx.right) else IsBlack(ctx.left)
  {
    assert BalancedAround(ctx.up, BlackHeight(t));
  }

  lemma FlipFits(ctx: Context, t: Tree)
    requires RedFits(ctx, t) && !ctx.Top? && ctx.color == Red && !ctx.up.Top?
    requires var g := Grand(ctx, t); g.left.Branch? && g.right.Branch? && g.left.color == Red && g.right.color == Red
    ensures RedFits(ctx.up.up, Flipped(Grand(ctx, t)))
    ensures InOrder(Flipped(Grand(ctx, t))) == InOrder(Grand(ctx, t))
  {
    RedParent(ctx, t);
    var g := Grand(ctx, t);
    assert Balanced(Wrap(ctx, t).(color := Black));
    assert Balanced(g.left.(color := Black)) && Balanced(g.right.(color := Black));
    assert InOrder(g.left.(color := Black)) == InOrder(g.left) && InOrder(g.right.(color := Black)) == InOrder(g.right);
  }

  /** The parent's subtree with the red node on the outer side: rotated once if it was on the inner side. */
  ghost function OuterLeft(ctx: Context, t: Tree): Tree
    requires t.Branch? && !ctx.Top?
  {
    if ctx.RightOf? then RotatedLeft(Wrap(ctx, t)) else Wrap(ctx, t)
  }

  ghost function LiftedLeft(ctx: Context, t: Tree): Tree
    requires t.Branch? && !ctx.Top? && ctx.up.LeftOf?
  {
    var tp, g := OuterLeft(ctx, t), Grand(ctx, t);
    RotatedRight(Branch(Red, tp.(color := Black), g.node, g.right))
  }

  /** With a black uncle the subtree is lifted: its new top is black and keeps the order, with the red node below it. */
  lemma LiftLeftFits(ctx: Context, t: Tree)
    requires RedFits(ctx, t) && !ctx.Top? && ctx.color == Red && ctx.up.LeftOf? && IsBlack(ctx.up.right)
    ensures var u := LiftedLeft(ctx, t);
            InOrder(u) == InOrder(Grand(ctx, t)) && u.color == Black &&
            RedFits(LeftOf(Black, u.node, u.right, ctx.up.up), u.left)
  {
    RedParent(ctx, t);
    var g, tp := Grand(ctx, t), OuterLeft(ctx, t);
    if ctx.RightOf? { RotatedLeftKeeps(Wrap(ctx, t)); }
    assert InOrder(tp) == InOrder(g.left) && InOrder(tp.(color := Black)) == InOrder(tp);
    var tg := Branch(Red, tp.(color := Black), g.node, g.right);
    RotatedRightKeeps(tg);
    assert InOrder(tg) == InOrder(g);
    assert Balanced(tp.left) && Balanced(tp.right) && BlackHeight(tp.left) == BlackHeight(tp.right) == BlackHeight(t);
  }

  /** The parent's subtree with the red node on the outer side: rotated once if it was on the inner side. */
  ghost function OuterRight(ctx: Context, t: Tree): Tree
    requires t.Branch? && !ctx.Top?
  {
    if ctx.LeftOf? then RotatedRight(Wrap(ctx, t)) else Wrap(ctx, t)
  }

  ghost function LiftedRight(ctx: Context, t: Tree): Tree
    requires t.Branch? && !ctx.Top? && ctx.up.RightOf?
  {
    var tp, g := OuterRight(ctx, t), Grand(ctx, t);
    RotatedLeft(Branch(Red, g.left, g.node, tp.(color := Black)))
  }

  /** With a black uncle the subtree is lifted: its new top is black and keeps the order, with the red node below it. */
  lemma LiftRightFits(ctx: Context, t: Tree)
    requires RedFits(ctx, t) && !ctx.Top? && ctx.color == Red && ctx.up.RightOf? && IsBlack(ctx.up.left)
    ensures var u := LiftedRight(ctx, t);
            InOrder(u) == InOrder(Grand(ctx, t)) && u.color == Black &&
            RedFits(RightOf(Black, u.left, u.node, ctx.up.up), u.right)
  {
    RedParent(ctx, t);
    var g, tp := Grand(ctx, t), OuterRight(ctx, t);
    if ctx.LeftOf? { RotatedRightKeeps(Wrap(ctx, t)); }
    assert InOrder(tp) == InOrder(g.right) && InOrder(tp.(color := Black)) == InOrder(tp);
    var tg := Branch(Red, g.left, g.node, tp.(color := Black));
    RotatedLeftKeeps(tg);
    assert InOrder(tg) == InOrder(g);
    assert Balanced(tp.left) && Balanced(tp.right) && BlackHeight(tp.left) == BlackHeight(tp.right) == BlackHeight(t);
  }

  // ---------- the loop ----------

  lemma FlippedCells(g: Tree, p: Node?)
    requires g.Branch? && g.left.Branch? && g.right.Branch? && Distinct(g)
    ensures Nodes(Flipped(g)) == Nodes(g) && Distinct(Flipped(g)) && {g.node, g.left.node, g.right.node} <= Nodes(g)
    ensures forall n :: n in Nodes(g) ==>
              CellIn(Flipped(g), p, n) ==
              CellIn(g, p, n).(color := if n == g.node then Red
                                        else if n == g.left.node || n == g.right.node then Black else CellIn(g, p, n).color)
  {
    var l, r := g.left.(color := Black), g.right.(color := Black);
    assert Nodes(l) == Nodes(g.left) && Nodes(r) == Nodes(g.right) && Distinct(g.left) && Distinct(g.right) && Distinct(l) && Distinct(r);
    assert forall n :: n in Nodes(l) ==> CellIn(l, g.node, n) == if n == l.node then CellIn(g.left, g.node, n).(color := Black) else CellIn(g.left, g.node, n);
    assert forall n :: n in Nodes(r) ==> CellIn(r, g.node, n) == if n == r.node then CellIn(g.right, g.node, n).(color := Black) else CellIn(g.right, g.node, n);
  }

  /** Moves the red of the two children to their parent. */
  method Flip(uncle: Node, parent: Node, gparent: Node, root: Root, ghost top: Context, ghost g: Tree)
    requires Holds(root, Plug(top, g)) && g.Branch? && g.node == gparent && g.left.Branch? && g.right.Branch?
    requires (parent == g.left.node && uncle == g.right.node) || (parent == g.right.node && uncle == g.left.node)
    modifies uncle`color, parent`color, gparent`color
    ensures Holds(root, Plug(top, Flipped(g)))
  {
    Focus(root, top, g);
    FlippedCells(g, Parent(top));
    uncle.color := Black;
    parent.color := Black;
    gparent.color := Red;
    Assemble(root, top, Flipped(g));
  }

  /** Brings the red node to the outer side, when the parent is a left child. */
  method TurnOutLeft(n: Node, p: Node, root: Root, ghost ctx: Context, ghost t: Tree) returns (node: Node, parent: Node)
    requires Holds(root, Plug(ctx, t)) && t.Branch? && t.node == n && !ctx.Top? && ctx.node == p
    modifies root, Nodes(Plug(ctx, t))
    ensures var u := OuterLeft(ctx, t);
            Holds(root, Plug(ctx.up, u)) && parent == u.node && node == TopNode(u.left) &&
            InOrder(u) == InOrder(Wrap(ctx, t)) && Nodes(Plug(ctx.up, u)) == Nodes(Plug(ctx, t))
    ensures root.rotations <= old(root.rotations) + 1
  {
    parent, node := p, n;
    ghost var tp := Wrap(ctx, t);
    Look(root, ctx, t);
    Look(root, ctx.up, tp);
    if parent.right == node {
      RotateLeftAt(parent, root, ctx.up, tp);
      RotatedLeftKeeps(tp);
      SameOrder(ctx.up, tp, RotatedLeft(tp));
      parent, node := node, parent;
    }
  }

  /** The rotations of a round under a left child. */
  method LiftLeft(n: Node, p: Node, gparent: Node, root: Root, ghost ctx: Context, ghost t: Tree) returns (node: Node)
    requires Holds(root, Plug(ctx, t)) && t.Branch? && t.node == n
    requires !ctx.Top? && ctx.node == p && ctx.up.LeftOf? && ctx.up.node == gparent
    modifies root, Nodes(Plug(ctx, t))
    ensures Holds(root, Plug(ctx.up.up, LiftedLeft(ctx, t)))
    ensures node == TopNode(LiftedLeft(ctx, t).left)
    ensures root.rotations <= old(root.rotations) + 2
  {
    var parent;
    node, parent := TurnOutLeft(n, p, root, ctx, t);
    ghost var tp, top := OuterLeft(ctx, t), ctx.up.up;
    ghost var tg := Wrap(ctx.up, tp.(color := Black));
    SameOrder(ctx.up, tp, tp.(color := Black));
    SameOrder(top, tg, tg.(color := Red));
    PlugNodes(ctx.up, tp);
    PlugNodes(top, tg);
    Paint(parent, Black, root, ctx.up, tp);
    Paint(gparent, Red, root, top, tg);
    RotateRightAt(gparent, root, top, tg.(color := Red));
  }

  /** Brings the red node to the outer side, when the parent is a right child. */
  method TurnOutRight(n: Node, p: Node, root: Root, ghost ctx: Context, ghost t: Tree) returns (node: Node, parent: Node)
    requires Holds(root, Plug(ctx, t)) && t.Branch? && t.node == n && !ctx.Top? && ctx.node == p
    modifies root, Nodes(Plug(ctx, t))
    ensures var u := OuterRight(ctx, t);
            Holds(root, Plug(ctx.up, u)) && parent == u.node && node == TopNode(u.right) &&
            InOrder(u) == InOrder(Wrap(ctx, t)) && Nodes(Plug(ctx.up, u)) == Nodes(Plug(ctx, t))
    ensures root.rotations <= old(root.rotations) + 1
  {
    parent, node := p, n;
    ghost var tp := Wrap(ctx, t);
    Look(root, ctx, t);
    Look(root, ctx.up, tp);
    if parent.left == node {
      RotateRightAt(parent, root, ctx.up, tp);
      RotatedRightKeeps(tp);
      SameOrder(ctx.up, tp, RotatedRight(tp));
      parent, node := node, parent;
    }
  }

  /** The rotations of a round under a right child. */
  method LiftRight(n: Node, p: Node, gparent: Node, root: Root, ghost ctx: Context, ghost t: Tree) returns (node: Node)
    requires Holds(root, Plug(ctx, t)) && t.Branch? && t.node == n
    requires !ctx.Top? && ctx.node == p && ctx.up.RightOf? && ctx.up.node == gparent
    modifies root, Nodes(Plug(ctx, t))
    ensures Holds(root, Plug(ctx.up.up, LiftedRight(ctx, t)))
    ensures node == TopNode(LiftedRight(ctx, t).right)
    ensures root.rotations <= old(root.rotations) + 2
  {
    var parent;
    node, parent := TurnOutRight(n, p, root, ctx, t);
    ghost var tp, top := OuterRight(ctx, t), ctx.up.up;
    ghost var tg := Wrap(ctx.up, tp.(color := Black));
    SameOrder(ctx.up, tp, tp.(color := Black));
    SameOrder(top, tg, tg.(color := Red));
    PlugNodes(ctx.up, tp);
    PlugNodes(top, tg);
    Paint(parent, Black, root, ctx.up, tp);
    Paint(gparent, Red, root, top, tg);
    RotateLeftAt(gparent, root, top, tg.(color := Red));
  }

  /** A red node with a red parent has a black grandparent; these are its links and the uncle's color. */
  lemma Relatives(root: Root, ctx: Context, t: Tree)
    requires Holds(root, Plug(ctx, t)) && RedFits(ctx, t) && !ctx.Top? && ctx.color == Red
    ensures !ctx.up.Top? && ctx.up.color == Black && {ctx.node, ctx.up.node} <= Nodes(Plug(ctx, t)) && ctx.node.parent == ctx.up.node
    ensures ctx.up.LeftOf? <==> ctx.up.node.left == ctx.node
    ensures var g := Grand(ctx, t);
            var u := if ctx.up.LeftOf? then g.right else g.left;
            var uncle := if ctx.up.LeftOf? then ctx.up.node.right else ctx.up.node.left;
            uncle == TopNode(u) && (uncle != null ==> uncle in Nodes(Plug(ctx, t)) && uncle.color == u.color)
  {
    RedParent(ctx, t);
    var g, top := Grand(ctx, t), ctx.up.up;
    Look(root, top, g);
    Look(root, ctx.up, Wrap(ctx, t));
    Look(root, RightOf(g.color, g.left, g.node, top), g.right);
    Look(root, LeftOf(g.color, g.node, g.right, top), g.left);
  }

  /** One round of the loop when the parent is a left child. */
  method FixUnderLeft(n: Node, parent: Node, gparent: Node, root: Root, ghost ctx: Context, ghost t: Tree)
    returns (node: Node, ghost ctx': Context, ghost t': Tree)
    requires Holds(root, Plug(ctx, t)) && RedFits(ctx, t) && t.node == n
    requires !ctx.Top? && ctx.color == Red && ctx.node == parent && ctx.up.LeftOf? && ctx.up.node == gparent
    modifies root, Nodes(Plug(ctx, t))
    ensures Holds(root, Plug(ctx', t')) && RedFits(ctx', t') && t'.node == node
    ensures InOrder(Plug(ctx', t')) == InOrder(Plug(ctx, t)) && Nodes(Plug(ctx', t')) == Nodes(Plug(ctx, t))
    ensures Depth(ctx') < Depth(ctx)
    ensures root.rotations == old(root.rotations) || (root.rotations <= old(root.rotations) + 2 && AllowsRed(ctx'))
  {
    node := n;
    ghost var g, top := Grand(ctx, t), ctx.up.up;
    Relatives(root, ctx, t);
    var uncle := gparent.right;
    if uncle != null && uncle.color == Red {
      FlipFits(ctx, t);
      SameOrder(top, g, Flipped(g));
      Flip(uncle, parent, gparent, root, top, g);
      return gparent, top, Flipped(g);
    }

    LiftLeftFits(ctx, t);
    SameOrder(top, g, LiftedLeft(ctx, t));
    node := LiftLeft(node, parent, gparent, root, ctx, t);
    ghost var v := LiftedLeft(ctx, t);
    ctx', t' := LeftOf(Black, v.node, v.right, top), v.left;
  }

  /** One round of the loop when the parent is a right child. */
  method FixUnderRight(n: Node, parent: Node, gparent: Node, root: Root, ghost ctx: Context, ghost t: Tree)
    returns (node: Node, ghost ctx': Context, ghost t': Tree)
    requires Holds(root, Plug(ctx, t)) && RedFits(ctx, t) && t.node == n
    requires !ctx.Top? && ctx.color == Red && ctx.node == parent && ctx.up.RightOf? && ctx.up.node == gparent
    modifies root, Nodes(Plug(ctx, t))
    ensures Holds(root, Plug(ctx', t')) && RedFits(ctx', t') && t'.node == node
    ensures InOrder(Plug(ctx', t')) == InOrder(Plug(ctx, t)) && Nodes(Plug(ctx', t')) == Nodes(Plug(ctx, t))
    ensures Depth(ctx') < Depth(ctx)
    ensures root.rotations == old(root.rotations) || (root.rotations <= old(root.rotations) + 2 && AllowsRed(ctx'))
  {
    node := n;
    ghost var g, top := Grand(ctx, t), ctx.up.up;
    Relatives(root, ctx, t);
    var uncle := gparent.left;
    if uncle != null && uncle.color == Red {
      FlipFits(ctx, t);
      SameOrder(top, g, Flipped(g));
      Flip(uncle, parent, gparent, root, top, g);
      return gparent, top, Flipped(g);
    }

    LiftRightFits(ctx, t);
    SameOrder(top, g, LiftedRight(ctx, t));
    node := LiftRight(node, parent, gparent, root, ctx, t);
    ghost var v := LiftedRight(ctx, t);
    ctx', t' := RightOf(Black, v.left, v.node, top), v.right;
  }

  /** The body of the loop. */
  method Round(n: Node, root: Root, ghost ctx: Context, ghost t: Tree) returns (node: Node, ghost ctx': Context, ghost t': Tree)
    requires Holds(root, Plug(ctx, t)) && RedFits(ctx, t) && t.node == n
    requires n.parent == Parent(ctx) && !ctx.Top? && ctx.color == Red
    modifies root, Nodes(Plug(ctx, t))
    ensures Holds(root, Plug(ctx', t')) && RedFits(ctx', t') && t'.node == node
    ensures InOrder(Plug(ctx', t')) == InOrder(Plug(ctx, t)) && Nodes(Plug(ctx', t')) == Nodes(Plug(ctx, t))
    ensures Depth(ctx') < Depth(ctx)
    ensures root.rotations == old(root.rotations) || (root.rotations <= old(root.rotations) + 2 && AllowsRed(ctx'))
  {
    var parent := n.parent;
    var gparent := parent.parent;
    Relatives(root, ctx, t);

    if parent == gparent.left {
      node, ctx', t' := FixUnderLeft(n, parent, gparent, root, ctx, t);
    } else {
      node, ctx', t' := FixUnderRight(n, parent, gparent, root, ctx, t);
    }
  }

  /** The last assignment: a black root makes the tree red-black. */
  method BlackenRoot(root: Root, ghost ctx: Context, ghost t: Tree) returns (ghost tree: Tree)
    requires Holds(root, Plug(ctx, t)) && RedFits(ctx, t) && (ctx.Top? || ctx.color == Black)
    modifies Nodes(Plug(ctx, t))
    ensures Holds(root, tree) && RedBlack(tree) && SameContents(tree, Plug(ctx, t))
  {
    tree := Plug(ctx, t);
    PlugRedBlack(ctx, t);
    PlugNodes(ctx, t);
    assert t.node in Nodes(tree);
    Paint(root.node, Black, root, Top, tree);
    tree := tree.(color := Black);
  }

  ghost function RedLeaf(n: Node): Tree {
    Branch(Red, Leaf, n, Leaf)
  }

  lemma LeafFits(root: Root, place: Context, leaf: Node) returns (t: Tree)
    requires Holds(root, Plug(place, RedLeaf(leaf))) && BalancedAround(place, 0)
    ensures t == RedLeaf(leaf) && RedFits(place, t) && t.node == leaf
    ensures InOrder(Plug(place, t)) == Before(place) + [leaf] + After(place)
    ensures leaf.parent == Parent(place) && (!place.Top? ==> place.node.color == place.color)
  {
    t := RedLeaf(leaf);
    PlugInOrder(place, t);
    Links(root, place, t);
  }

  /** `rb_insert_color`: `leaf` has just been linked as a red leaf in the hole of `place`. */
  method InsertColor(leaf: Node, root: Root, ghost place: Context) returns (ghost tree: Tree)
    requires Holds(root, Plug(place, RedLeaf(leaf))) && BalancedAround(place, 0)
    modifies root, Nodes(Plug(place, RedLeaf(leaf)))
    ensures Holds(root, tree) && RedBlack(tree)
    ensures InOrder(tree) == Before(place) + [leaf] + After(place) && Nodes(tree) == Nodes(Plug(place, RedLeaf(leaf)))
    ensures root.rotations <= old(root.rotations) + 2
  {
    var node := leaf;
    ghost var ctx := place;
    ghost var t := LeafFits(root, place, leaf);
    ghost var order, nodes := InOrder(Plug(ctx, t)), Nodes(Plug(ctx, t));
    while node.parent != null && node.parent.color == Red
      invariant Holds(root, Plug(ctx, t)) && RedFits(ctx, t) && t.node == node
      invariant InOrder(Plug(ctx, t)) == order && Nodes(Plug(ctx, t)) == nodes
      invariant root.rotations == old(root.rotations) || (root.rotations <= old(root.rotations) + 2 && AllowsRed(ctx))
      invariant node.parent == Parent(ctx) && (!ctx.Top? ==> ctx.node.color == ctx.color)
      decreases Depth(ctx)
    {
      node, ctx, t := Round(node, root, ctx, t);
      Links(root, ctx, t);
    }
    tree := BlackenRoot(root, ctx, t);
  }
}
