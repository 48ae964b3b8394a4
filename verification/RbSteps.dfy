/**
 The steps that rewrite the links of a tree: rotations, recoloring, linking a leaf, splicing a node
 out and putting another node in its place.

 Each step comes twice. The first form is the pointer surgery itself, with a contract about the
 handful of cells it writes. The second form, with the suffix `At`, states what the surgery does to
 the tree in the hole of a context.
 */
module RbSteps {
  import opened RbShape
  import opened RbLinks

  // ---------- rotations ----------

  ghost function RotatedLeft(t: Tree): Tree
    requires t.Branch? && t.right.Branch?
  {
    Branch(t.right.color, Branch(t.color, t.left, t.node, t.right.left), t.right.node, t.right.right)
  }

  ghost function RotatedRight(t: Tree): Tree
    requires t.Branch? && t.left.Branch?
  {
    Branch(t.left.color, t.left.left, t.left.node, Branch(t.color, t.left.right, t.node, t.right))
  }

  /** A rotation keeps the nodes and their order. */
  lemma RotatedLeftKeeps(t: Tree)
    requires t.Branch? && t.right.Branch?
    ensures Nodes(RotatedLeft(t)) == Nodes(t) && Distinct(RotatedLeft(t)) == Distinct(t)
    ensures InOrder(RotatedLeft(t)) == InOrder(t)
  {
    var Branch(c, a, x, Branch(d, b, y, e)) := t;
    RegroupNodes(c, a, x, d, b, y, e);
    Regroup([y], InOrder(a), [x], InOrder(b), InOrder(e));
  }

  lemma RotatedRightKeeps(t: Tree)
    requires t.Branch? && t.left.Branch?
    ensures Nodes(RotatedRight(t)) == Nodes(t) && Distinct(RotatedRight(t)) == Distinct(t)
    ensures InOrder(RotatedRight(t)) == InOrder(t)
  {
    var Branch(d, Branch(c, a, x, b), y, e) := t;
    RegroupNodes(c, a, x, d, b, y, e);
    Regroup([y], InOrder(a), [x], InOrder(b), InOrder(e));
  }

  lemma RegroupNodes(c: Color, a: Tree, x: Node, d: Color, b: Tree, y: Node, e: Tree)
    ensures Nodes(Branch(c, a, x, Branch(d, b, y, e))) == Nodes(Branch(d, Branch(c, a, x, b), y, e))
    ensures Distinct(Branch(c, a, x, Branch(d, b, y, e))) == Distinct(Branch(d, Branch(c, a, x, b), y, e))
  {
    var t, u := Branch(d, b, y, e), Branch(c, a, x, b);
    assert Nodes(t) == Nodes(b) + {y} + Nodes(e) && Nodes(u) == Nodes(a) + {x} + Nodes(b);
  }

  /** The cells after a left rotation: only those of the two nodes and the parent of the inner subtree differ. */
  ghost function RotatedLeftCell(t: Tree, p: Node?, n: Node): Cell
    requires t.Branch? && t.right.Branch? && n in Nodes(t)
  {
    var x, y, b := t.node, t.right.node, t.right.left;
    if n == x then Cell(y, TopNode(t.left), TopNode(b), t.color)
    else if n == y then Cell(p, x, TopNode(t.right.right), t.right.color)
    else if n == TopNode(b) then CellIn(t, p, n).(parent := x)
    else CellIn(t, p, n)
  }

  ghost function RotatedRightCell(t: Tree, p: Node?, n: Node): Cell
    requires t.Branch? && t.left.Branch? && n in Nodes(t)
  {
    var x, y, b := t.left.node, t.node, t.left.right;
    if n == y then Cell(x, TopNode(b), TopNode(t.right), t.color)
    else if n == x then Cell(p, TopNode(t.left.left), y, t.left.color)
    else if n == TopNode(b) then CellIn(t, p, n).(parent := y)
    else CellIn(t, p, n)
  }

  lemma RotatedLeftHolds(root: Root, ctx: Context, t: Tree)
    requires t.Branch? && t.right.Branch? && Separate(ctx, t) && Surrounds(root, ctx, t.right.node)
    requires forall n :: n in Nodes(t) ==> CellOf(n) == RotatedLeftCell(t, Parent(ctx), n)
    ensures Holds(root, Plug(ctx, RotatedLeft(t)))
  {
    var Branch(c, a, x, Branch(d, b, y, e)) := t;
    RotatedLeftKeeps(t);
    forall n | n in Nodes(t) ensures CellOf(n) == CellIn(RotatedLeft(t), Parent(ctx), n) {
      RotationCells(c, a, x, d, b, y, e, Parent(ctx), n);
    }
    Focus(root, ctx, RotatedLeft(t));
  }

  lemma RotatedRightHolds(root: Root, ctx: Context, t: Tree)
    requires t.Branch? && t.left.Branch? && Separate(ctx, t) && Surrounds(root, ctx, t.left.node)
    requires forall n :: n in Nodes(t) ==> CellOf(n) == RotatedRightCell(t, Parent(ctx), n)
    ensures Holds(root, Plug(ctx, RotatedRight(t)))
  {
    var Branch(d, Branch(c, a, x, b), y, e) := t;
    RotatedRightKeeps(t);
    forall n | n in Nodes(t) ensures CellOf(n) == CellIn(RotatedRight(t), Parent(ctx), n) {
      RotationCells(c, a, x, d, b, y, e, Parent(ctx), n);
    }
    Focus(root, ctx, RotatedRight(t));
  }

  lemma RotationCells(c: Color, a: Tree, x: Node, d: Color, b: Tree, y: Node, e: Tree, p: Node?, n: Node)
    requires var t := Branch(c, a, x, Branch(d, b, y, e)); Distinct(t) && n in Nodes(t)
    ensures var t, u := Branch(c, a, x, Branch(d, b, y, e)), Branch(d, Branch(c, a, x, b), y, e);
            n in Nodes(u) && if n == x || n == y then true
            else if n == TopNode(b) then
              CellIn(t, p, n).(parent := x) == CellIn(u, p, n) && CellIn(u, p, n).(parent := y) == CellIn(t, p, n)
            else CellIn(t, p, n) == CellIn(u, p, n)
    ensures CellIn(Branch(c, a, x, Branch(d, b, y, e)), p, y) == Cell(x, TopNode(b), TopNode(e), d)
    ensures CellIn(Branch(d, Branch(c, a, x, b), y, e), p, x) == Cell(y, TopNode(a), TopNode(b), c)
  {
    RegroupNodes(c, a, x, d, b, y, e);
    var t, u := Branch(d, b, y, e), Branch(c, a, x, b);
    assert Distinct(t) && Distinct(u);
    if n in Nodes(a) {
      assert CellIn(u, y, n) == CellIn(a, x, n);
    } else if n in Nodes(b) {
      assert CellIn(u, y, n) == CellIn(b, x, n);
      assert CellIn(t, x, n) == CellIn(b, y, n);
    } else if n in Nodes(e) {
      assert CellIn(t, x, n) == CellIn(e, y, n);
    }
    assert CellIn(t, x, y) == Cell(x, TopNode(b), TopNode(e), d);
    assert CellIn(u, y, x) == Cell(y, TopNode(a), TopNode(b), c);
  }

  /** The nodes a left rotation writes to, and what they hold before. */
  lemma LeftRotationSite(root: Root, ctx: Context, t: Tree)
    requires Holds(root, Plug(ctx, t)) && t.Branch? && t.right.Branch?
    ensures Nodes(Plug(ctx, t)) == Nodes(t) + ContextNodes(ctx) && HoldsAt(root, ctx, t)
    ensures var x, y, b, p := t.node, t.right.node, TopNode(t.right.left), Parent(ctx);
            {x, y} <= Nodes(t) && x != y && b != x && b != y && (b != null ==> b in Nodes(t)) &&
            CellOf(x) == Cell(p, TopNode(t.left), y, t.color) &&
            CellOf(y) == Cell(x, b, TopNode(t.right.right), t.right.color) &&
            (p != null ==> p in ContextNodes(ctx))
  {
    var Branch(c, a, x, Branch(d, b, y, e)) := t;
    Look(root, ctx, t);
    Look(root, RightOf(c, a, x, ctx), t.right);
    Look(root, LeftOf(d, y, e, RightOf(c, a, x, ctx)), b);
    Focus(root, ctx, t);
  }

  method RotateLeft(node: Node, root: Root)
    requires var y, p := node.right, node.parent;
             y != null && y != node && p != node && p != y &&
             y.left != node && y.left != y && (y.left != null ==> y.left != p)
    modifies root, node, node.right
    modifies if node.right.left == null then {} else {node.right.left}
    modifies if node.parent == null then {} else {node.parent}
    ensures root.rotations == old(root.rotations) + 1
    ensures var x, y, b, p := node, old(node.right), old(node.right.left), old(node.parent);
            CellOf(x) == old(CellOf(x)).(parent := y, right := b) &&
            CellOf(y) == old(CellOf(node.right)).(parent := p, left := x) &&
            (b != null ==> CellOf(b) == old(CellOf(node.right.left)).(parent := x)) &&
            root.node == (if p == null then y else old(root.node)) &&
            (p != null ==> CellOf(p) == if old(node.parent.left) == x then old(CellOf(node.parent)).(left := y)
                                        else old(CellOf(node.parent)).(right := y))
  {
    var right := node.right;
    node.right := right.left;
    if node.right != null {
      right.left.parent := node;
    }
    right.left := node;

    right.parent := node.parent;
    if right.parent != null {
      if node == node.parent.left {
        node.parent.left := right;
      } else {
        node.parent.right := right;
      }
    } else {
      root.node := right;
    }
    node.parent := right;
    root.rotations := root.rotations + 1;
  }

  method RotateLeftAt(node: Node, root: Root, ghost ctx: Context, ghost t: Tree)
    requires Holds(root, Plug(ctx, t)) && t.Branch? && t.node == node && t.right.Branch?
    modifies root, Nodes(Plug(ctx, t))
    ensures Holds(root, Plug(ctx, RotatedLeft(t)))
    ensures SameContents(Plug(ctx, RotatedLeft(t)), Plug(ctx, t))
    ensures root.rotations == old(root.rotations) + 1
  {
    LeftRotationSite(root, ctx, t);
    assert allocated(Nodes(t)) && allocated(ContextNodes(ctx));
    RotateLeft(node, root);
    forall n | n in ContextNodes(ctx) ensures CellOf(n) == ContextCell(ctx, t.right.node, n) {
      if n != Parent(ctx) { assert CellOf(n) == ContextCell(ctx, node, n); }
    }
    RotatedLeftHolds(root, ctx, t);
    RotatedLeftKeeps(t);
    SameOrder(ctx, t, RotatedLeft(t));
  }

  /** The nodes a right rotation writes to, and what they hold before. */
  lemma RightRotationSite(root: Root, ctx: Context, t: Tree)
    requires Holds(root, Plug(ctx, t)) && t.Branch? && t.left.Branch?
    ensures Nodes(Plug(ctx, t)) == Nodes(t) + ContextNodes(ctx) && HoldsAt(root, ctx, t)
    ensures var x, y, b, p := t.node, t.left.node, TopNode(t.left.right), Parent(ctx);
            {x, y} <= Nodes(t) && x != y && b != x && b != y && (b != null ==> b in Nodes(t)) &&
            CellOf(x) == Cell(p, y, TopNode(t.right), t.color) &&
            CellOf(y) == Cell(x, TopNode(t.left.left), b, t.left.color) &&
            (p != null ==> p in ContextNodes(ctx))
  {
    var Branch(d, Branch(c, a, x, b), y, e) := t;
    Look(root, ctx, t);
    Look(root, LeftOf(d, y, e, ctx), t.left);
    Look(root, RightOf(c, a, x, LeftOf(d, y, e, ctx)), b);
    Focus(root, ctx, t);
  }

  method RotateRight(node: Node, root: Root)
    requires var y, p := node.left, node.parent;
             y != null && y != node && p != node && p != y &&
             y.right != node && y.right != y && (y.right != null ==> y.right != p)
    modifies root, node, node.left
    modifies if node.left.right == null then {} else {node.left.right}
    modifies if node.parent == null then {} else {node.parent}
    ensures root.rotations == old(root.rotations) + 1
    ensures var x, y, b, p := node, old(node.left), old(node.left.right), old(node.parent);
            CellOf(x) == old(CellOf(x)).(parent := y, left := b) &&
            CellOf(y) == old(CellOf(node.left)).(parent := p, right := x) &&
            (b != null ==> CellOf(b) == old(CellOf(node.left.right)).(parent := x)) &&
            root.node == (if p == null then y else old(root.node)) &&
            (p != null ==> CellOf(p) == if old(node.parent.right) == x then old(CellOf(node.parent)).(right := y)
                                        else old(CellOf(node.parent)).(left := y))
  {
    var left := node.left;
    node.left := left.right;
    if node.left != null {
      left.right.parent := node;
    }
    left.right := node;

    left.parent := node.parent;
    if left.parent != null {
      if node == node.parent.right {
        node.parent.right := left;
      } else {
        node.parent.left := left;
      }
    } else {
      root.node := left;
    }
    node.parent := left;
    root.rotations := root.rotations + 1;
  }

  method RotateRightAt(node: Node, root: Root, ghost ctx: Context, ghost t: Tree)
    requires Holds(root, Plug(ctx, t)) && t.Branch? && t.node == node && t.left.Branch?
    modifies root, Nodes(Plug(ctx, t))
    ensures Holds(root, Plug(ctx, RotatedRight(t)))
    ensures SameContents(Plug(ctx, RotatedRight(t)), Plug(ctx, t))
    ensures root.rotations == old(root.rotations) + 1
  {
    RightRotationSite(root, ctx, t);
    assert allocated(Nodes(t)) && allocated(ContextNodes(ctx));
    RotateRight(node, root);
    forall n | n in ContextNodes(ctx) ensures CellOf(n) == ContextCell(ctx, t.left.node, n) {
      if n != Parent(ctx) { assert CellOf(n) == ContextCell(ctx, node, n); }
    }
    RotatedRightHolds(root, ctx, t);
    RotatedRightKeeps(t);
    SameOrder(ctx, t, RotatedRight(t));
  }

  // ---------- recoloring ----------

  lemma PaintedCells(t: Tree, color: Color, p: Node?)
    requires t.Branch? && Distinct(t)
    ensures var u := t.(color := color); Nodes(u) == Nodes(t) && Distinct(u) && InOrder(u) == InOrder(t)
    ensures forall n :: n in Nodes(t) ==>
              CellIn(t.(color := color), p, n) == if n == t.node then CellIn(t, p, n).(color := color) else CellIn(t, p, n)
  {
  }

  method Paint(node: Node, color: Color, root: Root, ghost ctx: Context, ghost t: Tree)
    requires Holds(root, Plug(ctx, t)) && t.Branch? && t.node == node
    modifies node`color
    ensures Holds(root, Plug(ctx, t.(color := color)))
    ensures SameContents(Plug(ctx, t.(color := color)), Plug(ctx, t))
  {
    Focus(root, ctx, t);
    PaintedCells(t, color, Parent(ctx));
    node.color := color;
    Assemble(root, ctx, t.(color := color));
    SameOrder(ctx, t, t.(color := color));
  }

  // ---------- linking a leaf ----------

  /** The pointer a new node is linked through: `rb_node **` as the field it points at. */
  datatype Link = RootLink | LeftLink(parent: Node) | RightLink(parent: Node)

  ghost function LinkOf(ctx: Context): Link {
    match ctx
    case Top => RootLink
    case LeftOf(_, n, _, _) => LeftLink(n)
    case RightOf(_, _, n, _) => RightLink(n)
  }

  method LinkNode(node: Node, parent: Node?, link: Link, root: Root, ghost ctx: Context)
    requires Holds(root, Plug(ctx, Leaf)) && node !in ContextNodes(ctx)
    requires parent == Parent(ctx) && link == LinkOf(ctx)
    modifies node, root, ContextNodes(ctx)
    ensures Holds(root, Plug(ctx, Branch(Red, Leaf, node, Leaf)))
    ensures root.rotations == old(root.rotations)
  {
    Look(root, ctx, Leaf);
    Focus(root, ctx, Leaf);
    assert allocated(ContextNodes(ctx));
    node.parent := parent;
    node.color := Red;
    node.left, node.right := null, null;
    match link {
      case RootLink => root.node := node;
      case LeftLink(p) => p.left := node;
      case RightLink(p) => p.right := node;
    }
    ghost var t := Branch(Red, Leaf, node, Leaf);
    assert Nodes(t) == {node};
    forall n | n in ContextNodes(ctx) ensures CellOf(n) == ContextCell(ctx, node, n) {
      if n != parent { assert CellOf(n) == ContextCell(ctx, null, n); }
    }
    Focus(root, ctx, t);
  }

  // ---------- splicing a node out ----------

  /** Puts `child` where `node` hangs. */
  method Splice(node: Node, child: Node?, parent: Node?, root: Root)
    requires parent == node.parent && parent != node && child != node && (child != null ==> child != parent)
    modifies root`node
    modifies if child == null then {} else {child}
    modifies if parent == null then {} else {parent}
    ensures child != null ==> CellOf(child) == old(CellOf(child)).(parent := parent)
    ensures root.node == if parent == null then child else old(root.node)
    ensures parent != null ==> CellOf(parent) == if old(parent.left) == node then old(CellOf(parent)).(left := child)
                                                 else old(CellOf(parent)).(right := child)
  {
    if child != null {
      child.parent := parent;
    }
    if parent != null {
      if parent.left == node {
        parent.left := child;
      } else {
        parent.right := child;
      }
    } else {
      root.node := child;
    }
  }

  /** A node with at most one child, and that child. */
  ghost predicate HasOnlyChild(t: Tree, only: Tree) {
    t.Branch? && ((t.left.Leaf? && only == t.right) || (t.right.Leaf? && only == t.left))
  }

  /** What splicing changes in the cells: the parent of the only child. */
  lemma OnlyChildCell(t: Tree, only: Tree, p: Node?, n: Node)
    requires HasOnlyChild(t, only) && Distinct(t) && n in Nodes(only)
    ensures n in Nodes(t)
    ensures CellIn(only, p, n) == if n == TopNode(only) then CellIn(t, p, n).(parent := p) else CellIn(t, p, n)
  {
    Reparented(only, t.node, p, n);
  }

  lemma SpliceSite(root: Root, ctx: Context, t: Tree, only: Tree)
    requires Holds(root, Plug(ctx, t)) && HasOnlyChild(t, only)
    ensures HoldsAt(root, ctx, t) && Separate(ctx, only)
    ensures Nodes(Plug(ctx, t)) == Nodes(t) + ContextNodes(ctx)
    ensures Nodes(Plug(ctx, only)) == Nodes(only) + ContextNodes(ctx)
    ensures Nodes(t) == Nodes(only) + {t.node} && t.node !in Nodes(only)
    ensures t.node.parent == Parent(ctx) && Parent(ctx) in ContextNodes(ctx) + {null} && TopNode(only) in Nodes(only) + {null}
  {
    Look(root, ctx, t);
    Focus(root, ctx, t);
    PlugNodes(ctx, only);
  }

  method SpliceAt(node: Node, child: Node?, parent: Node?, root: Root, ghost ctx: Context, ghost t: Tree, ghost only: Tree)
    requires Holds(root, Plug(ctx, t)) && HasOnlyChild(t, only) && t.node == node
    requires child == TopNode(only) && parent == Parent(ctx)
    modifies root`node, Nodes(Plug(ctx, t)) - {node}
    ensures Holds(root, Plug(ctx, only))
    ensures node !in Nodes(Plug(ctx, only)) && Nodes(Plug(ctx, t)) == Nodes(Plug(ctx, only)) + {node}
  {
    SpliceSite(root, ctx, t, only);
    assert allocated(Nodes(t)) && allocated(ContextNodes(ctx));
    Splice(node, child, parent, root);
    forall n | n in ContextNodes(ctx) ensures CellOf(n) == ContextCell(ctx, child, n) {
      if n != parent { assert CellOf(n) == ContextCell(ctx, node, n); }
    }
    forall n | n in Nodes(only) ensures CellOf(n) == CellIn(only, parent, n) {
      OnlyChildCell(t, only, parent, n);
    }
    Assemble(root, ctx, only);
  }

  // ---------- putting another node in the place of one ----------

  /** The cells after another node has replaced the topmost one: only the parents of its children differ. */
  lemma ReplacedHolds(root: Root, ctx: Context, t: Tree, node: Node)
    requires t.Branch? && Separate(ctx, t) && node !in Nodes(t) + ContextNodes(ctx) && Surrounds(root, ctx, node)
    requires CellOf(node) == Cell(Parent(ctx), TopNode(t.left), TopNode(t.right), t.color)
    requires forall n :: n in Nodes(t) && n != t.node ==>
               CellOf(n) == if n == TopNode(t.left) || n == TopNode(t.right) then CellIn(t, Parent(ctx), n).(parent := node)
                            else CellIn(t, Parent(ctx), n)
    ensures Holds(root, Plug(ctx, t.(node := node)))
  {
    var u := t.(node := node);
    forall n | n in Nodes(u) ensures CellOf(n) == CellIn(u, Parent(ctx), n) {
      if n in Nodes(t.left) { Reparented(t.left, t.node, node, n); }
      if n in Nodes(t.right) { Reparented(t.right, t.node, node, n); }
    }
    Assemble(root, ctx, u);
  }

  lemma ReplaceSite(root: Root, ctx: Context, t: Tree, node: Node)
    requires Holds(root, Plug(ctx, t)) && t.Branch? && node !in Nodes(Plug(ctx, t))
    ensures HoldsAt(root, ctx, t) && Nodes(Plug(ctx, t)) == Nodes(t) + ContextNodes(ctx) && t.node in Nodes(t)
    ensures CellOf(t.node) == Cell(Parent(ctx), TopNode(t.left), TopNode(t.right), t.color)
    ensures var l, r := TopNode(t.left), TopNode(t.right);
            {l, r} <= Nodes(t) - {t.node} + {null} && (l != null ==> l != r) && Parent(ctx) in ContextNodes(ctx) + {null}
    ensures Nodes(Plug(ctx, t.(node := node))) == Nodes(Plug(ctx, t)) - {t.node} + {node}
  {
    Look(root, ctx, t);
    Focus(root, ctx, t);
    PlugNodes(ctx, t.(node := node));
    assert Nodes(t.(node := node)) == Nodes(t) - {t.node} + {node};
  }

  /** The surgery of `rb_replace_node`. */
  method Replace(victim: Node, node: Node, root: Root)
    requires var l, r, p := victim.left, victim.right, victim.parent;
             node != victim && node != l && node != r && node != p && victim != l && victim != r && victim != p &&
             (l != null ==> l != r && l != p) && (r != null ==> r != p)
    modifies root`node, node
    modifies if victim.left == null then {} else {victim.left}
    modifies if victim.right == null then {} else {victim.right}
    modifies if victim.parent == null then {} else {victim.parent}
    ensures var l, r, p := old(victim.left), old(victim.right), old(victim.parent);
            CellOf(node) == old(CellOf(victim)) &&
            (l != null ==> CellOf(l) == old(CellOf(victim.left)).(parent := node)) &&
            (r != null ==> CellOf(r) == old(CellOf(victim.right)).(parent := node)) &&
            root.node == (if p == null then node else old(root.node)) &&
            (p != null ==> CellOf(p) == if old(victim.parent.left) == victim then old(CellOf(victim.parent)).(left := node)
                                        else old(CellOf(victim.parent)).(right := node))
  {
    var parent := victim.parent;

    if parent != null {
      if victim == parent.left {
        parent.left := node;
      } else {
        parent.right := node;
      }
    } else {
      root.node := node;
    }
    if victim.left != null {
      victim.left.parent := node;
    }
    if victim.right != null {
      victim.right.parent := node;
    }

    node.parent, node.right, node.left, node.color := victim.parent, victim.right, victim.left, victim.color;
  }

  method ReplaceAt(victim: Node, node: Node, root: Root, ghost ctx: Context, ghost t: Tree)
    requires Holds(root, Plug(ctx, t)) && t.Branch? && t.node == victim && node !in Nodes(Plug(ctx, t))
    modifies root`node, node, Nodes(Plug(ctx, t)) - {victim}
    ensures Holds(root, Plug(ctx, t.(node := node)))
    ensures Nodes(Plug(ctx, t.(node := node))) == Nodes(Plug(ctx, t)) - {victim} + {node}
  {
    ReplaceSite(root, ctx, t, node);
    assert allocated(Nodes(t)) && allocated(ContextNodes(ctx));
    Replace(victim, node, root);
    forall n | n in ContextNodes(ctx) ensures CellOf(n) == ContextCell(ctx, node, n) {
      if n != Parent(ctx) { assert CellOf(n) == ContextCell(ctx, victim, n); }
    }
    ReplacedHolds(root, ctx, t, node);
  }

  /** The surgery by which `rb_erase` puts the successor in the place of the erased node. */
  method TakeOver(victim: Node, node: Node, root: Root)
    requires victim.left != null
    requires var l, r, p := victim.left, victim.right, victim.parent;
             node != victim && node != l && node != r && node != p && victim != l && victim != r && victim != p &&
             (l != null ==> l != r && l != p) && (r != null ==> r != p)
    modifies root`node, node
    modifies if victim.left == null then {} else {victim.left}
    modifies if victim.right == null then {} else {victim.right}
    modifies if victim.parent == null then {} else {victim.parent}
    ensures var l, r, p := old(victim.left), old(victim.right), old(victim.parent);
            CellOf(node) == old(CellOf(victim)) &&
            (l != null ==> CellOf(l) == old(CellOf(victim.left)).(parent := node)) &&
            (r != null ==> CellOf(r) == old(CellOf(victim.right)).(parent := node)) &&
            root.node == (if p == null then node else old(root.node)) &&
            (p != null ==> CellOf(p) == if old(victim.parent.left) == victim then old(CellOf(victim.parent)).(left := node)
                                        else old(CellOf(victim.parent)).(right := node))
  {
    node.parent := victim.parent;
    node.color := victim.color;
    node.right := victim.right;
    node.left := victim.left;

    if victim.parent != null {
      if victim.parent.left == victim {
        victim.parent.left := node;
      } else {
        victim.parent.right := node;
      }
    } else {
      root.node := node;
    }

    victim.left.parent := node;
    if victim.right != null {
      victim.right.parent := node;
    }
  }

  method TakeOverAt(victim: Node, node: Node, root: Root, ghost ctx: Context, ghost t: Tree)
    requires Holds(root, Plug(ctx, t)) && t.Branch? && t.node == victim && node !in Nodes(Plug(ctx, t)) && t.left.Branch?
    modifies root`node, node, Nodes(Plug(ctx, t)) - {victim}
    ensures Holds(root, Plug(ctx, t.(node := node)))
    ensures Nodes(Plug(ctx, t.(node := node))) == Nodes(Plug(ctx, t)) - {victim} + {node}
  {
    ReplaceSite(root, ctx, t, node);
    assert allocated(Nodes(t)) && allocated(ContextNodes(ctx));
    TakeOver(victim, node, root);
    forall n | n in ContextNodes(ctx) ensures CellOf(n) == ContextCell(ctx, node, n) {
      if n != Parent(ctx) { assert CellOf(n) == ContextCell(ctx, victim, n); }
    }
    ReplacedHolds(root, ctx, t, node);
  }
}
