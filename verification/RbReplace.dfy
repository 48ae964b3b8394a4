/** `rb_replace_node`: another node takes the place of one, without rebalancing. */
module RbReplace {
  import opened RbShape
  import opened RbLinks
  import opened RbSteps

  /** The same shape and colors with the node `m` in the place of the node `n`. */
  ghost function Substituted(t: Tree, n: Node, m: Node): Tree {
    match t
    case Leaf => Leaf
    case Branch(c, l, x, r) => Branch(c, Substituted(l, n, m), if x == n then m else x, Substituted(r, n, m))
  }

  lemma {:induction false} SubstitutedElsewhere(t: Tree, n: Node, m: Node)
    requires n !in Nodes(t)
    ensures Substituted(t, n, m) == t
  {
    if t.Branch? {
      SubstitutedElsewhere(t.left, n, m);
      SubstitutedElsewhere(t.right, n, m);
    }
  }

  lemma {:induction false} SubstitutedInside(ctx: Context, t: Tree, n: Node, m: Node)
    requires n !in ContextNodes(ctx)
    ensures Substituted(Plug(ctx, t), n, m) == Plug(ctx, Substituted(t, n, m))
    decreases ctx
  {
    match ctx
    case Top =>
    case LeftOf(c, x, r, up) =>
      SubstitutedElsewhere(r, n, m);
      SubstitutedInside(up, Branch(c, t, x, r), n, m);
    case RightOf(c, l, x, up) =>
      SubstitutedElsewhere(l, n, m);
      SubstitutedInside(up, Branch(c, l, x, t), n, m);
  }

  /** Replacement keeps every red-black invariant and changes one element of the in-order sequence. */
  lemma {:induction false} SubstitutedKeeps(t: Tree, n: Node, m: Node)
    ensures var u := Substituted(t, n, m);
            BlackHeight(u) == BlackHeight(t) && IsBlack(u) == IsBlack(t) && Balanced(u) == Balanced(t) &&
            |InOrder(u)| == |InOrder(t)|
    ensures forall i :: 0 <= i < |InOrder(t)| ==>
              InOrder(Substituted(t, n, m))[i] == if InOrder(t)[i] == n then m else InOrder(t)[i]
  {
    if t.Branch? {
      SubstitutedKeeps(t.left, n, m);
      SubstitutedKeeps(t.right, n, m);
    }
  }

  method ReplaceNode(victim: Node, node: Node, root: Root, ghost tree: Tree) returns (ghost tree': Tree)
    requires Holds(root, tree) && victim in Nodes(tree) && node !in Nodes(tree)
    modifies root`node, node, Nodes(tree) - {victim}
    ensures tree' == Substituted(tree, victim, node) && Holds(root, tree')
    ensures RedBlack(tree) ==> RedBlack(tree')
    ensures forall i :: 0 <= i < |InOrder(tree)| ==>
              i < |InOrder(tree')| == |InOrder(tree)| &&
              InOrder(tree')[i] == if InOrder(tree)[i] == victim then node else InOrder(tree)[i]
    ensures Nodes(tree') == Nodes(tree) - {victim} + {node}
  {
    ghost var (ctx, t) := Locate(Top, tree, victim);
    PlugNodes(ctx, t);
    SubstitutedInside(ctx, t, victim, node);
    SubstitutedElsewhere(t.left, victim, node);
    SubstitutedElsewhere(t.right, victim, node);
    SubstitutedKeeps(tree, victim, node);
    ReplaceAt(victim, node, root, ctx, t);
    tree' := Plug(ctx, t.(node := node));
  }
}
