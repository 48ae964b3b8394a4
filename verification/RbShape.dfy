/**
 The shapes an intrusive red-black tree can have: trees of nodes, and trees with one hole.

 A `Tree` is the value that the linked nodes stand for. A `Context` is a tree with a hole, written
 inside out, so that the frame around the hole comes first. The fix-up loops climb from a node
 towards the root; the context is what lies above the node they are looking at.
 */
module RbShape {

  datatype Color = Red | Black

  /** An intrusive node together with the key of the entry that embeds it. */
  class Node {
    const offset: nat
    var parent: Node?
    var right: Node?
    var left: Node?
    var color: Color

    constructor (offset: nat)
      ensures this.offset == offset
    {
      this.offset := offset;
      parent, left, right, color := null, null, null, Red;
    }
  }

  datatype Tree = Leaf | Branch(color: Color, left: Tree, node: Node, right: Tree)

  datatype Context =
    | Top
    | LeftOf(color: Color, node: Node, right: Tree, up: Context)
    | RightOf(color: Color, left: Tree, node: Node, up: Context)

  ghost function TopNode(t: Tree): Node? {
    if t.Leaf? then null else t.node
  }

  ghost function Parent(ctx: Context): Node? {
    if ctx.Top? then null else ctx.node
  }

  ghost function Nodes(t: Tree): set<Node> {
    match t
    case Leaf => {}
    case Branch(_, l, n, r) => Nodes(l) + {n} + Nodes(r)
  }

  ghost function ContextNodes(ctx: Context): set<Node> {
    match ctx
    case Top => {}
    case LeftOf(_, n, r, up) => {n} + Nodes(r) + ContextNodes(up)
    case RightOf(_, l, n, up) => Nodes(l) + {n} + ContextNodes(up)
  }

  /** No node occurs twice. */
  ghost predicate Distinct(t: Tree) {
    match t
    case Leaf => true
    case Branch(_, l, n, r) =>
      Distinct(l) && Distinct(r) && n !in Nodes(l) && n !in Nodes(r) && Nodes(l) !! Nodes(r)
  }

  ghost predicate ContextDistinct(ctx: Context) {
    match ctx
    case Top => true
    case LeftOf(_, n, r, up) =>
      ContextDistinct(up) && Distinct(r) && n !in Nodes(r) && n !in ContextNodes(up) && Nodes(r) !! ContextNodes(up)
    case RightOf(_, l, n, up) =>
      ContextDistinct(up) && Distinct(l) && n !in Nodes(l) && n !in ContextNodes(up) && Nodes(l) !! ContextNodes(up)
  }

  /** The tree and the context share no node and neither repeats one. */
  ghost predicate Separate(ctx: Context, t: Tree) {
    Distinct(t) && ContextDistinct(ctx) && Nodes(t) !! ContextNodes(ctx)
  }

  // ---------- filling the hole ----------

  ghost function Plug(ctx: Context, t: Tree): Tree
    decreases ctx
  {
    match ctx
    case Top => t
    case LeftOf(c, n, r, up) => Plug(up, Branch(c, t, n, r))
    case RightOf(c, l, n, up) => Plug(up, Branch(c, l, n, t))
  }

  /** The innermost frame alone, filled. */
  ghost function Wrap(ctx: Context, t: Tree): Tree
    requires !ctx.Top?
    ensures Plug(ctx, t) == Plug(ctx.up, Wrap(ctx, t))
  {
    match ctx
    case LeftOf(c, n, r, _) => Branch(c, t, n, r)
    case RightOf(c, l, n, _) => Branch(c, l, n, t)
  }

  /** The context whose hole is the hole of `inner`, when `inner` itself fills the hole of `outer`. */
  ghost function Within(inner: Context, outer: Context): Context
    decreases inner
  {
    match inner
    case Top => outer
    case LeftOf(c, n, r, up) => LeftOf(c, n, r, Within(up, outer))
    case RightOf(c, l, n, up) => RightOf(c, l, n, Within(up, outer))
  }

  ghost function Depth(ctx: Context): nat {
    if ctx.Top? then 0 else 1 + Depth(ctx.up)
  }

  lemma {:induction false} PlugWithin(inner: Context, outer: Context, t: Tree)
    ensures Plug(Within(inner, outer), t) == Plug(outer, Plug(inner, t))
    decreases inner
  {
    match inner
    case Top =>
    case LeftOf(c, n, r, up) => PlugWithin(up, outer, Branch(c, t, n, r));
    case RightOf(c, l, n, up) => PlugWithin(up, outer, Branch(c, l, n, t));
  }

  // ---------- sort order ----------

  ghost function InOrder(t: Tree): seq<Node> {
    match t
    case Leaf => []
    case Branch(_, l, n, r) => InOrder(l) + [n] + InOrder(r)
  }

  /** What precedes the hole in sort order. */
  ghost function Before(ctx: Context): seq<Node> {
    match ctx
    case Top => []
    case LeftOf(_, _, _, up) => Before(up)
    case RightOf(_, l, n, up) => Before(up) + InOrder(l) + [n]
  }

  /** What follows the hole in sort order. */
  ghost function After(ctx: Context): seq<Node> {
    match ctx
    case Top => []
    case LeftOf(_, n, r, up) => [n] + InOrder(r) + After(up)
    case RightOf(_, _, _, up) => After(up)
  }

  lemma {:induction false} PlugInOrder(ctx: Context, t: Tree)
    ensures InOrder(Plug(ctx, t)) == Before(ctx) + InOrder(t) + After(ctx)
    decreases ctx
  {
    match ctx
    case Top =>
    case LeftOf(c, n, r, up) =>
      PlugInOrder(up, Branch(c, t, n, r));
      Regroup(Before(up), InOrder(t), [n], InOrder(r), After(up));
    case RightOf(c, l, n, up) =>
      PlugInOrder(up, Branch(c, l, n, t));
      Regroup(Before(up), InOrder(l), [n], InOrder(t), After(up));
  }

  lemma Regroup(a: seq<Node>, b: seq<Node>, c: seq<Node>, d: seq<Node>, e: seq<Node>)
    ensures a + (b + c + d) + e == a + b + (c + d + e)
    ensures a + (b + c + d) + e == (a + b + c) + d + e
    ensures b + c + (d + a + e) == (b + c + d) + a + e
  {
  }

  lemma Halves(a: seq<Node>, l: seq<Node>, n: Node, r: seq<Node>, b: seq<Node>)
    ensures a + (l + [n] + r) + b == (a + l) + [n] + (r + b)
    ensures a + (l + r) + b == (a + l) + (r + b)
  {
  }

  lemma {:induction false} InOrderNodes(t: Tree, n: Node)
    ensures n in Nodes(t) <==> n in InOrder(t)
  {
    match t
    case Leaf =>
    case Branch(_, l, m, r) =>
      InOrderNodes(l, n);
      InOrderNodes(r, n);
  }

  ghost predicate SameContents(t: Tree, u: Tree) {
    InOrder(t) == InOrder(u) && Nodes(t) == Nodes(u)
  }

  /** Subtrees with the same in-order sequence are interchangeable as far as order and nodes go. */
  lemma SameOrder(ctx: Context, t: Tree, u: Tree)
    requires InOrder(t) == InOrder(u)
    ensures SameContents(Plug(ctx, t), Plug(ctx, u))
  {
    PlugInOrder(ctx, t);
    PlugInOrder(ctx, u);
    forall n | n in Nodes(Plug(ctx, t)) + Nodes(Plug(ctx, u))
      ensures n in Nodes(Plug(ctx, t)) <==> n in Nodes(Plug(ctx, u))
    {
      InOrderNodes(Plug(ctx, t), n);
      InOrderNodes(Plug(ctx, u), n);
    }
  }

  /** Distinct nodes give an in-order sequence without repetition. */
  lemma {:induction false} InOrderInjective(t: Tree, i: nat, j: nat)
    requires Distinct(t) && i < j < |InOrder(t)|
    ensures InOrder(t)[i] != InOrder(t)[j]
  {
    var Branch(_, l, n, r) := t;
    var k := |InOrder(l)|;
    if i < k { InOrderNodes(l, InOrder(t)[i]); assert InOrder(t)[i] in InOrder(l); }
    if j > k { InOrderNodes(r, InOrder(t)[j]); assert InOrder(t)[j] == InOrder(r)[j - k - 1]; }
    if j < k {
      InOrderInjective(l, i, j);
    } else if i > k {
      assert InOrder(t)[i] == InOrder(r)[i - k - 1];
      InOrderInjective(r, i - k - 1, j - k - 1);
    }
  }

  lemma {:induction false} PlugNodes(ctx: Context, t: Tree)
    ensures Nodes(Plug(ctx, t)) == Nodes(t) + ContextNodes(ctx)
    ensures Distinct(Plug(ctx, t)) <==> Separate(ctx, t)
    decreases ctx
  {
    match ctx
    case Top =>
    case LeftOf(c, n, r, up) => PlugNodes(up, Branch(c, t, n, r));
    case RightOf(c, l, n, up) => PlugNodes(up, Branch(c, l, n, t));
  }

  /** Every node of a tree is the top of some subtree, reached through some context. */
  ghost function Locate(ctx: Context, t: Tree, n: Node): (place: (Context, Tree))
    requires n in Nodes(t)
    ensures place.1.Branch? && place.1.node == n
    ensures Plug(place.0, place.1) == Plug(ctx, t)
    decreases t
  {
    var Branch(c, l, m, r) := t;
    if n == m then (ctx, t)
    else if n in Nodes(l) then Locate(LeftOf(c, m, r, ctx), l, n)
    else Locate(RightOf(c, l, m, ctx), r, n)
  }

  // ---------- red-black invariants ----------

  ghost predicate IsBlack(t: Tree) {
    t.Leaf? || t.color == Black
  }

  ghost function Weight(c: Color): nat {
    if c == Black then 1 else 0
  }

  /** Black nodes on the leftmost path; on every path, when the tree is balanced. */
  ghost function BlackHeight(t: Tree): nat {
    if t.Leaf? then 0 else BlackHeight(t.left) + Weight(t.color)
  }

  /** No red node has a red child, and both sides of every node count the same black nodes. */
  ghost predicate Balanced(t: Tree) {
    match t
    case Leaf => true
    case Branch(c, l, _, r) =>
      Balanced(l) && Balanced(r) && BlackHeight(l) == BlackHeight(r) && (c == Red ==> IsBlack(l) && IsBlack(r))
  }

  ghost predicate RedBlack(t: Tree) {
    Balanced(t) && IsBlack(t)
  }

  /** A context that becomes a red-black tree when a black-topped balanced tree of black height `h` fills it. */
  ghost predicate BalancedAround(ctx: Context, h: nat)
    decreases ctx
  {
    match ctx
    case Top => true
    case LeftOf(c, _, r, up) =>
      Balanced(r) && BlackHeight(r) == h && BalancedAround(up, h + Weight(c)) &&
      (c == Red ==> IsBlack(r) && !up.Top? && up.color == Black)
    case RightOf(c, l, _, up) =>
      Balanced(l) && BlackHeight(l) == h && BalancedAround(up, h + Weight(c)) &&
      (c == Red ==> IsBlack(l) && !up.Top? && up.color == Black)
  }

  /** The frame around the hole allows a red node in it. */
  ghost predicate AllowsRed(ctx: Context) {
    !ctx.Top? && ctx.color == Black
  }

  /** Both directions: a filled context is a red-black tree exactly when both parts are fit for each other. */
  lemma {:induction false} PlugRedBlack(ctx: Context, t: Tree)
    ensures RedBlack(Plug(ctx, t)) <==>
            Balanced(t) && BalancedAround(ctx, BlackHeight(t)) && (IsBlack(t) || AllowsRed(ctx))
    decreases ctx
  {
    match ctx
    case Top =>
    case LeftOf(c, n, r, up) => PlugRedBlack(up, Branch(c, t, n, r));
    case RightOf(c, l, n, up) => PlugRedBlack(up, Branch(c, l, n, t));
  }

  // ---------- height ----------

  ghost function Height(t: Tree): nat {
    if t.Leaf? then 0
    else 1 + if Height(t.left) > Height(t.right) then Height(t.left) else Height(t.right)
  }

  ghost function Size(t: Tree): nat {
    if t.Leaf? then 0 else Size(t.left) + 1 + Size(t.right)
  }

  ghost function Pow2(n: nat): nat {
    if n == 0 then 1 else 2 * Pow2(n - 1)
  }

  lemma {:induction false} SizeOfBalanced(t: Tree)
    requires Balanced(t)
    ensures Pow2(BlackHeight(t)) <= Size(t) + 1
    ensures Height(t) <= 2 * BlackHeight(t) + (if IsBlack(t) then 0 else 1)
  {
    if t.Branch? {
      SizeOfBalanced(t.left);
      SizeOfBalanced(t.right);
    }
  }

  lemma {:induction false} Pow2Monotonic(a: nat, b: nat)
    requires a <= b
    ensures Pow2(a) <= Pow2(b)
    decreases b
  {
    if a < b { Pow2Monotonic(a, b - 1); }
  }

  lemma {:induction false} Pow2Double(n: nat)
    ensures Pow2(2 * n) == Pow2(n) * Pow2(n)
  {
    if n > 0 {
      Pow2Double(n - 1);
      assert Pow2(2 * n) == 2 * (2 * Pow2(2 * n - 2));
      var p := Pow2(n - 1);
      assert (2 * p) * (2 * p) == 4 * (p * p);
    }
  }

  lemma SquareMonotonic(a: nat, b: nat)
    requires a <= b
    ensures a * a <= b * b
  {
    assert b * b == a * a + (b - a) * (b + a);
  }

  /** The height of a red-black tree of n nodes is at most 2 log2 (n + 1). */
  lemma HeightBound(t: Tree)
    requires RedBlack(t)
    ensures Pow2(Height(t)) <= (Size(t) + 1) * (Size(t) + 1)
  {
    SizeOfBalanced(t);
    Pow2Monotonic(Height(t), 2 * BlackHeight(t));
    Pow2Double(BlackHeight(t));
    SquareMonotonic(Pow2(BlackHeight(t)), Size(t) + 1);
  }

  /** The in-order sequence has one element per node. */
  lemma {:induction false} SizeIsLength(t: Tree)
    ensures Size(t) == |InOrder(t)|
  {
    if t.Branch? {
      SizeIsLength(t.left);
      SizeIsLength(t.right);
    }
  }
}
