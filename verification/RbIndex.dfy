/**
 The search and insert cores that users of the tree write themselves, as its header documents them,
 combined with the library: an index of nodes by their offset.
 */
module RbIndex {
  import opened RbShape
  import opened RbLinks
  import opened RbSteps
  import opened RbInsert
  import opened RbErase

  ghost predicate Sorted(s: seq<Node>) {
    forall i, j :: 0 <= i < j < |s| ==> s[i].offset < s[j].offset
  }

  /** The finite map that a sorted sequence of nodes stands for. */
  ghost function Entries(s: seq<Node>): map<nat, Node>
    requires Sorted(s)
  {
    map n | n in s :: n.offset := n
  }

  lemma SortedInserted(a: seq<Node>, n: Node, b: seq<Node>)
    requires Sorted(a + b)
    requires forall x :: x in a ==> x.offset < n.offset
    requires forall x :: x in b ==> n.offset < x.offset
    ensures Sorted(a + [n] + b)
  {
    var s, t := a + b, a + [n] + b;
    forall i, j | 0 <= i < j < |t| ensures t[i].offset < t[j].offset {
      var i', j' := if i <= |a| then i else i - 1, if j <= |a| then j else j - 1;
      if i != |a| { assert t[i] == s[i']; }
      if j != |a| { assert t[j] == s[j']; }
      if i < |a| { assert t[i] in a; }
      if j > |a| { assert t[j] == b[j - |a| - 1]; }
    }
  }

  lemma EntriesInserted(a: seq<Node>, n: Node, b: seq<Node>)
    requires Sorted(a + b)
    requires forall x :: x in a ==> x.offset < n.offset
    requires forall x :: x in b ==> n.offset < x.offset
    ensures Sorted(a + [n] + b) && n.offset !in Entries(a + b) && Entries(a + [n] + b) == Entries(a + b)[n.offset := n]
  {
    SortedInserted(a, n, b);
    hide Sorted;
    assert forall x :: x in a + [n] + b <==> x in a + b || x == n;
  }

  ghost predicate Below(s: seq<Node>, k: int) {
    forall x :: x in s ==> x.offset < k
  }

  ghost predicate Above(s: seq<Node>, k: int) {
    forall x :: x in s ==> k < x.offset
  }

  lemma SortedAround(a: seq<Node>, n: Node, b: seq<Node>)
    requires Sorted(a + [n] + b)
    ensures Below(a, n.offset) && Above(b, n.offset)
  {
    var s := a + [n] + b;
    forall x | x in a ensures x.offset < n.offset {
      var i :| 0 <= i < |a| && a[i] == x;
      assert s[i] == x && s[|a|] == n;
    }
    forall x | x in b ensures n.offset < x.offset {
      var i :| 0 <= i < |b| && b[i] == x;
      assert s[|a| + 1 + i] == x && s[|a|] == n;
    }
  }

  /** The nodes on either side of the topmost one in sort order. */
  lemma SplitsOrder(ctx: Context, t: Tree)
    requires t.Branch? && Sorted(InOrder(Plug(ctx, t)))
    ensures Below(Before(ctx) + InOrder(t.left), t.node.offset)
    ensures Above(InOrder(t.right) + After(ctx), t.node.offset)
  {
    PlugInOrder(ctx, t);
    Halves(Before(ctx), InOrder(t.left), t.node, InOrder(t.right), After(ctx));
    SortedAround(Before(ctx) + InOrder(t.left), t.node, InOrder(t.right) + After(ctx));
  }

  lemma SortedWithout(a: seq<Node>, n: Node, b: seq<Node>)
    requires Sorted(a + [n] + b)
    ensures Sorted(a + b)
  {
    var s, t := a + b, a + [n] + b;
    forall i, j | 0 <= i < j < |s| ensures s[i].offset < s[j].offset {
      var i', j' := if i < |a| then i else i + 1, if j < |a| then j else j + 1;
      assert s[i] == t[i'] && s[j] == t[j'];
    }
  }

  lemma EntriesOfFewer(s: seq<Node>, t: seq<Node>, k: nat)
    requires Sorted(s) && Sorted(t)
    requires forall x :: x in s <==> x in t && x.offset != k
    ensures Entries(s) == Entries(t) - {k}
  {
  }

  lemma EntriesRemoved(a: seq<Node>, n: Node, b: seq<Node>)
    requires Sorted(a + [n] + b) && Sorted(a + b)
    ensures Entries(a + b) == Entries(a + [n] + b) - {n.offset}
  {
    SortedAround(a, n, b);
    forall x ensures x in a + b <==> x in a + [n] + b && x.offset != n.offset {
      if x in a { assert x.offset < n.offset; }
      if x in b { assert n.offset < x.offset; }
      assert x in a + [n] + b <==> x in a || x == n || x in b;
    }
    EntriesOfFewer(a + b, a + [n] + b, n.offset);
  }

  lemma EntriesWithout(s: seq<Node>, n: Node)
    requires Sorted(s) && n in s
    ensures Sorted(Without(s, n)) && Entries(Without(s, n)) == Entries(s) - {n.offset}
  {
    var i :| 0 <= i < |s| && s[i] == n;
    assert s == s[..i] + [n] + s[i + 1..];
    SortedWithout(s[..i], n, s[i + 1..]);
    EntriesRemoved(s[..i], n, s[i + 1..]);
    SortedAround(s[..i], n, s[i + 1..]);
    WithoutMiddle(s[..i], n, s[i + 1..]);
  }

  // ---------- the index ----------

  ghost predicate Valid(root: Root, tree: Tree)
    reads root, Nodes(tree)
  {
    Holds(root, tree) && RedBlack(tree) && Sorted(InOrder(tree))
  }

  lemma FoundEntry(tree: Tree, n: Node)
    requires Sorted(InOrder(tree)) && n in Nodes(tree)
    ensures n.offset in Entries(InOrder(tree)) && Entries(InOrder(tree))[n.offset] == n
  {
    InOrderNodes(tree, n);
  }

  /** An empty slot in sort position: there is no such entry. */
  lemma NoEntry(ctx: Context, offset: nat)
    requires Sorted(InOrder(Plug(ctx, Leaf))) && Below(Before(ctx), offset) && Above(After(ctx), offset)
    ensures offset !in Entries(InOrder(Plug(ctx, Leaf)))
  {
    LeafOrder(ctx);
  }

  /** The search core. */
  method Search(offset: nat, root: Root, ghost tree: Tree) returns (n: Node?)
    requires Valid(root, tree)
    ensures Valid(root, tree)
    ensures if offset in Entries(InOrder(tree)) then n == Entries(InOrder(tree))[offset] else n == null
  {
    hide Entries;
    n := root.node;
    ghost var ctx, t := Top, tree;
    while n != null
      invariant Valid(root, tree) && Plug(ctx, t) == tree && n == TopNode(t)
      invariant Below(Before(ctx), offset) && Above(After(ctx), offset)
      decreases t
    {
      Links(root, ctx, t);
      SplitsOrder(ctx, t);
      if offset < n.offset {
        n := n.left;
        ctx, t := LeftOf(t.color, t.node, t.right, ctx), t.left;
      } else if offset > n.offset {
        n := n.right;
        ctx, t := RightOf(t.color, t.left, t.node, ctx), t.right;
      } else {
        FoundEntry(tree, n);
        return n;
      }
    }
    NoEntry(ctx, offset);
  }

  function Deref(link: Link, root: Root): Node?
    reads root, if link.RootLink? then {} else {link.parent}
  {
    match link
    case RootLink => root.node
    case LeftLink(p) => p.left
    case RightLink(p) => p.right
  }

  /** The descent of the insert core: the entry in the way, or the free slot in sort position. */
  method FindSlot(offset: nat, root: Root, ghost tree: Tree)
    returns (existing: Node?, parent: Node?, link: Link, ghost ctx: Context)
    requires Valid(root, tree)
    ensures Valid(root, tree)
    ensures existing != null ==> offset in Entries(InOrder(tree)) && existing == Entries(InOrder(tree))[offset]
    ensures existing == null ==> Plug(ctx, Leaf) == tree && parent == Parent(ctx) && link == LinkOf(ctx) &&
                                 Below(Before(ctx), offset) && Above(After(ctx), offset)
  {
    hide Entries;
    existing, parent, link := null, null, RootLink;
    ghost var t;
    ctx, t := Top, tree;
    var n := Deref(link, root);
    while n != null
      invariant Valid(root, tree) && Plug(ctx, t) == tree && n == TopNode(t) && parent == Parent(ctx) && link == LinkOf(ctx)
      invariant Below(Before(ctx), offset) && Above(After(ctx), offset)
      decreases t
    {
      parent := n;
      Links(root, ctx, t);
      SplitsOrder(ctx, t);
      if offset < parent.offset {
        link := LeftLink(parent);
        ctx, t := LeftOf(t.color, t.node, t.right, ctx), t.left;
      } else if offset > parent.offset {
        link := RightLink(parent);
        ctx, t := RightOf(t.color, t.left, t.node, ctx), t.right;
      } else {
        FoundEntry(tree, n);
        existing := parent;
        return;
      }
      n := Deref(link, root);
    }
  }

  /** A free slot in sort position takes the node. */
  lemma SlotFits(ctx: Context, node: Node)
    requires RedBlack(Plug(ctx, Leaf)) && Sorted(InOrder(Plug(ctx, Leaf)))
    requires Below(Before(ctx), node.offset) && Above(After(ctx), node.offset)
    ensures BalancedAround(ctx, 0) && Nodes(Plug(ctx, Leaf)) == ContextNodes(ctx) && node !in ContextNodes(ctx)
    ensures Nodes(Plug(ctx, RedLeaf(node))) == ContextNodes(ctx) + {node}
    ensures var s := Before(ctx) + [node] + After(ctx);
            Sorted(s) && node.offset !in Entries(InOrder(Plug(ctx, Leaf))) &&
            Entries(s) == Entries(InOrder(Plug(ctx, Leaf)))[node.offset := node]
  {
    hide Entries;
    PlugNodes(ctx, Leaf);
    PlugNodes(ctx, RedLeaf(node));
    PlugRedBlack(ctx, Leaf);
    LeafOrder(ctx);
    EntriesInserted(Before(ctx), node, After(ctx));
    InOrderNodes(Plug(ctx, Leaf), node);
  }

  lemma LeafOrder(ctx: Context)
    ensures InOrder(Plug(ctx, Leaf)) == Before(ctx) + After(ctx)
  {
    PlugInOrder(ctx, Leaf);
    assert Before(ctx) + [] + After(ctx) == Before(ctx) + After(ctx);
  }

  /** The insert core followed by the fix-up: an entry with the same offset stops it, and nothing changes. */
  method Insert(node: Node, root: Root, ghost tree: Tree) returns (existing: Node?, ghost tree': Tree)
    requires Valid(root, tree)
    modifies node, root, Nodes(tree)
    ensures Valid(root, tree')
    ensures if node.offset in Entries(InOrder(tree)) then
              existing == Entries(InOrder(tree))[node.offset] && tree' == tree && CellOf(node) == old(CellOf(node)) &&
              root.rotations == old(root.rotations)
            else
              existing == null && Entries(InOrder(tree')) == Entries(InOrder(tree))[node.offset := node] &&
              Nodes(tree') == Nodes(tree) + {node} && root.rotations <= old(root.rotations) + 2
  {
    var parent, link; ghost var ctx;
    existing, parent, link, ctx := FindSlot(node.offset, root, tree);
    tree' := tree;
    if existing == null {
      SlotFits(ctx, node);
      LinkNode(node, parent, link, root, ctx);
      tree' := InsertColor(node, root, ctx);
    }
  }

  /** `my_delete`: search, then erase what was found. */
  method Delete(offset: nat, root: Root, ghost tree: Tree) returns (found: Node?, ghost tree': Tree)
    requires Valid(root, tree)
    modifies root, Nodes(tree)
    ensures Valid(root, tree')
    ensures Entries(InOrder(tree')) == Entries(InOrder(tree)) - {offset}
    ensures if offset in Entries(InOrder(tree)) then
              found == Entries(InOrder(tree))[offset] && Nodes(tree') == Nodes(tree) - {found}
            else found == null && tree' == tree
    ensures root.rotations <= old(root.rotations) + 3
  {
    found := Search(offset, root, tree);
    tree' := tree;
    if found != null {
      InOrderNodes(tree, found);
      EntriesWithout(InOrder(tree), found);
      tree' := Erase(found, root, tree);
    }
  }

  // ---------- whole runs ----------

  datatype Op = Add(node: Node) | Remove(offset: nat)

  ghost function OpNodes(ops: seq<Op>): set<Node> {
    set op | op in ops && op.Add? :: op.node
  }

  /** What one operation does to the map: an offset already present is not overwritten. */
  ghost function Step(m: map<nat, Node>, op: Op): map<nat, Node> {
    match op
    case Add(n) => if n.offset in m then m else m[n.offset := n]
    case Remove(k) => m - {k}
  }

  /** What it answers: the entry in the way of an addition, or the one that was removed. */
  ghost function Answer(m: map<nat, Node>, op: Op): Node? {
    var k := match op case Add(n) => n.offset case Remove(k) => k;
    if k in m then m[k] else null
  }

  ghost function Later(m: map<nat, Node>, ops: seq<Op>): map<nat, Node> {
    if ops == [] then m else Step(Later(m, ops[..|ops| - 1]), ops[|ops| - 1])
  }

  ghost function Answers(m: map<nat, Node>, ops: seq<Op>): seq<Node?> {
    if ops == [] then []
    else var earlier := ops[..|ops| - 1]; Answers(m, earlier) + [Answer(Later(m, earlier), ops[|ops| - 1])]
  }

  method Perform(op: Op, root: Root, ghost tree: Tree) returns (answer: Node?, ghost tree': Tree)
    requires Valid(root, tree)
    modifies root, Nodes(tree), OpNodes([op])
    ensures Valid(root, tree') && Nodes(tree') <= Nodes(tree) + OpNodes([op])
    ensures Entries(InOrder(tree')) == Step(Entries(InOrder(tree)), op) && answer == Answer(Entries(InOrder(tree)), op)
    ensures root.rotations <= old(root.rotations) + 3
  {
    hide Entries, Holds, RedBlack;
    match op {
      case Add(n) =>
        assert n in OpNodes([op]) by { assert op in [op]; }
        answer, tree' := Insert(n, root, tree);
      case Remove(k) =>
        answer, tree' := Delete(k, root, tree);
    }
  }

  lemma LaterStep(m: map<nat, Node>, ops: seq<Op>, i: nat)
    requires i < |ops|
    ensures Later(m, ops[..i + 1]) == Step(Later(m, ops[..i]), ops[i])
    ensures Answers(m, ops[..i + 1]) == Answers(m, ops[..i]) + [Answer(Later(m, ops[..i]), ops[i])]
    ensures OpNodes([ops[i]]) <= OpNodes(ops)
  {
    assert ops[..i + 1][..i] == ops[..i];
    assert ops[i] in ops;
  }

  /** A valid tree is low. */
  lemma Low(root: Root, tree: Tree)
    requires Valid(root, tree)
    ensures Pow2(Height(tree)) <= (|InOrder(tree)| + 1) * (|InOrder(tree)| + 1)
  {
    HeightBound(tree);
    SizeIsLength(tree);
  }

  /** Every run of additions and removals behaves as the same run on a finite map, and keeps the tree low. */
  method Run(ops: seq<Op>, root: Root, ghost tree: Tree) returns (answers: seq<Node?>, ghost tree': Tree)
    requires Valid(root, tree)
    modifies root, Nodes(tree), OpNodes(ops)
    ensures Valid(root, tree') && Nodes(tree') <= Nodes(tree) + OpNodes(ops)
    ensures Entries(InOrder(tree')) == Later(Entries(InOrder(tree)), ops)
    ensures answers == Answers(Entries(InOrder(tree)), ops)
    ensures Pow2(Height(tree')) <= (|InOrder(tree')| + 1) * (|InOrder(tree')| + 1)
    ensures root.rotations <= old(root.rotations) + 3 * |ops|
  {
    answers, tree' := [], tree;
    ghost var start := Entries(InOrder(tree));
    for i := 0 to |ops|
      invariant Valid(root, tree') && Nodes(tree') <= Nodes(tree) + OpNodes(ops)
      invariant Entries(InOrder(tree')) == Later(start, ops[..i])
      invariant answers == Answers(start, ops[..i])
      invariant root.rotations <= old(root.rotations) + 3 * i
    {
      LaterStep(start, ops, i);
      var answer;
      answer, tree' := Perform(ops[i], root, tree');
      answers := answers + [answer];
    }
    assert ops[..|ops|] == ops;
    Low(root, tree');
  }
}
