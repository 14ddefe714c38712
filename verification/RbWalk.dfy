/** kernel-rbtree.c: walking a tree in order. */
module RbWalk {
  import opened RbShape
  import opened RbTree

  ghost function FirstOf(s: seq<RbNode>): RbNode? {
    if s == [] then null else s[0]
  }

  ghost function LastOf(s: seq<RbNode>): RbNode? {
    if s == [] then null else s[|s| - 1]
  }

  /** The neighbours of `n` in an order. */
  ghost predicate Neighbours(order: seq<RbNode>, n: RbNode, prev: RbNode?, next: RbNode?) {
    exists k :: 0 <= k < |order| && order[k] == n && prev == LastOf(order[..k]) && next == FirstOf(order[k + 1..])
  }

  lemma NeighboursSplit(a: seq<RbNode>, n: RbNode, b: seq<RbNode>)
    ensures Neighbours(a + [n] + b, n, LastOf(a), FirstOf(b))
  {
    var order := a + [n] + b;
    assert order[|a|] == n && order[..|a|] == a && order[|a| + 1..] == b;
  }

  /** A subtree without a left child starts with its root, one without a right child ends with it. */
  lemma Ends(c: Ctx, t: Tree)
    requires t.Node?
    ensures t.left.Leaf? ==> FirstOf(Inorder(t) + After(c)) == t.n
    ensures t.right.Leaf? ==> LastOf(Before(c) + Inorder(t)) == t.n
  {
  }

  /** Down to the left: the first node of a subtree. */
  method Leftmost(node: RbNode, root: RbRoot, ghost c: Ctx, ghost t: Tree) returns (n: RbNode)
    requires root.Holds(Plug(c, t)) && t.Node? && t.n == node
    ensures n == FirstOf(Inorder(t) + After(c))
  {
    n := node;
    ghost var cs, s, order := c, t, Inorder(t) + After(c);
    LookAt(root, cs, s);
    while n.rb_left != null
      invariant s.Node? && s.n == n && Plug(cs, s) == Plug(c, t) && root.Holds(Plug(c, t))
        && n.rb_left == TopNode(s.left)
      invariant Inorder(s) + After(cs) == order
      decreases s
    {
      var up := Frame(cs, s.n, s.color, s.right, true);
      DownLeft(cs, s);
      n := n.rb_left;
      cs, s := up, s.left;
      LookAt(root, cs, s);
    }
    Ends(cs, s);
  }

  lemma DownLeft(c: Ctx, t: Tree)
    requires t.Node?
    ensures var up := Frame(c, t.n, t.color, t.right, true);
      Plug(up, t.left) == Plug(c, t) && Inorder(t.left) + After(up) == Inorder(t) + After(c)
  {
  }

  /** Down to the right: the last node of a subtree. */
  method Rightmost(node: RbNode, root: RbRoot, ghost c: Ctx, ghost t: Tree) returns (n: RbNode)
    requires root.Holds(Plug(c, t)) && t.Node? && t.n == node
    ensures n == LastOf(Before(c) + Inorder(t)) && root.Holds(Plug(c, t))
  {
    n := node;
    ghost var cs, s, order := c, t, Before(c) + Inorder(t);
    LookAt(root, cs, s);
    while n.rb_right != null
      invariant s.Node? && s.n == n && Plug(cs, s) == Plug(c, t) && root.Holds(Plug(c, t))
        && n.rb_right == TopNode(s.right)
      invariant Before(cs) + Inorder(s) == order
      decreases s
    {
      var up := Frame(cs, s.n, s.color, s.left, false);
      DownRight(cs, s);
      n := n.rb_right;
      cs, s := up, s.right;
      LookAt(root, cs, s);
    }
    Ends(cs, s);
  }

  lemma DownRight(c: Ctx, t: Tree)
    requires t.Node?
    ensures var up := Frame(c, t.n, t.color, t.left, false);
      Plug(up, t.right) == Plug(c, t) && Before(up) + Inorder(t.right) == Before(c) + Inorder(t)
  {
  }

  /** Up as long as the node is a right child. */
  method UpFromRight(start: RbNode, root: RbRoot, ghost c: Ctx, ghost t: Tree) returns (n: RbNode?)
    requires root.Holds(Plug(c, t)) && t.Node? && t.n == start
    ensures n == FirstOf(After(c))
  {
    var node := start;
    ghost var cs, s := c, t;
    LookAt(root, cs, s);
    while node.rb_parent != null && node == node.rb_parent.rb_right
      invariant s.Node? && s.n == node && Plug(cs, s) == Plug(c, t) && root.Holds(Plug(c, t)) && After(cs) == After(c)
      invariant node.rb_parent == HoleParent(cs) && (cs.Frame? ==> Fields(cs.n, FrameCell(cs, node)))
      invariant cs.Frame? && cs.left ==> TopNode(cs.sib) != node
      decreases cs
    {
      node := node.rb_parent;
      cs, s := cs.up, Join(cs.left, s, cs.n, cs.color, cs.sib);
      LookAt(root, cs, s);
    }
    n := node.rb_parent;
  }

  /** Up as long as the node is a left child. */
  method UpFromLeft(start: RbNode, root: RbRoot, ghost c: Ctx, ghost t: Tree) returns (n: RbNode?)
    requires root.Holds(Plug(c, t)) && t.Node? && t.n == start
    ensures n == LastOf(Before(c)) && root.Holds(Plug(c, t))
  {
    var node := start;
    ghost var cs, s := c, t;
    LookAt(root, cs, s);
    while node.rb_parent != null && node == node.rb_parent.rb_left
      invariant s.Node? && s.n == node && Plug(cs, s) == Plug(c, t) && root.Holds(Plug(c, t)) && Before(cs) == Before(c)
      invariant node.rb_parent == HoleParent(cs) && (cs.Frame? ==> Fields(cs.n, FrameCell(cs, node)))
      invariant cs.Frame? && !cs.left ==> TopNode(cs.sib) != node
      decreases cs
    {
      node := node.rb_parent;
      cs, s := cs.up, Join(cs.left, s, cs.n, cs.color, cs.sib);
      LookAt(root, cs, s);
    }
    n := node.rb_parent;
  }

  /** `rb_first` */
  method First(root: RbRoot) returns (n: RbNode?)
    requires root.Valid()
    ensures n == FirstOf(Inorder(root.tree))
  {
    root.ValidHolds();
    LookAt(root, Top, root.tree);
    n := root.rb_node;
    if n != null {
      n := Leftmost(n, root, Top, root.tree);
      assert Inorder(root.tree) + [] == Inorder(root.tree);
    }
  }

  /** `rb_last` */
  method Last(root: RbRoot) returns (n: RbNode?)
    requires root.Valid()
    ensures n == LastOf(Inorder(root.tree))
  {
    root.ValidHolds();
    LookAt(root, Top, root.tree);
    n := root.rb_node;
    if n != null {
      n := Rightmost(n, root, Top, root.tree);
      assert [] + Inorder(root.tree) == Inorder(root.tree);
    }
  }

  /** `rb_next` and `rb_prev`: the neighbours of a node in the order of the tree. */
  method Next(node: RbNode, root: RbRoot, ghost c: Ctx, ghost t: Tree) returns (n: RbNode?)
    requires root.Holds(Plug(c, t)) && t.Node? && t.n == node
    ensures n == FirstOf(Inorder(t.right) + After(c))
  {
    LookAt(root, c, t);
    if node.rb_right != null {
      DownRight(c, t);
      n := Leftmost(node.rb_right, root, Frame(c, t.n, t.color, t.left, false), t.right);
    } else {
      n := UpFromRight(node, root, c, t);
      assert Inorder(t.right) + After(c) == After(c);
    }
  }

  method Prev(node: RbNode, root: RbRoot, ghost c: Ctx, ghost t: Tree) returns (n: RbNode?)
    requires root.Holds(Plug(c, t)) && t.Node? && t.n == node
    ensures n == LastOf(Before(c) + Inorder(t.left)) && root.Holds(Plug(c, t))
  {
    LookAt(root, c, t);
    if node.rb_left != null {
      DownLeft(c, t);
      n := Rightmost(node.rb_left, root, Frame(c, t.n, t.color, t.right, true), t.left);
    } else {
      n := UpFromLeft(node, root, c, t);
      assert Before(c) + Inorder(t.left) == Before(c);
    }
  }

  lemma Bracket(a: seq<RbNode>, l: seq<RbNode>, n: RbNode, r: seq<RbNode>, b: seq<RbNode>)
    ensures a + (l + [n] + r) + b == (a + l) + [n] + (r + b)
  {
  }

  lemma Around(c: Ctx, t: Tree)
    requires t.Node?
    ensures Neighbours(Inorder(Plug(c, t)), t.n, LastOf(Before(c) + Inorder(t.left)),
                       FirstOf(Inorder(t.right) + After(c)))
  {
    PlugInorder(c, t);
    var a, b := Before(c) + Inorder(t.left), Inorder(t.right) + After(c);
    Bracket(Before(c), Inorder(t.left), t.n, Inorder(t.right), After(c));
    NeighboursSplit(a, t.n, b);
  }

  /** Both neighbours of a node of a valid tree. */
  method NeighboursOf(node: RbNode, root: RbRoot) returns (prev: RbNode?, next: RbNode?)
    requires root.Valid() && node in Nodes(root.tree)
    ensures Neighbours(Inorder(root.tree), node, prev, next)
  {
    root.ValidHolds();
    ghost var c, t := Focus(Top, root.tree, node);
    prev := Prev(node, root, c, t);
    next := Next(node, root, c, t);
    Around(c, t);
  }
}
