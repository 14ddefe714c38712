/** kernel-rbtree.c: rotations, insertion fix-up and removal on linked nodes. */
module RbTree {
  import opened RbShape

  /** `struct rb_root`, with the tree it holds as a ghost. */
  class RbRoot {
    var rb_node: RbNode?
    ghost var tree: Tree

    constructor ()
      ensures Valid() && tree == Leaf
    {
      rb_node, tree := null, Leaf;
    }

    /** The root pointer and the nodes below it form the tree `s`. */
    ghost predicate Holds(s: Tree)
      reads this, Nodes(s)
    {
      Linked(s) && rb_node == TopNode(s)
    }

    ghost predicate Valid()
      reads this, Nodes(tree)
    {
      Distinct(tree) && Rep(tree, null) && rb_node == TopNode(tree) && RedBlack(tree)
    }

    lemma ValidHolds()
      ensures Valid() <==> Holds(tree) && RedBlack(tree)
    {
      RepLinked(tree);
    }
  }

  // ---- rotations ----

  ghost function RotatedLeft(t: Tree): Tree
    requires t.Node? && t.right.Node?
  {
    Node(Node(t.left, t.n, t.color, t.right.left), t.right.n, t.right.color, t.right.right)
  }

  ghost function RotatedRight(t: Tree): Tree
    requires t.Node? && t.left.Node?
  {
    Node(t.left.left, t.left.n, t.left.color, Node(t.left.right, t.n, t.color, t.right))
  }

  ghost function Opt(n: RbNode?): set<RbNode> {
    if n == null then {} else {n}
  }

  ghost predicate Rotatable(x: RbNode, y: RbNode, b: RbNode?, p: RbNode?) {
    y != x && p !in {x, y} && b !in {x, y} && (b == null || b != p)
  }

  lemma Regrouped(a: seq<RbNode>, x: RbNode, b: seq<RbNode>, y: RbNode, d: seq<RbNode>)
    ensures (a + [x] + b) + [y] + d == a + [x] + (b + [y] + d)
  {}

  lemma RotatedLeftDistinct(t: Tree)
    requires t.Node? && t.right.Node? && Distinct(t)
    ensures Distinct(RotatedLeft(t)) && SameOrder(t, RotatedLeft(t)) && t.right.n in Nodes(t)
  {
    assert Distinct(t.right) && Nodes(t.right) == Nodes(t.right.left) + {t.right.n} + Nodes(t.right.right);
    var l := RotatedLeft(t).left;
    assert Distinct(l) && Nodes(l) == Nodes(t.left) + {t.n} + Nodes(t.right.left);
    Regrouped(Inorder(t.left), t.n, Inorder(t.right.left), t.right.n, Inorder(t.right.right));
  }

  lemma RotatedRightDistinct(t: Tree)
    requires t.Node? && t.left.Node? && Distinct(t)
    ensures Distinct(RotatedRight(t)) && SameOrder(t, RotatedRight(t)) && t.left.n in Nodes(t)
  {
    assert Distinct(t.left) && Nodes(t.left) == Nodes(t.left.left) + {t.left.n} + Nodes(t.left.right);
    var r := RotatedRight(t).right;
    assert Distinct(r) && Nodes(r) == Nodes(t.left.right) + {t.n} + Nodes(t.right);
    Regrouped(Inorder(t.left.left), t.left.n, Inorder(t.left.right), t.n, Inorder(t.right));
  }

  /** A left rotation of `t` gives new fields to three nodes of `t` only. */
  lemma RotatedLeftCells(t: Tree, p: RbNode?)
    requires t.Node? && t.right.Node? && Distinct(t) && (p == null || p !in Nodes(t))
    ensures var x, y, b, t' := t.n, t.right.n, TopNode(t.right.left), RotatedLeft(t);
      && Nodes(t') == Nodes(t) && y in Nodes(t) && (b != null ==> b in Nodes(t))
      && Rotatable(x, y, b, p)
      && CellOf(t', p, x) == Cell(y, t.color, TopNode(t.left), b)
      && CellOf(t', p, y) == Cell(p, t.right.color, x, TopNode(t.right.right))
      && (b != null ==> CellOf(t', p, b) == CellOf(t, p, b).(parent := x))
      && (forall n :: n in Nodes(t) && n !in {x, y} && n != b ==> CellOf(t', p, n) == CellOf(t, p, n))
  {
    RotatedLeftDistinct(t);
    var x, y, b, t' := t.n, t.right.n, t.right.left, RotatedLeft(t);
    assert Distinct(t.right) && y in Nodes(t.right) && Nodes(t.right) == Nodes(b) + {y} + Nodes(t.right.right);
    var l := t'.left;
    assert l == Node(t.left, x, t.color, b) && Distinct(l) && Nodes(l) == Nodes(t.left) + {x} + Nodes(b);
    assert b.Node? ==> b.n in Nodes(b);
    forall n | n in Nodes(b)
      ensures CellOf(t', p, n) == CellOf(b, x, n) && CellOf(t, p, n) == CellOf(b, y, n)
    {
      assert CellOf(t', p, n) == CellOf(l, y, n);
      assert CellOf(t, p, n) == CellOf(t.right, x, n);
    }
    forall n | n in Nodes(t.left)
      ensures CellOf(t', p, n) == CellOf(t, p, n)
    {
      assert CellOf(t', p, n) == CellOf(l, y, n);
    }
    forall n | n in Nodes(t.right.right)
      ensures CellOf(t', p, n) == CellOf(t, p, n)
    {
      assert CellOf(t, p, n) == CellOf(t.right, x, n);
    }
  }

  /** A left rotation of the tree in the hole gives new fields to four nodes of the whole. */
  lemma RotatedLeftPlan(c: Ctx, t: Tree)
    requires t.Node? && t.right.Node? && Distinct(Plug(c, t))
    ensures var x, y, b, p, s, s' := t.n, t.right.n, TopNode(t.right.left), HoleParent(c), Plug(c, t),
        Plug(c, RotatedLeft(t));
      && Distinct(s') && SameOrder(s, s')
      && Rotatable(x, y, b, p) && {x, y} + Opt(b) + Opt(p) <= Nodes(s)
      && CellOf(s, null, x) == Cell(p, t.color, TopNode(t.left), y)
      && CellOf(s, null, y) == Cell(x, t.right.color, b, TopNode(t.right.right))
      && CellOf(s', null, x) == Cell(y, t.color, TopNode(t.left), b)
      && CellOf(s', null, y) == Cell(p, t.right.color, x, TopNode(t.right.right))
      && (b != null ==> CellOf(s, null, b).parent == y && CellOf(s', null, b) == CellOf(s, null, b).(parent := x))
      && (p != null ==> CellOf(s, null, p) == FrameCell(c, x) && CellOf(s', null, p) == FrameCell(c, y))
      && (p != null ==> TopNode(c.sib) !in {x, y})
      && TopNode(s') == (if p == null then y else TopNode(s))
      && forall n :: n in Nodes(s) && n !in {x, y} && n != b && n != p ==> CellOf(s', null, n) == CellOf(s, null, n)
  {
    Planted(c, t);
    RotatedLeftDistinct(t);
    PlugSameOrder(c, t, RotatedLeft(t));
    RotatedLeftCells(t, HoleParent(c));
    Replant(c, t, RotatedLeft(t));
    Planted(c, RotatedLeft(t));
    var y := t.right.n;
    assert y in Nodes(t.right) && y != t.n;
    assert CellOf(t, HoleParent(c), y) == CellOf(t.right, t.n, y);
    if t.right.left.Node? {
      var b := t.right.left.n;
      assert Distinct(t.right) && b in Nodes(t.right.left);
      assert CellOf(t, HoleParent(c), b) == CellOf(t.right, t.n, b) == CellOf(t.right.left, y, b);
    }
  }

  /** A right rotation undoes a left rotation, so the same four nodes change back. */
  lemma RotatedRightPlan(c: Ctx, t: Tree)
    requires t.Node? && t.left.Node? && Distinct(Plug(c, t))
    ensures var x, y, b, p, s, s' := t.n, t.left.n, TopNode(t.left.right), HoleParent(c), Plug(c, t),
        Plug(c, RotatedRight(t));
      && Distinct(s') && SameOrder(s, s')
      && Rotatable(x, y, b, p) && {x, y} + Opt(b) + Opt(p) <= Nodes(s)
      && CellOf(s, null, x) == Cell(p, t.color, y, TopNode(t.right))
      && CellOf(s, null, y) == Cell(x, t.left.color, TopNode(t.left.left), b)
      && CellOf(s', null, x) == Cell(y, t.color, b, TopNode(t.right))
      && CellOf(s', null, y) == Cell(p, t.left.color, TopNode(t.left.left), x)
      && (b != null ==> CellOf(s, null, b).parent == y && CellOf(s', null, b) == CellOf(s, null, b).(parent := x))
      && (p != null ==> CellOf(s, null, p) == FrameCell(c, x) && CellOf(s', null, p) == FrameCell(c, y))
      && (p != null ==> TopNode(c.sib) !in {x, y})
      && TopNode(s') == (if p == null then y else TopNode(s))
      && forall n :: n in Nodes(s) && n !in {x, y} && n != b && n != p ==> CellOf(s', null, n) == CellOf(s, null, n)
  {
    var u := RotatedRight(t);
    assert RotatedLeft(u) == t;
    Planted(c, t);
    RotatedRightDistinct(t);
    PlugSameOrder(c, t, u);
    Replant(c, t, u);
    RotatedLeftPlan(c, u);
  }

  method RotateLeft(node: RbNode, root: RbRoot)
    requires node.rb_right != null
    requires Rotatable(node, node.rb_right, node.rb_right.rb_left, node.rb_parent)
    modifies root`rb_node, {node, node.rb_right}
    modifies Opt(node.rb_right.rb_left)`rb_parent, Opt(node.rb_parent)`rb_left, Opt(node.rb_parent)`rb_right
    ensures var x, y, p := node, old(node.rb_right), old(node.rb_parent);
      var b := old(y.rb_left);
      && Fields(x, Cell(y, old(x.rb_color), old(x.rb_left), b))
      && Fields(y, Cell(p, old(y.rb_color), x, old(y.rb_right)))
      && (b != null ==> b.rb_parent == x)
      && root.rb_node == (if p == null then y else old(root.rb_node))
      && (p != null ==> if old(p.rb_left) == x then p.rb_left == y && p.rb_right == old(p.rb_right)
                        else p.rb_right == y && p.rb_left == old(p.rb_left))
  {
    var right := node.rb_right;

    node.rb_right := right.rb_left;
    if node.rb_right != null {
      right.rb_left.rb_parent := node;
    }
    right.rb_left := node;

    right.rb_parent := node.rb_parent;
    if right.rb_parent != null {
      if node == node.rb_parent.rb_left {
        node.rb_parent.rb_left := right;
      } else {
        node.rb_parent.rb_right := right;
      }
    } else {
      root.rb_node := right;
    }
    node.rb_parent := right;
  }

  method RotateRight(node: RbNode, root: RbRoot)
    requires node.rb_left != null
    requires Rotatable(node, node.rb_left, node.rb_left.rb_right, node.rb_parent)
    modifies root`rb_node, {node, node.rb_left}
    modifies Opt(node.rb_left.rb_right)`rb_parent, Opt(node.rb_parent)`rb_left, Opt(node.rb_parent)`rb_right
    ensures var x, y, p := node, old(node.rb_left), old(node.rb_parent);
      var b := old(y.rb_right);
      && Fields(x, Cell(y, old(x.rb_color), b, old(x.rb_right)))
      && Fields(y, Cell(p, old(y.rb_color), old(y.rb_left), x))
      && (b != null ==> b.rb_parent == x)
      && root.rb_node == (if p == null then y else old(root.rb_node))
      && (p != null ==> if old(p.rb_right) == x then p.rb_right == y && p.rb_left == old(p.rb_left)
                        else p.rb_left == y && p.rb_right == old(p.rb_right))
  {
    var left := node.rb_left;

    node.rb_left := left.rb_right;
    if node.rb_left != null {
      left.rb_right.rb_parent := node;
    }
    left.rb_right := node;

    left.rb_parent := node.rb_parent;
    if left.rb_parent != null {
      if node == node.rb_parent.rb_right {
        node.rb_parent.rb_right := left;
      } else {
        node.rb_parent.rb_left := left;
      }
    } else {
      root.rb_node := left;
    }
    node.rb_parent := left;
  }

  /** Rotating the root of the tree in the hole rotates that tree and leaves the rest. */
  method RotateLeftAt(node: RbNode, root: RbRoot, ghost c: Ctx, ghost t: Tree)
    requires t.Node? && t.right.Node? && t.n == node && root.Holds(Plug(c, t))
    modifies root`rb_node, Nodes(Plug(c, t))
    ensures root.Holds(Plug(c, RotatedLeft(t))) && SameOrder(Plug(c, t), Plug(c, RotatedLeft(t)))
  {
    RotatedLeftPlan(c, t);
    assert allocated(Nodes(Plug(c, t)));
    assert node.rb_right == t.right.n;
    assert node.rb_right.rb_left == TopNode(t.right.left);
    RotateLeft(node, root);
  }

  method RotateRightAt(node: RbNode, root: RbRoot, ghost c: Ctx, ghost t: Tree)
    requires t.Node? && t.left.Node? && t.n == node && root.Holds(Plug(c, t))
    modifies root`rb_node, Nodes(Plug(c, t))
    ensures root.Holds(Plug(c, RotatedRight(t))) && SameOrder(Plug(c, t), Plug(c, RotatedRight(t)))
  {
    RotatedRightPlan(c, t);
    assert allocated(Nodes(Plug(c, t)));
    assert node.rb_left == t.left.n;
    assert node.rb_left.rb_right == TopNode(t.left.right);
    RotateRight(node, root);
  }

  // ---- colours, and what a node sees around it ----

  /** The fields of the root of the tree in the hole and of the node above it. */
  lemma LookAt(root: RbRoot, c: Ctx, t: Tree)
    requires root.Holds(Plug(c, t))
    ensures t.Node? ==>
      && t.n in Nodes(Plug(c, t))
      && Fields(t.n, Cell(HoleParent(c), t.color, TopNode(t.left), TopNode(t.right)))
    ensures c.Frame? ==> c.n in Nodes(Plug(c, t)) && Fields(c.n, FrameCell(c, TopNode(t)))
    ensures c.Frame? ==> TopNode(c.sib) == null || TopNode(c.sib) != TopNode(t)
    ensures c.Top? <==> root.rb_node == TopNode(t)
  {
    Planted(c, t);
    PlugTop(c, t, t);
    if t.Node? {
      assert t.n in Nodes(t);
      assert CellOf(t, HoleParent(c), t.n) == Cell(HoleParent(c), t.color, TopNode(t.left), TopNode(t.right));
    }
  }

  /** Recolouring a node recolours the root of the tree in the hole. */
  method Paint(node: RbNode, color: Color, root: RbRoot, ghost c: Ctx, ghost t: Tree)
    requires t.Node? && t.n == node && root.Holds(Plug(c, t))
    modifies node`rb_color
    ensures root.Holds(Plug(c, t.(color := color))) && SameOrder(Plug(c, t), Plug(c, t.(color := color)))
  {
    ghost var t' := t.(color := color);
    Planted(c, t);
    PlugSameOrder(c, t, t');
    Replant(c, t, t');
    Planted(c, t');
    node.rb_color := color;
  }

  // ---- insertion ----

  /** What holds while `rb_insert_color` climbs: the red tree in the hole is
      balanced, and so is the rest; only the two may meet red on red. */
  ghost predicate Climbing(c: Ctx, t: Tree, h: nat) {
    IsRed(t) && Balanced(t, h) && CtxBalanced(c, h)
  }

  /** The grandparent's frame with parent and uncle black and itself red. */
  ghost function Recolored(c: Ctx, t: Tree): Tree
    requires c.Frame? && c.up.Frame? && c.up.sib.Node?
  {
    Join(c.up.left, Join(c.left, t, c.n, Black, c.sib), c.up.n, Red, c.up.sib.(color := Black))
  }

  lemma RecolorBalanced(c: Ctx, t: Tree, h: nat)
    requires c.Frame? && c.color.Red? && c.up.Frame? && IsRed(c.up.sib) && Climbing(c, t, h)
    ensures Climbing(c.up.up, Recolored(c, t), h + 1) && Depth(c.up.up) < Depth(c)
  {
    assert Depth(c.up.up) + 1 == Depth(c.up);
    assert CtxBalanced(c.up, h) && Balanced(c.up.sib, h);
    assert Balanced(Join(c.left, t, c.n, Black, c.sib), h + 1);
    assert Balanced(c.up.sib.(color := Black), h + 1);
  }

  /** Red uncle: the colours of parent, uncle and grandparent swap. */
  method RecolorUncle(uncle: RbNode, parent: RbNode, gparent: RbNode, root: RbRoot, ghost c: Ctx, ghost t: Tree,
                      ghost h: nat)
    requires c.Frame? && c.color.Red? && c.up.Frame? && IsRed(c.up.sib)
    requires uncle == c.up.sib.n && parent == c.n && gparent == c.up.n
    requires Climbing(c, t, h) && root.Holds(Plug(c, t))
    modifies Nodes(Plug(c, t))
    ensures root.Holds(Plug(c.up.up, Recolored(c, t))) && SameOrder(Plug(c, t), Plug(c.up.up, Recolored(c, t)))
    ensures Climbing(c.up.up, Recolored(c, t), h + 1) && Depth(c.up.up) < Depth(c)
  {
    ghost var g := c.up;
    ghost var p := Join(c.left, t, parent, Red, c.sib);
    ghost var p', u' := p.(color := Black), g.sib.(color := Black);
    ghost var cu := Frame(g.up, gparent, Black, p, !g.left);
    ghost var g' := g.(sib := u');
    assert Plug(c, t) == Plug(g, p) == Plug(cu, g.sib);
    LookAt(root, cu, g.sib);
    LookAt(root, c, t);
    Paint(uncle, Black, root, cu, g.sib);
    assert Plug(cu, u') == Plug(g', p);
    Paint(parent, Black, root, g', p);
    assert Plug(g', p') == Plug(g.up, Join(g.left, p', gparent, Black, u'));
    Paint(gparent, Red, root, g.up, Join(g.left, p', gparent, Black, u'));
    RecolorBalanced(c, t, h);
  }

  /** The tree two levels up once the black uncle's side took the rotation:
      `p` black on top, the red `t` and the red grandparent below it. */
  ghost function Turned(c: Ctx): Ctx
    requires c.Frame? && c.up.Frame?
  {
    Frame(c.up.up, c.n, Black, Join(!c.up.left, c.up.sib, c.up.n, Red, c.sib), c.left)
  }

  lemma TurnedBalanced(c: Ctx, t: Tree, h: nat)
    requires c.Frame? && c.color.Red? && c.up.Frame? && !IsRed(c.up.sib) && c.left == c.up.left
    requires Climbing(c, t, h)
    ensures Climbing(Turned(c), t, h) && Depth(Turned(c)) < Depth(c)
  {
    assert CtxBalanced(c.up, h) && Balanced(c.up.sib, h);
    assert Balanced(Join(!c.up.left, c.up.sib, c.up.n, Red, c.sib), h);
  }

  /** Black uncle on the right: rotate an inner `node` out, then the grandparent down. */
  method InsertTurnRight(node: RbNode, parent: RbNode, gparent: RbNode, root: RbRoot, ghost c: Ctx, ghost t: Tree,
                         ghost h: nat)
    returns (node': RbNode, ghost c': Ctx, ghost t': Tree)
    requires c.Frame? && c.color.Red? && c.up.Frame? && c.up.left && !IsRed(c.up.sib)
    requires t.Node? && node == t.n && parent == c.n && gparent == c.up.n
    requires Climbing(c, t, h) && root.Holds(Plug(c, t))
    modifies root`rb_node, Nodes(Plug(c, t))
    ensures root.Holds(Plug(c', t')) && SameOrder(Plug(c, t), Plug(c', t'))
    ensures t'.Node? && t'.n == node' && Climbing(c', t', h) && Depth(c') < Depth(c)
  {
    node', c', t' := node, c, t;
    var parent := parent;
    ghost var g := c.up;
    LookAt(root, c, t);
    LookAt(root, g, Join(c.left, t, c.n, Red, c.sib));
    if parent.rb_right == node {
      ghost var tp := Node(c.sib, parent, Red, t);
      assert Plug(c, t) == Plug(g, tp);
      RotateLeftAt(parent, root, g, tp);
      var tmp := parent;
      parent := node;
      node' := tmp;
      c' := Frame(g, node, Red, t.right, true);
      t' := Node(c.sib, tmp, Red, t.left);
      assert Plug(c', t') == Plug(g, RotatedLeft(tp));
    }
    ghost var p := Node(t', parent, Red, c'.sib);
    Paint(parent, Black, root, g, p);
    ghost var tg := Node(p.(color := Black), gparent, Black, g.sib);
    assert Plug(g, p.(color := Black)) == Plug(g.up, tg);
    Paint(gparent, Red, root, g.up, tg);
    RotateRightAt(gparent, root, g.up, tg.(color := Red));
    TurnedBalanced(c', t', h);
    c' := Turned(c');
    assert Plug(c', t') == Plug(g.up, RotatedRight(tg.(color := Red)));
  }

  /** Black uncle on the left: rotate an inner `node` out, then the grandparent down. */
  method InsertTurnLeft(node: RbNode, parent: RbNode, gparent: RbNode, root: RbRoot, ghost c: Ctx, ghost t: Tree,
                        ghost h: nat)
    returns (node': RbNode, ghost c': Ctx, ghost t': Tree)
    requires c.Frame? && c.color.Red? && c.up.Frame? && !c.up.left && !IsRed(c.up.sib)
    requires t.Node? && node == t.n && parent == c.n && gparent == c.up.n
    requires Climbing(c, t, h) && root.Holds(Plug(c, t))
    modifies root`rb_node, Nodes(Plug(c, t))
    ensures root.Holds(Plug(c', t')) && SameOrder(Plug(c, t), Plug(c', t'))
    ensures t'.Node? && t'.n == node' && Climbing(c', t', h) && Depth(c') < Depth(c)
  {
    node', c', t' := node, c, t;
    var parent := parent;
    ghost var g := c.up;
    LookAt(root, c, t);
    LookAt(root, g, Join(c.left, t, c.n, Red, c.sib));
    if parent.rb_left == node {
      ghost var tp := Node(t, parent, Red, c.sib);
      assert Plug(c, t) == Plug(g, tp);
      RotateRightAt(parent, root, g, tp);
      var tmp := parent;
      parent := node;
      node' := tmp;
      c' := Frame(g, node, Red, t.left, false);
      t' := Node(t.right, tmp, Red, c.sib);
      assert Plug(c', t') == Plug(g, RotatedRight(tp));
    }
    ghost var p := Node(c'.sib, parent, Red, t');
    Paint(parent, Black, root, g, p);
    ghost var tg := Node(g.sib, gparent, Black, p.(color := Black));
    assert Plug(g, p.(color := Black)) == Plug(g.up, tg);
    Paint(gparent, Red, root, g.up, tg);
    RotateLeftAt(gparent, root, g.up, tg.(color := Red));
    TurnedBalanced(c', t', h);
    c' := Turned(c');
    assert Plug(c', t') == Plug(g.up, RotatedLeft(tg.(color := Red)));
  }

  /** `rb_link_node`: hang `node` as a red leaf where the pointer `*rb_link` is:
      the left or right link of `parent`, or the root pointer. */
  method LinkNode(node: RbNode, parent: RbNode?, left: bool, root: RbRoot, ghost c: Ctx)
    requires root.Holds(Plug(c, Leaf)) && node !in CtxNodes(c)
    requires parent == HoleParent(c) && (c.Frame? ==> left == c.left)
    modifies root`rb_node, node, CtxNodes(c)
    ensures root.Holds(Plug(c, Node(Leaf, node, Red, Leaf)))
  {
    ghost var t := Node(Leaf, node, Red, Leaf);
    Planted(c, Leaf);
    PlugDistinct(c, t);
    Planted(c, t);
    PlugTop(c, Leaf, t);
    LookAt(root, c, Leaf);
    forall n | n in CtxNodes(c) && n != parent
      ensures CellOf(Plug(c, t), null, n) == CellOf(Plug(c, Leaf), null, n)
    {
      PlugCells(c, t, n);
      PlugCells(c, Leaf, n);
    }

    node.rb_parent := parent;
    node.rb_color := Red;
    node.rb_left, node.rb_right := null, null;
    if parent == null {
      root.rb_node := node;
    } else if left {
      parent.rb_left := node;
    } else {
      parent.rb_right := node;
    }
  }

  lemma ClimbedBalanced(c: Ctx, t: Tree, h: nat)
    requires Climbing(c, t, h) && (c.Top? || c.color.Black?)
    ensures Plug(c, t).Node? && RedBlack(Plug(c, t).(color := Black))
  {
    PlugTop(c, t, t);
    if c.Top? {
      BalancedHeight(t.(color := Black), h + 1);
    } else {
      PlugBalanced(c, t, h);
    }
  }

  /** `root->rb_node->rb_color = RB_BLACK`. */
  method BlackenRoot(root: RbRoot, ghost c: Ctx, ghost t: Tree, ghost h: nat)
    requires Climbing(c, t, h) && (c.Top? || c.color.Black?) && root.Holds(Plug(c, t))
    modifies root`tree, Nodes(Plug(c, t))
    ensures root.Valid() && SameOrder(Plug(c, t), root.tree)
  {
    ClimbedBalanced(c, t, h);
    LookAt(root, Top, Plug(c, t));
    Paint(root.rb_node, Black, root, Top, Plug(c, t));
    root.tree := Plug(c, t).(color := Black);
    root.ValidHolds();
  }

  /** The relatives of the red node in the hole when its parent is red. */
  lemma ClimbView(root: RbRoot, c: Ctx, t: Tree, h: nat)
    requires root.Holds(Plug(c, t)) && Climbing(c, t, h)
    requires t.n.rb_parent != null && t.n.rb_parent.rb_color.Red?
    ensures c.Frame? && c.color.Red? && c.up.Frame?
    ensures t.n.rb_parent == c.n && c.n.rb_parent == c.up.n
    ensures c.up.n.rb_left == (if c.up.left then c.n else TopNode(c.up.sib)) && (!c.up.left ==> c.up.n.rb_left != c.n)
    ensures c.up.n.rb_right == (if c.up.left then TopNode(c.up.sib) else c.n)
    ensures c.up.sib.Node? ==> c.up.sib.n.rb_color == c.up.sib.color
  {
    LookAt(root, c, t);
    var g, p := c.up, Join(c.left, t, c.n, c.color, c.sib);
    assert g.Frame? && Plug(c, t) == Plug(g, p);
    LookAt(root, g, p);
    var cu := Frame(g.up, g.n, g.color, p, !g.left);
    assert Plug(cu, g.sib) == Plug(g, p);
    LookAt(root, cu, g.sib);
  }

  /** From a tree that is red-black but for a red node under its red parent (or
      at the root), a red-black tree of the same nodes in the same order. */
  method InsertColor(node: RbNode, root: RbRoot, ghost c: Ctx, ghost t: Tree, ghost h: nat)
    requires t.Node? && node == t.n && Climbing(c, t, h) && root.Holds(Plug(c, t))
    modifies root, Nodes(Plug(c, t))
    ensures root.Valid() && SameOrder(Plug(c, t), root.tree)
  {
    var node := node;
    ghost var c0, t0, c, t, h := c, t, c, t, h;
    while node.rb_parent != null && node.rb_parent.rb_color.Red?
      invariant root.Holds(Plug(c, t)) && SameOrder(Plug(c0, t0), Plug(c, t))
      invariant t.Node? && node == t.n && Climbing(c, t, h)
      decreases Depth(c)
    {
      ClimbView(root, c, t, h);
      var parent := node.rb_parent;
      var gparent := parent.rb_parent;

      if parent == gparent.rb_left {
        var uncle := gparent.rb_right;
        if uncle != null && uncle.rb_color.Red? {
          RecolorUncle(uncle, parent, gparent, root, c, t, h);
          node := gparent;
          c, t, h := c.up.up, Recolored(c, t), h + 1;
        } else {
          node, c, t := InsertTurnRight(node, parent, gparent, root, c, t, h);
        }
      } else {
        var uncle := gparent.rb_left;
        if uncle != null && uncle.rb_color.Red? {
          RecolorUncle(uncle, parent, gparent, root, c, t, h);
          node := gparent;
          c, t, h := c.up.up, Recolored(c, t), h + 1;
        } else {
          node, c, t := InsertTurnLeft(node, parent, gparent, root, c, t, h);
        }
      }
    }
    LookAt(root, c, t);
    BlackenRoot(root, c, t, h);
  }

  /** `rb_link_node` and `rb_insert_color`: the tree gains `node` at the hole of
      `c`, keeps the order of the rest, and is red-black again. */
  method InsertAt(node: RbNode, parent: RbNode?, left: bool, root: RbRoot, ghost c: Ctx)
    requires root.Valid() && root.tree == Plug(c, Leaf) && node !in Nodes(root.tree)
    requires parent == HoleParent(c) && (c.Frame? ==> left == c.left)
    modifies root, node, Nodes(root.tree)
    ensures root.Valid() && SameOrder(Plug(c, Node(Leaf, node, Red, Leaf)), root.tree)
    ensures Nodes(root.tree) == old(Nodes(root.tree)) + {node}
  {
    root.ValidHolds();
    PlugNodes(c, Leaf);
    PlugNodes(c, Node(Leaf, node, Red, Leaf));
    LinkNode(node, parent, left, root, c);
    PlugBalanced(c, Leaf, 0);
    InsertColor(node, root, c, Node(Leaf, node, Red, Leaf), 0);
  }

  // ---- removal ----

  /** What holds while `__rb_erase_color` climbs: the tree in the hole is one
      black node short on every path (or has a red root that will turn black). */
  ghost predicate Draining(c: Ctx, t: Tree, h: nat) {
    && CtxBalanced(c, h + 1)
    && if IsRed(t) then Balanced(t.left, h) && Balanced(t.right, h) else Balanced(t, h)
  }

  ghost function Blackened(t: Tree): Tree {
    if t.Leaf? then t else t.(color := Black)
  }

  lemma DrainedBalanced(c: Ctx, t: Tree, h: nat)
    requires Draining(c, t, h) && (IsRed(t) || c.Top?)
    ensures RedBlack(Plug(c, Blackened(t)))
  {
    if IsRed(t) {
      PlugBalanced(c, Blackened(t), h + 1);
    } else {
      BalancedHeight(t, h);
    }
  }

  /** The relatives of the hole while the tree in it is short of a black node. */
  lemma DrainView(root: RbRoot, c: Ctx, t: Tree, h: nat)
    requires root.Holds(Plug(c, t)) && Draining(c, t, h) && !IsRed(t) && c.Frame?
    ensures c.sib.Node? && Fields(c.n, FrameCell(c, TopNode(t)))
    ensures c.n.rb_left == TopNode(t) <==> c.left
    ensures Fields(c.sib.n, Cell(c.n, c.sib.color, TopNode(c.sib.left), TopNode(c.sib.right)))
    ensures c.sib.left.Node? ==> c.sib.left.n.rb_color == c.sib.left.color
    ensures c.sib.right.Node? ==> c.sib.right.n.rb_color == c.sib.right.color
    ensures IsRed(c.sib) ==> c.color.Black?
  {
    LookAt(root, c, t);
    var cs := Frame(c.up, c.n, c.color, t, !c.left);
    assert Plug(cs, c.sib) == Plug(c, t);
    LookAt(root, cs, c.sib);
    var cl := Frame(cs, c.sib.n, c.sib.color, c.sib.right, true);
    var cr := Frame(cs, c.sib.n, c.sib.color, c.sib.left, false);
    assert Plug(cl, c.sib.left) == Plug(cs, c.sib) == Plug(cr, c.sib.right);
    LookAt(root, cl, c.sib.left);
    LookAt(root, cr, c.sib.right);
  }

  /** The context after a red sibling was rotated above the parent. */
  ghost function RedSiblingUp(c: Ctx): Ctx
    requires c.Frame? && c.sib.Node?
  {
    var near, far := if c.left then c.sib.left else c.sib.right, if c.left then c.sib.right else c.sib.left;
    Frame(Frame(c.up, c.sib.n, Black, far, c.left), c.n, Red, near, c.left)
  }

  lemma RedSiblingUpDraining(c: Ctx, t: Tree, h: nat)
    requires Draining(c, t, h) && c.Frame? && IsRed(c.sib)
    ensures Draining(RedSiblingUp(c), t, h) && c.color.Black?
  {
  }

  /** Red sibling on the right: paint it black, the parent red, rotate left. */
  method EraseRedRight(other: RbNode, parent: RbNode, root: RbRoot, ghost c: Ctx, ghost t: Tree, ghost h: nat)
    requires root.Holds(Plug(c, t)) && Draining(c, t, h) && !IsRed(t)
    requires c.Frame? && c.left && IsRed(c.sib) && parent == c.n && other == c.sib.n
    modifies root`rb_node, Nodes(Plug(c, t))
    ensures root.Holds(Plug(RedSiblingUp(c), t)) && SameOrder(Plug(c, t), Plug(RedSiblingUp(c), t))
    ensures Draining(RedSiblingUp(c), t, h)
  {
    RedSiblingUpDraining(c, t, h);
    LookAt(root, c, t);
    ghost var s, s' := c.sib, c.sib.(color := Black);
    ghost var cs := Frame(c.up, parent, Black, t, false);
    assert Plug(cs, s) == Plug(c, t);
    LookAt(root, cs, s);
    Paint(other, Black, root, cs, s);
    ghost var p := Node(t, parent, Black, s');
    assert Plug(cs, s') == Plug(c.up, p);
    Paint(parent, Red, root, c.up, p);
    RotateLeftAt(parent, root, c.up, p.(color := Red));
    assert Plug(RedSiblingUp(c), t) == Plug(c.up, RotatedLeft(p.(color := Red)));
  }

  /** Red sibling on the left: paint it black, the parent red, rotate right. */
  method EraseRedLeft(other: RbNode, parent: RbNode, root: RbRoot, ghost c: Ctx, ghost t: Tree, ghost h: nat)
    requires root.Holds(Plug(c, t)) && Draining(c, t, h) && !IsRed(t)
    requires c.Frame? && !c.left && IsRed(c.sib) && parent == c.n && other == c.sib.n
    modifies root`rb_node, Nodes(Plug(c, t))
    ensures root.Holds(Plug(RedSiblingUp(c), t)) && SameOrder(Plug(c, t), Plug(RedSiblingUp(c), t))
    ensures Draining(RedSiblingUp(c), t, h)
  {
    RedSiblingUpDraining(c, t, h);
    LookAt(root, c, t);
    ghost var s, s' := c.sib, c.sib.(color := Black);
    ghost var cs := Frame(c.up, parent, Black, t, true);
    assert Plug(cs, s) == Plug(c, t);
    LookAt(root, cs, s);
    Paint(other, Black, root, cs, s);
    ghost var p := Node(s', parent, Black, t);
    assert Plug(cs, s') == Plug(c.up, p);
    Paint(parent, Red, root, c.up, p);
    RotateRightAt(parent, root, c.up, p.(color := Red));
    assert Plug(RedSiblingUp(c), t) == Plug(c.up, RotatedRight(p.(color := Red)));
  }

  /** Black sibling without a red child: paint it red and go one level up. */
  method EraseRecolor(other: RbNode, root: RbRoot, ghost c: Ctx, ghost t: Tree, ghost h: nat)
    returns (ghost t': Tree, ghost h': nat)
    requires root.Holds(Plug(c, t)) && Draining(c, t, h) && !IsRed(t)
    requires c.Frame? && c.sib.Node? && !IsRed(c.sib) && !IsRed(c.sib.left) && !IsRed(c.sib.right) && other == c.sib.n
    modifies Nodes(Plug(c, t))
    ensures root.Holds(Plug(c.up, t')) && SameOrder(Plug(c, t), Plug(c.up, t'))
    ensures Draining(c.up, t', h') && TopNode(t') == c.n && (IsRed(t') <==> c.color.Red?)
  {
    ghost var s' := c.sib.(color := Red);
    ghost var cs := Frame(c.up, c.n, c.color, t, !c.left);
    assert Plug(cs, c.sib) == Plug(c, t);
    LookAt(root, cs, c.sib);
    Paint(other, Red, root, cs, c.sib);
    t' := Join(c.left, t, c.n, c.color, s');
    h' := if c.color.Red? then h else h + 1;
    assert Balanced(c.sib, h + 1) && Balanced(s', h);
    assert Plug(cs, s') == Plug(c.up, t');
  }

  /** The red near nephew took the sibling's place. */
  ghost function NephewUp(c: Ctx): Ctx
    requires c.Frame? && c.sib.Node? && (if c.left then c.sib.left.Node? else c.sib.right.Node?)
  {
    var s := c.sib;
    c.(sib := if c.left then Node(s.left.left, s.left.n, Black, Node(s.left.right, s.n, Red, s.right))
              else Node(Node(s.left, s.n, Red, s.right.left), s.right.n, Black, s.right.right))
  }

  /** Black far nephew on the right: rotate the red near nephew into the sibling's place. */
  method EraseNephewRight(other: RbNode, root: RbRoot, ghost c: Ctx, ghost t: Tree, ghost h: nat)
    requires root.Holds(Plug(c, t)) && Draining(c, t, h) && !IsRed(t)
    requires c.Frame? && c.left && c.sib.Node? && !IsRed(c.sib) && IsRed(c.sib.left) && !IsRed(c.sib.right)
      && other == c.sib.n
    modifies root`rb_node, Nodes(Plug(c, t))
    ensures root.Holds(Plug(NephewUp(c), t)) && SameOrder(Plug(c, t), Plug(NephewUp(c), t))
    ensures Draining(NephewUp(c), t, h)
  {
    DrainView(root, c, t, h);
    ghost var s, l := c.sib, c.sib.left;
    ghost var cs := Frame(c.up, c.n, c.color, t, false);
    ghost var cl := Frame(cs, other, Black, s.right, true);
    assert Plug(cl, l) == Plug(cs, s) == Plug(c, t);
    LookAt(root, cl, l);
    LookAt(root, cs, s);
    var o_left := other.rb_left;
    if o_left != null {
      Paint(o_left, Black, root, cl, l);
    }
    ghost var s1 := Node(l.(color := Black), other, Black, s.right);
    assert Plug(cl, l.(color := Black)) == Plug(cs, s1);
    Paint(other, Red, root, cs, s1);
    RotateRightAt(other, root, cs, s1.(color := Red));
    assert NephewUp(c).sib == RotatedRight(s1.(color := Red));
    assert Plug(NephewUp(c), t) == Plug(cs, NephewUp(c).sib);
    assert Balanced(s, h + 1) && Balanced(l, h) && Balanced(NephewUp(c).sib, h + 1);
  }

  /** Black far nephew on the left: rotate the red near nephew into the sibling's place. */
  method EraseNephewLeft(other: RbNode, root: RbRoot, ghost c: Ctx, ghost t: Tree, ghost h: nat)
    requires root.Holds(Plug(c, t)) && Draining(c, t, h) && !IsRed(t)
    requires c.Frame? && !c.left && c.sib.Node? && !IsRed(c.sib) && IsRed(c.sib.right) && !IsRed(c.sib.left)
      && other == c.sib.n
    modifies root`rb_node, Nodes(Plug(c, t))
    ensures root.Holds(Plug(NephewUp(c), t)) && SameOrder(Plug(c, t), Plug(NephewUp(c), t))
    ensures Draining(NephewUp(c), t, h)
  {
    DrainView(root, c, t, h);
    ghost var s, r := c.sib, c.sib.right;
    ghost var cs := Frame(c.up, c.n, c.color, t, true);
    ghost var cr := Frame(cs, other, Black, s.left, false);
    assert Plug(cr, r) == Plug(cs, s) == Plug(c, t);
    LookAt(root, cr, r);
    LookAt(root, cs, s);
    var o_right := other.rb_right;
    if o_right != null {
      Paint(o_right, Black, root, cr, r);
    }
    ghost var s1 := Node(s.left, other, Black, r.(color := Black));
    assert Plug(cr, r.(color := Black)) == Plug(cs, s1);
    Paint(other, Red, root, cs, s1);
    RotateLeftAt(other, root, cs, s1.(color := Red));
    assert NephewUp(c).sib == RotatedLeft(s1.(color := Red));
    assert Plug(NephewUp(c), t) == Plug(cs, NephewUp(c).sib);
    assert Balanced(s, h + 1) && Balanced(r, h) && Balanced(NephewUp(c).sib, h + 1);
  }

  /** The red far nephew pays for the missing black node. */
  ghost function Repaid(c: Ctx, t: Tree): Tree
    requires c.Frame? && c.sib.Node?
  {
    var s := c.sib;
    if c.left then Node(Node(t, c.n, Black, s.left), s.n, c.color, Blackened(s.right))
    else Node(Blackened(s.left), s.n, c.color, Node(s.right, c.n, Black, t))
  }

  lemma RepaidBalanced(c: Ctx, t: Tree, h: nat)
    requires Draining(c, t, h) && !IsRed(t) && c.Frame? && c.sib.Node? && !IsRed(c.sib)
    requires if c.left then IsRed(c.sib.right) else IsRed(c.sib.left)
    ensures RedBlack(Plug(c.up, Repaid(c, t)))
  {
    assert Balanced(c.sib, h + 1);
    var k := if c.color.Red? then h + 1 else h + 2;
    var near, far := if c.left then c.sib.left else c.sib.right, if c.left then c.sib.right else c.sib.left;
    assert Balanced(near, h) && Balanced(far, h) && Balanced(far.left, h) && Balanced(far.right, h);
    var side := Join(c.left, t, c.n, Black, near);
    assert Balanced(side, h + 1) && Balanced(Blackened(far), h + 1);
    assert Repaid(c, t) == Join(c.left, side, c.sib.n, c.color, Blackened(far));
    assert Balanced(Repaid(c, t), k);
    PlugBalanced(c.up, Repaid(c, t), k);
  }

  /** Red far nephew on the right: the last rotation. */
  method EraseRepayRight(other: RbNode, parent: RbNode, root: RbRoot, ghost c: Ctx, ghost t: Tree, ghost h: nat)
    requires root.Holds(Plug(c, t)) && Draining(c, t, h) && !IsRed(t)
    requires c.Frame? && c.left && c.sib.Node? && !IsRed(c.sib) && IsRed(c.sib.right)
    requires other == c.sib.n && parent == c.n
    modifies root`rb_node, Nodes(Plug(c, t))
    ensures root.Holds(Plug(c.up, Repaid(c, t))) && SameOrder(Plug(c, t), Plug(c.up, Repaid(c, t)))
    ensures RedBlack(Plug(c.up, Repaid(c, t)))
  {
    RepaidBalanced(c, t, h);
    DrainView(root, c, t, h);
    ghost var s, r := c.sib, c.sib.right;
    ghost var cs := Frame(c.up, parent, c.color, t, false);
    assert Plug(cs, s) == Plug(c, t);
    LookAt(root, cs, s);
    LookAt(root, c, t);
    Paint(other, parent.rb_color, root, cs, s);
    ghost var s1 := s.(color := c.color);
    ghost var p := Node(t, parent, c.color, s1);
    assert Plug(cs, s1) == Plug(c.up, p);
    Paint(parent, Black, root, c.up, p);
    ghost var p1 := p.(color := Black);
    ghost var cr := Frame(Frame(c.up, parent, Black, t, false), other, c.color, s.left, false);
    assert Plug(cr, r) == Plug(c.up, p1);
    LookAt(root, cr, r);
    if other.rb_right != null {
      Paint(other.rb_right, Black, root, cr, r);
    }
    ghost var p2 := Node(t, parent, Black, Node(s.left, other, c.color, r.(color := Black)));
    assert Plug(cr, r.(color := Black)) == Plug(c.up, p2);
    RotateLeftAt(parent, root, c.up, p2);
  }

  /** Red far nephew on the left: the last rotation. */
  method EraseRepayLeft(other: RbNode, parent: RbNode, root: RbRoot, ghost c: Ctx, ghost t: Tree, ghost h: nat)
    requires root.Holds(Plug(c, t)) && Draining(c, t, h) && !IsRed(t)
    requires c.Frame? && !c.left && c.sib.Node? && !IsRed(c.sib) && IsRed(c.sib.left)
    requires other == c.sib.n && parent == c.n
    modifies root`rb_node, Nodes(Plug(c, t))
    ensures root.Holds(Plug(c.up, Repaid(c, t))) && SameOrder(Plug(c, t), Plug(c.up, Repaid(c, t)))
    ensures RedBlack(Plug(c.up, Repaid(c, t)))
  {
    RepaidBalanced(c, t, h);
    DrainView(root, c, t, h);
    ghost var s, l := c.sib, c.sib.left;
    ghost var cs := Frame(c.up, parent, c.color, t, true);
    assert Plug(cs, s) == Plug(c, t);
    LookAt(root, cs, s);
    LookAt(root, c, t);
    Paint(other, parent.rb_color, root, cs, s);
    ghost var s1 := s.(color := c.color);
    ghost var p := Node(s1, parent, c.color, t);
    assert Plug(cs, s1) == Plug(c.up, p);
    Paint(parent, Black, root, c.up, p);
    ghost var p1 := p.(color := Black);
    ghost var cl := Frame(Frame(c.up, parent, Black, t, true), other, c.color, s.right, true);
    assert Plug(cl, l) == Plug(c.up, p1);
    LookAt(root, cl, l);
    if other.rb_left != null {
      Paint(other.rb_left, Black, root, cl, l);
    }
    ghost var p2 := Node(Node(l.(color := Black), other, c.color, s.right), parent, Black, t);
    assert Plug(cl, l.(color := Black)) == Plug(c.up, p2);
    RotateRightAt(parent, root, c.up, p2);
  }

  /** One round of `__rb_erase_color` with the hole on the left. */
  method EraseRoundLeft(node: RbNode?, parent: RbNode, root: RbRoot, ghost c: Ctx, ghost t: Tree, ghost h: nat)
    returns (node': RbNode?, parent': RbNode?, done: bool, ghost c': Ctx, ghost t': Tree, ghost h': nat)
    requires root.Holds(Plug(c, t)) && Draining(c, t, h) && !IsRed(t)
    requires c.Frame? && c.left && parent == c.n && node == TopNode(t)
    modifies root`rb_node, Nodes(Plug(c, t))
    ensures root.Holds(Plug(c', t')) && SameOrder(Plug(c, t), Plug(c', t'))
    ensures Draining(c', t', h') && node' == TopNode(t') && parent' == HoleParent(c')
    ensures if done then c'.Top? else IsRed(t') || Depth(c') < Depth(c)
  {
    c', t', h', parent' := c, t, h, parent;
    DrainView(root, c, t, h);
    var other := parent.rb_right;
    if other.rb_color.Red? {
      EraseRedRight(other, parent, root, c, t, h);
      c' := RedSiblingUp(c);
      DrainView(root, c', t, h);
      other := parent.rb_right;
    }
    if (other.rb_left == null || other.rb_left.rb_color.Black?)
       && (other.rb_right == null || other.rb_right.rb_color.Black?) {
      t', h' := EraseRecolor(other, root, c', t, h);
      c' := c'.up;
      done, node' := false, parent;
      LookAt(root, c', t');
      parent' := parent.rb_parent;
    } else {
      if other.rb_right == null || other.rb_right.rb_color.Black? {
        EraseNephewRight(other, root, c', t, h);
        c' := NephewUp(c');
        DrainView(root, c', t, h);
        other := parent.rb_right;
      }
      EraseRepayRight(other, parent, root, c', t, h);
      c', t' := Top, Plug(c'.up, Repaid(c', t));
      h' := BlackHeight(t');
      done, node', parent' := true, root.rb_node, null;
    }
  }

  /** One round of `__rb_erase_color` with the hole on the right. */
  method EraseRoundRight(node: RbNode?, parent: RbNode, root: RbRoot, ghost c: Ctx, ghost t: Tree, ghost h: nat)
    returns (node': RbNode?, parent': RbNode?, done: bool, ghost c': Ctx, ghost t': Tree, ghost h': nat)
    requires root.Holds(Plug(c, t)) && Draining(c, t, h) && !IsRed(t)
    requires c.Frame? && !c.left && parent == c.n && node == TopNode(t)
    modifies root`rb_node, Nodes(Plug(c, t))
    ensures root.Holds(Plug(c', t')) && SameOrder(Plug(c, t), Plug(c', t'))
    ensures Draining(c', t', h') && node' == TopNode(t') && parent' == HoleParent(c')
    ensures if done then c'.Top? else IsRed(t') || Depth(c') < Depth(c)
  {
    c', t', h', parent' := c, t, h, parent;
    DrainView(root, c, t, h);
    var other := parent.rb_left;
    if other.rb_color.Red? {
      EraseRedLeft(other, parent, root, c, t, h);
      c' := RedSiblingUp(c);
      DrainView(root, c', t, h);
      other := parent.rb_left;
    }
    if (other.rb_left == null || other.rb_left.rb_color.Black?)
       && (other.rb_right == null || other.rb_right.rb_color.Black?) {
      t', h' := EraseRecolor(other, root, c', t, h);
      c' := c'.up;
      done, node' := false, parent;
      LookAt(root, c', t');
      parent' := parent.rb_parent;
    } else {
      if other.rb_left == null || other.rb_left.rb_color.Black? {
        EraseNephewLeft(other, root, c', t, h);
        c' := NephewUp(c');
        DrainView(root, c', t, h);
        other := parent.rb_left;
      }
      EraseRepayLeft(other, parent, root, c', t, h);
      c', t' := Top, Plug(c'.up, Repaid(c', t));
      h' := BlackHeight(t');
      done, node', parent' := true, root.rb_node, null;
    }
  }

  /** `__rb_erase_color`: pays back the black node that a removal took from the paths through the hole. */
  method EraseColor(node: RbNode?, parent: RbNode?, root: RbRoot, ghost c: Ctx, ghost t: Tree, ghost h: nat)
    requires root.Holds(Plug(c, t)) && Draining(c, t, h)
    requires node == TopNode(t) && parent == HoleParent(c)
    modifies root, Nodes(Plug(c, t))
    ensures root.Valid() && SameOrder(Plug(c, t), root.tree)
  {
    var node, parent := node, parent;
    ghost var c0, t0, c, t, h := c, t, c, t, h;
    while (node == null || node.rb_color.Black?) && node != root.rb_node
      invariant root.Holds(Plug(c, t)) && SameOrder(Plug(c0, t0), Plug(c, t))
      invariant Draining(c, t, h) && node == TopNode(t) && parent == HoleParent(c)
      decreases if IsRed(t) then 0 else 1 + Depth(c)
    {
      LookAt(root, c, t);
      var done;
      if parent.rb_left == node {
        node, parent, done, c, t, h := EraseRoundLeft(node, parent, root, c, t, h);
      } else {
        node, parent, done, c, t, h := EraseRoundRight(node, parent, root, c, t, h);
      }
      if done {
        break;
      }
    }
    LookAt(root, c, t);
    BlackenDrained(node, root, c, t, h);
  }

  /** The end of `__rb_erase_color`. */
  method BlackenDrained(node: RbNode?, root: RbRoot, ghost c: Ctx, ghost t: Tree, ghost h: nat)
    requires root.Holds(Plug(c, t)) && Draining(c, t, h) && node == TopNode(t) && (IsRed(t) || c.Top?)
    modifies root, Nodes(Plug(c, t))
    ensures root.Valid() && SameOrder(Plug(c, t), root.tree)
  {
    LookAt(root, c, t);
    DrainedBalanced(c, t, h);
    if node != null {
      Paint(node, Black, root, c, t);
    }
    root.tree := Plug(c, Blackened(t));
    root.ValidHolds();
  }
}
