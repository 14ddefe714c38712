/** `rb_erase` and `rb_replace_node` of kernel-rbtree.c. */
module RbErase {
  import opened RbShape
  import opened RbTree

  // ---- taking a node with at most one child out ----

  ghost predicate OneChild(t: Tree) {
    t.Node? && (t.left.Leaf? || t.right.Leaf?)
  }

  ghost function OnlyChild(t: Tree): Tree
    requires OneChild(t)
  {
    if t.left.Leaf? then t.right else t.left
  }

  lemma UnlinkPlan(c: Ctx, t: Tree)
    requires OneChild(t) && Distinct(Plug(c, t))
    ensures var x, p, t', s, s' := t.n, HoleParent(c), OnlyChild(t), Plug(c, t), Plug(c, OnlyChild(t));
      && Distinct(s') && Nodes(s') == Nodes(s) - {x} && x in Nodes(s)
      && CellOf(s, null, x) == Cell(p, t.color, TopNode(t.left), TopNode(t.right))
      && (t'.Node? ==>
        && t'.n in Nodes(s') && t'.n != p && CellOf(s, null, t'.n).parent == x
        && CellOf(s', null, t'.n) == CellOf(s, null, t'.n).(parent := p))
      && (p != null ==> p in Nodes(s') && TopNode(c.sib) != x
                        && CellOf(s, null, p) == FrameCell(c, x) && CellOf(s', null, p) == FrameCell(c, TopNode(t')))
      && TopNode(s') == (if p == null then TopNode(t') else TopNode(s))
      && forall n :: n in Nodes(s') && n != p && n != TopNode(t') ==> CellOf(s', null, n) == CellOf(s, null, n)
  {
    var t' := OnlyChild(t);
    Planted(c, t);
    Replant(c, t, t');
    Planted(c, t');
    forall n | n in Nodes(t')
      ensures CellOf(t, HoleParent(c), n) == CellOf(t', t.n, n)
    {
    }
    assert t'.Node? ==> t'.n in Nodes(t');
  }

  /** Point `parent` (or the root) past `node` at its only child. */
  method Unlink(node: RbNode, child: RbNode?, parent: RbNode?, root: RbRoot, ghost c: Ctx, ghost t: Tree)
    requires OneChild(t) && t.n == node && root.Holds(Plug(c, t))
    requires child == TopNode(OnlyChild(t)) && parent == HoleParent(c)
    modifies root`rb_node, Nodes(Plug(c, t)) - {node}
    ensures root.Holds(Plug(c, OnlyChild(t)))
  {
    UnlinkPlan(c, t);
    if child != null {
      child.rb_parent := parent;
    }
    if parent != null {
      if parent.rb_left == node {
        parent.rb_left := child;
      } else {
        parent.rb_right := child;
      }
    } else {
      root.rb_node := child;
    }
  }

  /** Taking a red node with at most one child out keeps the balance; taking a
      black one out leaves its child one black node short. */
  lemma UnlinkedBalance(c: Ctx, t: Tree)
    requires OneChild(t) && RedBlack(Plug(c, t))
    ensures if t.color.Red? then OnlyChild(t) == Leaf && CtxBalanced(c, 0)
            else Draining(c, OnlyChild(t), 0)
  {
    PartBalanced(c, t);
    PlugBalanced(c, t, BlackHeight(t));
    var k := if t.color.Red? then BlackHeight(t) else BlackHeight(t) - 1;
    assert Balanced(t.left, k) && Balanced(t.right, k);
    assert k == 0;
  }

  // ---- putting one node in the place of another ----

  lemma TakePlacePlan(c: Ctx, t: Tree, y: RbNode)
    requires t.Node? && Distinct(Plug(c, t)) && y !in Nodes(Plug(c, t))
    ensures var x, p, l, r, t', s, s' := t.n, HoleParent(c), TopNode(t.left), TopNode(t.right), t.(n := y),
        Plug(c, t), Plug(c, t.(n := y));
      && Distinct(s') && Nodes(s') == Nodes(s) - {x} + {y} && x in Nodes(s)
      && CellOf(s, null, x) == Cell(p, t.color, l, r) && CellOf(s', null, y) == Cell(p, t.color, l, r)
      && (l != null ==>
        && l in Nodes(s') && l in Nodes(s) && l != p && l != r
        && CellOf(s', null, l) == CellOf(s, null, l).(parent := y))
      && (r != null ==>
        && r in Nodes(s') && r in Nodes(s) && r != p
        && CellOf(s', null, r) == CellOf(s, null, r).(parent := y))
      && (p != null ==> p in Nodes(s') && p in Nodes(s) && TopNode(c.sib) != x
                        && CellOf(s, null, p) == FrameCell(c, x) && CellOf(s', null, p) == FrameCell(c, y))
      && TopNode(s') == (if p == null then y else TopNode(s))
      && forall n :: n in Nodes(s) && n != x && n != p && n != l && n != r ==> CellOf(s', null, n) == CellOf(s, null, n)
  {
    var t' := t.(n := y);
    Planted(c, t);
    PlugDistinct(c, t');
    Planted(c, t');
    PlugTop(c, t, t');
    forall n | n in CtxNodes(c) && n != HoleParent(c)
      ensures CellOf(Plug(c, t'), null, n) == CellOf(Plug(c, t), null, n)
    {
      PlugCells(c, t, n);
      PlugCells(c, t', n);
    }
    assert t.left.Node? ==> t.left.n in Nodes(t.left);
    assert t.right.Node? ==> t.right.n in Nodes(t.right);
    forall n | n in Nodes(t.left)
      ensures CellOf(t, HoleParent(c), n) == CellOf(t.left, t.n, n)
        && CellOf(t', HoleParent(c), n) == CellOf(t.left, y, n)
    {
    }
    forall n | n in Nodes(t.right)
      ensures CellOf(t, HoleParent(c), n) == CellOf(t.right, t.n, n)
        && CellOf(t', HoleParent(c), n) == CellOf(t.right, y, n)
    {
    }
  }

  ghost predicate Replaceable(y: RbNode, x: RbNode, p: RbNode?, l: RbNode?, r: RbNode?) {
    && y != x && p !in {x, y} && l !in {x, y} && r !in {x, y}
    && (l == null || (l != p && l != r)) && (r == null || r != p)
  }

  /** The second half of the two-children case of `rb_erase`: `node` takes over the links of `old_`. */
  method TakeLinks(node: RbNode, old_: RbNode, root: RbRoot)
    requires old_.rb_left != null
    requires Replaceable(node, old_, old_.rb_parent, old_.rb_left, old_.rb_right)
    modifies root`rb_node, node, Opt(old_.rb_left)`rb_parent, Opt(old_.rb_right)`rb_parent
    modifies Opt(old_.rb_parent)`rb_left, Opt(old_.rb_parent)`rb_right
    ensures var p, l, r := old(old_.rb_parent), old(old_.rb_left), old(old_.rb_right);
      && Fields(node, Cell(p, old(old_.rb_color), l, r))
      && (l != null ==> l.rb_parent == node) && (r != null ==> r.rb_parent == node)
      && root.rb_node == (if p == null then node else old(root.rb_node))
      && (p != null ==> if old(p.rb_left) == old_ then p.rb_left == node && p.rb_right == old(p.rb_right)
                        else p.rb_right == node && p.rb_left == old(p.rb_left))
  {
    node.rb_parent := old_.rb_parent;
    node.rb_color := old_.rb_color;
    node.rb_right := old_.rb_right;
    node.rb_left := old_.rb_left;

    if old_.rb_parent != null {
      if old_.rb_parent.rb_left == old_ {
        old_.rb_parent.rb_left := node;
      } else {
        old_.rb_parent.rb_right := node;
      }
    } else {
      root.rb_node := node;
    }

    old_.rb_left.rb_parent := node;
    if old_.rb_right != null {
      old_.rb_right.rb_parent := node;
    }
  }

  method TakePlace(node: RbNode, old_: RbNode, root: RbRoot, ghost c: Ctx, ghost t: Tree)
    requires t.Node? && t.n == old_ && t.left.Node? && root.Holds(Plug(c, t)) && node !in Nodes(Plug(c, t))
    modifies root`rb_node, node, Nodes(Plug(c, t)) - {old_}
    ensures root.Holds(Plug(c, t.(n := node)))
  {
    TakePlacePlan(c, t, node);
    assert allocated(Nodes(Plug(c, t)));
    assert Fields(old_, Cell(HoleParent(c), t.color, TopNode(t.left), TopNode(t.right)));
    TakeLinks(node, old_, root);
  }

  /** `rb_replace_node` on the fields of the nodes around `victim`. */
  method ReplaceLinks(old_: RbNode, node: RbNode, root: RbRoot)
    requires Replaceable(node, old_, old_.rb_parent, old_.rb_left, old_.rb_right)
    modifies root`rb_node, node, Opt(old_.rb_left)`rb_parent, Opt(old_.rb_right)`rb_parent
    modifies Opt(old_.rb_parent)`rb_left, Opt(old_.rb_parent)`rb_right
    ensures var p, l, r := old(old_.rb_parent), old(old_.rb_left), old(old_.rb_right);
      && Fields(node, Cell(p, old(old_.rb_color), l, r))
      && (l != null ==> l.rb_parent == node) && (r != null ==> r.rb_parent == node)
      && root.rb_node == (if p == null then node else old(root.rb_node))
      && (p != null ==> if old(p.rb_left) == old_ then p.rb_left == node && p.rb_right == old(p.rb_right)
                        else p.rb_right == node && p.rb_left == old(p.rb_left))
  {
    var parent := old_.rb_parent;
    if parent != null {
      if old_ == parent.rb_left {
        parent.rb_left := node;
      } else {
        parent.rb_right := node;
      }
    } else {
      root.rb_node := node;
    }
    if old_.rb_left != null {
      old_.rb_left.rb_parent := node;
    }
    if old_.rb_right != null {
      old_.rb_right.rb_parent := node;
    }
    node.rb_parent, node.rb_color := old_.rb_parent, old_.rb_color;
    node.rb_right, node.rb_left := old_.rb_right, old_.rb_left;
  }

  method ReplaceAt(victim: RbNode, node: RbNode, root: RbRoot, ghost c: Ctx, ghost t: Tree)
    requires t.Node? && t.n == victim && root.Holds(Plug(c, t)) && node !in Nodes(Plug(c, t))
    modifies root`rb_node, node, Nodes(Plug(c, t)) - {victim}
    ensures root.Holds(Plug(c, t.(n := node)))
  {
    TakePlacePlan(c, t, node);
    assert allocated(Nodes(Plug(c, t)));
    assert Fields(victim, Cell(HoleParent(c), t.color, TopNode(t.left), TopNode(t.right)));
    ReplaceLinks(victim, node, root);
  }

  lemma ReplacedInOrder(c: Ctx, t: Tree, y: RbNode)
    requires t.Node? && RedBlack(Plug(c, t))
    ensures RedBlack(Plug(c, t.(n := y)))
    ensures Inorder(Plug(c, t.(n := y))) == Before(c) + Inorder(t.left) + [y] + Inorder(t.right) + After(c)
  {
    PartBalanced(c, t);
    PlugBalanced(c, t, BlackHeight(t));
    PlugBalanced(c, t.(n := y), BlackHeight(t));
    PlugInorder(c, t.(n := y));
    Regroup'(Before(c), Inorder(t.left), [y], Inorder(t.right), After(c));
  }

  /** `rb_replace_node`: the tree afterwards is the tree before with the new node for the victim. */
  method ReplaceNode(victim: RbNode, node: RbNode, root: RbRoot, ghost c: Ctx, ghost t: Tree)
    requires t.Node? && t.n == victim && root.tree == Plug(c, t) && root.Valid() && node !in Nodes(root.tree)
    modifies root, node, Nodes(root.tree) - {victim}
    ensures root.Valid() && root.tree == Plug(c, t.(n := node))
    ensures Inorder(root.tree) == Before(c) + Inorder(t.left) + [node] + Inorder(t.right) + After(c)
  {
    root.ValidHolds();
    ReplacedInOrder(c, t, node);
    ReplaceAt(victim, node, root, c, t);
    root.tree := Plug(c, t.(n := node));
    root.ValidHolds();
  }

  // ---- the way down to the successor ----

  /** `c` is `base` followed by steps to the left. */
  ghost predicate Above(c: Ctx, base: Ctx) {
    c == base || (c.Frame? && c.left && Above(c.up, base))
  }

  /** The tree in the hole of `base` when `t` is in the hole of `c`. */
  ghost function PlugTo(c: Ctx, base: Ctx, t: Tree): Tree {
    if c == base || c.Top? then t else PlugTo(c.up, base, Join(c.left, t, c.n, c.color, c.sib))
  }

  /** The nodes that come after the hole of `c` and belong to the hole of `base`. */
  ghost function Between(c: Ctx, base: Ctx): seq<RbNode> {
    if c == base || c.Top? then [] else [c.n] + Inorder(c.sib) + Between(c.up, base)
  }

  /** `c` with `base'` for `base`. */
  ghost function Rebase(c: Ctx, base: Ctx, base': Ctx): Ctx {
    if c == base || c.Top? then base' else c.(up := Rebase(c.up, base, base'))
  }

  lemma {:induction false} PlugAbove(c: Ctx, base: Ctx, base': Ctx, t: Tree)
    requires Above(c, base)
    ensures Plug(c, t) == Plug(base, PlugTo(c, base, t))
    ensures Plug(Rebase(c, base, base'), t) == Plug(base', PlugTo(c, base, t))
    ensures Inorder(PlugTo(c, base, t)) == Inorder(t) + Between(c, base)
    ensures HoleParent(Rebase(c, base, base')) == if c == base then HoleParent(base') else HoleParent(c)
  {
    if c != base {
      var t' := Join(c.left, t, c.n, c.color, c.sib);
      PlugAbove(c.up, base, base', t');
      assert Inorder(t') + Between(c.up, base) == Inorder(t) + ([c.n] + Inorder(c.sib) + Between(c.up, base));
    }
  }

  /** Changing the node of the base frame, not its colour, changes no balance. */
  lemma {:induction false} RebaseBalanced(c: Ctx, base: Ctx, y: RbNode, h: nat)
    requires Above(c, base) && base.Frame? && CtxBalanced(c, h)
    ensures CtxBalanced(Rebase(c, base, base.(n := y)), h)
  {
    if c != base {
      RebaseBalanced(c.up, base, y, if c.color.Red? then h else h + 1);
    }
  }

  /** A node of a context lies on the base frame only if the context is the base. */
  lemma {:induction false} BaseParent(c: Ctx, base: Ctx)
    requires Above(c, base) && base.Frame? && CtxDistinct(c)
    ensures base.n in CtxNodes(c) && (HoleParent(c) == base.n <==> c == base)
  {
    if c != base {
      BaseParent(c.up, base);
    }
  }

  // ---- rb_erase ----

  function Remove<T(==)>(s: seq<T>, x: T): seq<T> {
    if s == [] then [] else (if s[0] == x then [] else [s[0]]) + Remove(s[1..], x)
  }

  lemma {:induction false} RemoveOther<T>(s: seq<T>, x: T)
    requires x !in s
    ensures Remove(s, x) == s
  {
    if s != [] {
      RemoveOther(s[1..], x);
    }
  }

  lemma {:induction false} RemoveMiddle<T>(a: seq<T>, x: T, b: seq<T>)
    requires x !in a && x !in b
    ensures Remove(a + [x] + b, x) == a + b
  {
    if a == [] {
      RemoveOther(b, x);
      assert (a + [x] + b)[1..] == b && a + b == b;
    } else {
      RemoveMiddle(a[1..], x, b);
      assert (a + [x] + b)[1..] == a[1..] + [x] + b;
      assert a + b == [a[0]] + (a[1..] + b);
    }
  }

  lemma {:induction false} InorderNodes(t: Tree, n: RbNode)
    ensures n in Inorder(t) <==> n in Nodes(t)
  {
    if t.Node? {
      InorderNodes(t.left, n);
      InorderNodes(t.right, n);
    }
  }

  lemma {:induction false} BeforeAfterNodes(c: Ctx, n: RbNode)
    ensures n in Before(c) || n in After(c) <==> n in CtxNodes(c)
  {
    if c.Frame? {
      BeforeAfterNodes(c.up, n);
      InorderNodes(c.sib, n);
    }
  }

  lemma Centered(a: seq<RbNode>, b: seq<RbNode>, x: RbNode, d: seq<RbNode>, e: seq<RbNode>)
    ensures a + (b + [x] + d) + e == (a + b) + [x] + (d + e)
  {}

  /** The order without the root of the tree in the hole. */
  lemma OrderWithout(c: Ctx, t: Tree)
    requires t.Node? && Distinct(Plug(c, t))
    ensures Remove(Inorder(Plug(c, t)), t.n) == Before(c) + Inorder(t.left) + (Inorder(t.right) + After(c))
  {
    Planted(c, t);
    PlugInorder(c, t);
    BeforeAfterNodes(c, t.n);
    InorderNodes(t.left, t.n);
    InorderNodes(t.right, t.n);
    var a, b := Before(c) + Inorder(t.left), Inorder(t.right) + After(c);
    Centered(Before(c), Inorder(t.left), t.n, Inorder(t.right), After(c));
    RemoveMiddle(a, t.n, b);
  }

  lemma Shifted(a: seq<RbNode>, b: seq<RbNode>, x: RbNode, d: seq<RbNode>, e: seq<RbNode>)
    ensures a + (b + [x] + d) + e == a + b + ([x] + d + e)
  {}

  /** The tree with the successor `s.n`, found below `base`, taken out and put in the place of `t.n`. */
  lemma SuccessorTrees(c: Ctx, t: Tree, cs: Ctx, s: Tree, base: Ctx, r: Tree)
    requires t.Node? && s.Node? && s.left.Leaf?
    requires base == Frame(c, t.n, t.color, t.left, false)
    requires Above(cs, base) && PlugTo(cs, base, s) == t.right && r == PlugTo(cs, base, s.right)
    ensures Plug(cs, s) == Plug(c, t) && Plug(cs, s.right) == Plug(c, t.(right := r))
    ensures Plug(Rebase(cs, base, base.(n := s.n)), s.right) == Plug(c, Node(t.left, s.n, t.color, r))
  {
    PlugAbove(cs, base, base.(n := s.n), s);
    PlugAbove(cs, base, base.(n := s.n), s.right);
    PlugFrame(c, t.n, t.color, t.left, t.right);
    PlugFrame(c, t.n, t.color, t.left, r);
    PlugFrame(c, s.n, t.color, t.left, r);
  }

  /** The successor is the first node of the subtree it was found in. */
  lemma SuccessorFirst(cs: Ctx, s: Tree, base: Ctx)
    requires s.Node? && s.left.Leaf? && Above(cs, base)
    ensures Inorder(PlugTo(cs, base, s)) == [s.n] + Inorder(PlugTo(cs, base, s.right))
  {
    PlugAbove(cs, base, base, s);
    PlugAbove(cs, base, base, s.right);
    FirstOut(s.n, Inorder(s.right), Between(cs, base));
  }

  lemma FirstOut(x: RbNode, d: seq<RbNode>, e: seq<RbNode>)
    ensures [] + [x] + d + e == [x] + (d + e)
  {}

  lemma PlugFrame(c: Ctx, n: RbNode, color: Color, l: Tree, r: Tree)
    ensures Plug(Frame(c, n, color, l, false), r) == Plug(c, Node(l, n, color, r))
  {}

  lemma SuccessorOrder(c: Ctx, t: Tree, y: RbNode, r: Tree)
    requires t.Node? && Distinct(Plug(c, t)) && Inorder(t.right) == [y] + Inorder(r)
    ensures Inorder(Plug(c, Node(t.left, y, t.color, r))) == Remove(Inorder(Plug(c, t)), t.n)
  {
    OrderWithout(c, t);
    PlugInorder(c, Node(t.left, y, t.color, r));
    Shifted(Before(c), Inorder(t.left), y, Inorder(r), After(c));
  }

  lemma SuccessorBalance(cs: Ctx, s: Tree, base: Ctx)
    requires s.Node? && s.left.Leaf? && RedBlack(Plug(cs, s)) && Distinct(Plug(cs, s))
    requires base.Frame? && Above(cs, base)
    ensures var cs' := Rebase(cs, base, base.(n := s.n));
      && (HoleParent(cs) == base.n <==> cs == base)
      && HoleParent(cs') == (if HoleParent(cs) == base.n then s.n else HoleParent(cs))
      && if s.color.Red? then RedBlack(Plug(cs', s.right)) else Draining(cs', s.right, 0)
  {
    var cs' := Rebase(cs, base, base.(n := s.n));
    PlugDistinct(cs, s);
    BaseParent(cs, base);
    PlugAbove(cs, base, base.(n := s.n), s);
    UnlinkedBalance(cs, s);
    RebaseBalanced(cs, base, s.n, if s.color.Red? then 0 else 1);
    if s.color.Red? {
      PlugBalanced(cs', s.right, 0);
    }
  }

  /** Find the leftmost node of the right subtree: the next node in order. */
  method Successor(old_: RbNode, root: RbRoot, ghost c: Ctx, ghost t: Tree)
    returns (node: RbNode, ghost cs: Ctx, ghost s: Tree)
    requires t.Node? && t.n == old_ && t.right.Node? && root.Holds(Plug(c, t))
    ensures s.Node? && s.n == node && s.left.Leaf? && Plug(cs, s) == Plug(c, t) && root.Holds(Plug(c, t))
    ensures var base := Frame(c, t.n, t.color, t.left, false);
      Above(cs, base) && PlugTo(cs, base, s) == t.right
    ensures 0 < |Inorder(t.right)| && node == Inorder(t.right)[0]
  {
    LookAt(root, c, t);
    node := old_.rb_right;
    ghost var base := Frame(c, t.n, t.color, t.left, false);
    cs, s := base, t.right;
    assert Plug(cs, s) == Plug(c, t);
    LookAt(root, cs, s);
    var left := node.rb_left;
    while left != null
      invariant s.Node? && s.n == node && Plug(cs, s) == Plug(c, t) && root.Holds(Plug(c, t))
      invariant Above(cs, base) && PlugTo(cs, base, s) == t.right && Depth(cs) >= Depth(base)
      invariant left == TopNode(s.left)
      decreases s
    {
      cs, s := Frame(cs, s.n, s.color, s.right, true), s.left;
      node := left;
      assert Plug(cs, s) == Plug(c, t);
      LookAt(root, cs, s);
      left := node.rb_left;
    }
    SuccessorFirst(cs, s, base);
  }

  /** What taking out a node with at most one child does to order, node set and balance. */
  lemma OneChildPlan(c: Ctx, t: Tree)
    requires OneChild(t) && RedBlack(Plug(c, t)) && Distinct(Plug(c, t))
    ensures Inorder(Plug(c, OnlyChild(t))) == Remove(Inorder(Plug(c, t)), t.n)
    ensures Nodes(Plug(c, OnlyChild(t))) == Nodes(Plug(c, t)) - {t.n}
    ensures if t.color.Red? then RedBlack(Plug(c, OnlyChild(t))) else Draining(c, OnlyChild(t), 0)
  {
    var s := OnlyChild(t);
    OrderWithout(c, t);
    PlugInorder(c, s);
    Shifted'(Before(c), Inorder(t.left), Inorder(t.right), After(c));
    UnlinkPlan(c, t);
    UnlinkedBalance(c, t);
    if t.color.Red? {
      PlugBalanced(c, s, 0);
    }
  }

  lemma Shifted'(a: seq<RbNode>, b: seq<RbNode>, d: seq<RbNode>, e: seq<RbNode>)
    ensures a + b + (d + e) == a + (b + d) + e
    ensures b + [] == b && [] + d == d
  {}

  /** The end of `rb_erase`: a black node that was unlinked is paid back. */
  method Settle(child: RbNode?, parent: RbNode?, color: Color, root: RbRoot, ghost c: Ctx, ghost t: Tree)
    requires root.Holds(Plug(c, t)) && (if color.Red? then RedBlack(Plug(c, t)) else Draining(c, t, 0))
    requires child == TopNode(t) && parent == HoleParent(c)
    modifies root, Nodes(Plug(c, t))
    ensures root.Valid() && SameOrder(Plug(c, t), root.tree)
  {
    if color.Black? {
      EraseColor(child, parent, root, c, t, 0);
    } else {
      root.tree := Plug(c, t);
      root.ValidHolds();
    }
  }

  method EraseOneChild(node: RbNode, root: RbRoot, ghost c: Ctx, ghost t: Tree)
    requires OneChild(t) && t.n == node && root.Holds(Plug(c, t)) && RedBlack(Plug(c, t))
    modifies root, Nodes(Plug(c, t))
    ensures root.Valid() && Inorder(root.tree) == Remove(Inorder(Plug(c, t)), node)
    ensures Nodes(root.tree) == Nodes(Plug(c, t)) - {node}
  {
    LookAt(root, c, t);
    OneChildPlan(c, t);
    var child;
    if node.rb_left == null {
      child := node.rb_right;
    } else {
      child := node.rb_left;
    }
    var parent := node.rb_parent;
    var color := node.rb_color;
    Unlink(node, child, parent, root, c, t);
    Settle(child, parent, color, root, c, OnlyChild(t));
  }

  lemma UnlinkNodes(c: Ctx, t: Tree)
    requires OneChild(t) && Distinct(Plug(c, t))
    ensures Distinct(Plug(c, OnlyChild(t))) && Nodes(Plug(c, OnlyChild(t))) == Nodes(Plug(c, t)) - {t.n}
      && t.n in Nodes(Plug(c, t))
  {
    UnlinkPlan(c, t);
  }

  lemma TakePlaceNodes(c: Ctx, t: Tree, y: RbNode)
    requires t.Node? && Distinct(Plug(c, t)) && y !in Nodes(Plug(c, t))
    ensures Nodes(Plug(c, t.(n := y))) == Nodes(Plug(c, t)) - {t.n} + {y}
  {
    TakePlacePlan(c, t, y);
  }

  /** The nodes of the two-children case. */
  lemma SuccessorNodes(c: Ctx, t: Tree, cs: Ctx, s: Tree, base: Ctx, r: Tree)
    requires t.Node? && s.Node? && s.left.Leaf? && Distinct(Plug(c, t))
    requires base == Frame(c, t.n, t.color, t.left, false)
    requires Above(cs, base) && PlugTo(cs, base, s) == t.right && r == PlugTo(cs, base, s.right)
    ensures var mid, cs' := t.(right := r), Rebase(cs, base, base.(n := s.n));
      && Plug(cs, s) == Plug(c, t) && Plug(cs, s.right) == Plug(c, mid)
      && Plug(cs', s.right) == Plug(c, mid.(n := s.n))
      && Nodes(Plug(cs', s.right)) == Nodes(Plug(c, t)) - {t.n}
      && s.n !in Nodes(Plug(c, mid)) && Nodes(Plug(c, mid)) <= Nodes(Plug(c, t)) && {s.n, t.n} <= Nodes(Plug(c, t))
  {
    SuccessorTrees(c, t, cs, s, base, r);
    UnlinkNodes(cs, s);
    SuccessorOther(c, t, cs, s, base);
    TakePlaceNodes(c, t.(right := r), s.n);
  }

  /** Everything the two-children case relies on: trees and nodes, then order. */
  lemma SuccessorPlan(c: Ctx, t: Tree, cs: Ctx, s: Tree, base: Ctx, r: Tree)
    requires t.Node? && s.Node? && s.left.Leaf? && Distinct(Plug(c, t))
    requires base == Frame(c, t.n, t.color, t.left, false)
    requires Above(cs, base) && PlugTo(cs, base, s) == t.right && r == PlugTo(cs, base, s.right)
    ensures var mid, cs' := t.(right := r), Rebase(cs, base, base.(n := s.n));
      && Plug(cs, s) == Plug(c, t) && Plug(cs, s.right) == Plug(c, mid)
      && Plug(cs', s.right) == Plug(c, mid.(n := s.n))
      && Nodes(Plug(cs', s.right)) == Nodes(Plug(c, t)) - {t.n}
      && s.n !in Nodes(Plug(c, mid)) && Nodes(Plug(c, mid)) <= Nodes(Plug(c, t)) && {s.n, t.n} <= Nodes(Plug(c, t))
      && Inorder(Plug(cs', s.right)) == Remove(Inorder(Plug(c, t)), t.n)
  {
    SuccessorNodes(c, t, cs, s, base, r);
    SuccessorFirst(cs, s, base);
    SuccessorOrder(c, t, s.n, r);
  }

  lemma SuccessorOther(c: Ctx, t: Tree, cs: Ctx, s: Tree, base: Ctx)
    requires t.Node? && s.Node? && Distinct(Plug(c, t)) && Plug(cs, s) == Plug(c, t)
    requires base == Frame(c, t.n, t.color, t.left, false) && Above(cs, base)
    ensures s.n != t.n && t.n in Nodes(Plug(c, t))
  {
    PlugDistinct(cs, s);
    BaseParent(cs, base);
    Planted(c, t);
  }

  method EraseTwoChildren(old_: RbNode, root: RbRoot, ghost c: Ctx, ghost t: Tree)
    requires t.Node? && t.left.Node? && t.right.Node? && t.n == old_
    requires root.Holds(Plug(c, t)) && RedBlack(Plug(c, t))
    modifies root, Nodes(Plug(c, t))
    ensures root.Valid() && Inorder(root.tree) == Remove(Inorder(Plug(c, t)), old_)
    ensures Nodes(root.tree) == Nodes(Plug(c, t)) - {old_}
  {
    ghost var base := Frame(c, t.n, t.color, t.left, false);
    var node;
    ghost var cs, s;
    node, cs, s := Successor(old_, root, c, t);
    ghost var r := PlugTo(cs, base, s.right);
    SuccessorPlan(c, t, cs, s, base, r);
    SuccessorBalance(cs, s, base);
    LookAt(root, cs, s);

    var child := node.rb_right;
    var parent := node.rb_parent;
    var color := node.rb_color;
    Unlink(node, child, parent, root, cs, s);

    if node.rb_parent == old_ {
      parent := node;
    }
    TakePlace(node, old_, root, c, t.(right := r));

    Settle(child, parent, color, root, Rebase(cs, base, base.(n := node)), s.right);
  }

  /** `rb_erase`: the tree loses exactly `node`, keeps the order of the rest, and is red-black again. */
  method Erase(node: RbNode, root: RbRoot)
    requires root.Valid() && node in Nodes(root.tree)
    modifies root, Nodes(root.tree)
    ensures root.Valid() && Inorder(root.tree) == Remove(old(Inorder(root.tree)), node)
    ensures Nodes(root.tree) == old(Nodes(root.tree)) - {node}
  {
    root.ValidHolds();
    ghost var c, t := Focus(Top, root.tree, node);
    LookAt(root, c, t);
    if node.rb_left == null || node.rb_right == null {
      EraseOneChild(node, root, c, t);
    } else {
      EraseTwoChildren(node, root, c, t);
    }
  }
}
