/** The pointer structure of the red-black tree (kernel-rbtree.h) and the
    inductive trees and one-hole contexts that describe what it holds. */
module RbShape {

  datatype Color = Red | Black

  /** `struct rb_node`.  `id` is the address of the structure the node is
      embedded in; `rb_entry` recovers it. */
  class RbNode {
    var rb_parent: RbNode?
    var rb_color: Color
    var rb_right: RbNode?
    var rb_left: RbNode?
    const id: nat

    constructor (id: nat)
      ensures this.id == id && rb_parent == null && rb_left == null && rb_right == null && rb_color == Red
    {
      this.id := id;
      rb_parent, rb_left, rb_right, rb_color := null, null, null, Red;
    }
  }

  datatype Tree = Leaf | Node(left: Tree, n: RbNode, color: Color, right: Tree)

  /** A tree with a hole: `left` says on which side of `n` the hole is. */
  datatype Ctx = Top | Frame(up: Ctx, n: RbNode, color: Color, sib: Tree, left: bool)

  ghost function Join(left: bool, t: Tree, n: RbNode, color: Color, sib: Tree): Tree {
    if left then Node(t, n, color, sib) else Node(sib, n, color, t)
  }

  ghost function Plug(c: Ctx, t: Tree): Tree {
    match c
    case Top => t
    case Frame(up, n, color, sib, left) => Plug(up, Join(left, t, n, color, sib))
  }

  ghost function Depth(c: Ctx): nat {
    match c
    case Top => 0
    case Frame(up, _, _, _, _) => Depth(up) + 1
  }

  // ---- the nodes of a tree, as a set and in order ----

  ghost function Nodes(t: Tree): set<RbNode> {
    match t
    case Leaf => {}
    case Node(l, n, _, r) => Nodes(l) + {n} + Nodes(r)
  }

  ghost function CtxNodes(c: Ctx): set<RbNode> {
    match c
    case Top => {}
    case Frame(up, n, _, sib, _) => CtxNodes(up) + {n} + Nodes(sib)
  }

  ghost function Inorder(t: Tree): seq<RbNode> {
    match t
    case Leaf => []
    case Node(l, n, _, r) => Inorder(l) + [n] + Inorder(r)
  }

  ghost function Before(c: Ctx): seq<RbNode> {
    match c
    case Top => []
    case Frame(up, n, _, sib, left) => if left then Before(up) else Before(up) + Inorder(sib) + [n]
  }

  ghost function After(c: Ctx): seq<RbNode> {
    match c
    case Top => []
    case Frame(up, n, _, sib, left) => if left then [n] + Inorder(sib) + After(up) else After(up)
  }

  ghost predicate Distinct(t: Tree) {
    t.Node? ==>
      && t.n !in Nodes(t.left) && t.n !in Nodes(t.right)
      && Nodes(t.left) !! Nodes(t.right)
      && Distinct(t.left) && Distinct(t.right)
  }

  ghost predicate CtxDistinct(c: Ctx) {
    c.Frame? ==>
      && c.n !in CtxNodes(c.up) && c.n !in Nodes(c.sib)
      && CtxNodes(c.up) !! Nodes(c.sib)
      && CtxDistinct(c.up) && Distinct(c.sib)
  }

  /** A context and a subtree that can be put into it without sharing a node. */
  ghost predicate Apart(c: Ctx, t: Tree) {
    CtxDistinct(c) && Distinct(t) && CtxNodes(c) !! Nodes(t)
  }

  // ---- what the heap holds ----

  ghost function TopNode(t: Tree): RbNode? {
    if t.Leaf? then null else t.n
  }

  ghost function HoleParent(c: Ctx): RbNode? {
    if c.Top? then null else c.n
  }

  /** The four fields of a node. */
  datatype Cell = Cell(parent: RbNode?, color: Color, left: RbNode?, right: RbNode?)

  /** The fields that `n` must have in a tree `t` hanging off `p`. */
  ghost function CellOf(t: Tree, p: RbNode?, n: RbNode): Cell
    requires n in Nodes(t)
  {
    if n == t.n then Cell(p, t.color, TopNode(t.left), TopNode(t.right))
    else if n in Nodes(t.left) then CellOf(t.left, t.n, n)
    else CellOf(t.right, t.n, n)
  }

  ghost predicate Fields(n: RbNode, cell: Cell)
    reads n
  {
    n.rb_parent == cell.parent && n.rb_color == cell.color && n.rb_left == cell.left && n.rb_right == cell.right
  }

  /** The linked nodes are exactly the tree `t`. */
  ghost predicate Linked(t: Tree)
    reads Nodes(t)
  {
    Distinct(t) && forall n :: n in Nodes(t) ==> Fields(n, CellOf(t, null, n))
  }

  /** The same, following the tree: `t` hangs off `p` and so on down. */
  ghost predicate Rep(t: Tree, p: RbNode?)
    reads Nodes(t)
  {
    t.Node? ==>
      && Fields(t.n, Cell(p, t.color, TopNode(t.left), TopNode(t.right)))
      && Rep(t.left, t.n) && Rep(t.right, t.n)
  }

  lemma {:induction false} RepCell(t: Tree, p: RbNode?, n: RbNode)
    requires Rep(t, p) && n in Nodes(t)
    ensures Fields(n, CellOf(t, p, n))
  {
    if n != t.n {
      if n in Nodes(t.left) {
        RepCell(t.left, t.n, n);
      } else {
        RepCell(t.right, t.n, n);
      }
    }
  }

  lemma {:induction false} CellsRep(t: Tree, p: RbNode?)
    requires Distinct(t) && forall n :: n in Nodes(t) ==> Fields(n, CellOf(t, p, n))
    ensures Rep(t, p)
  {
    if t.Node? {
      assert Fields(t.n, CellOf(t, p, t.n));
      forall n | n in Nodes(t.left)
        ensures Fields(n, CellOf(t.left, t.n, n))
      {
        assert Fields(n, CellOf(t, p, n));
      }
      forall n | n in Nodes(t.right)
        ensures Fields(n, CellOf(t.right, t.n, n))
      {
        assert Fields(n, CellOf(t, p, n));
      }
      CellsRep(t.left, t.n);
      CellsRep(t.right, t.n);
    }
  }

  /** `Rep` is `Linked`, said along the tree. */
  lemma RepLinked(t: Tree)
    ensures Distinct(t) && Rep(t, null) <==> Linked(t)
  {
    if Distinct(t) && Rep(t, null) {
      forall n | n in Nodes(t)
        ensures Fields(n, CellOf(t, null, n))
      {
        RepCell(t, null, n);
      }
    }
    if Linked(t) {
      CellsRep(t, null);
    }
  }

  ghost function FrameCell(c: Ctx, hole: RbNode?): Cell
    requires c.Frame?
  {
    Cell(HoleParent(c.up), c.color, if c.left then hole else TopNode(c.sib), if c.left then TopNode(c.sib) else hole)
  }

  /** Putting `t` into `c` gives the nodes of `t` the fields they have in `t`,
      and those of `c` fields that depend only on the root of `t`. */
  lemma {:induction false} PlugCells(c: Ctx, t: Tree, n: RbNode)
    requires Distinct(Plug(c, t)) && n in Nodes(Plug(c, t))
    ensures Apart(c, t)
    ensures n in Nodes(t) ==> CellOf(Plug(c, t), null, n) == CellOf(t, HoleParent(c), n)
    ensures n !in Nodes(t) ==> n in CtxNodes(c) && CellOf(Plug(c, t), null, n) == CtxCell(c, TopNode(t), n)
  {
    PlugDistinct(c, t);
    PlugNodes(c, t);
    if c.Frame? {
      PlugCells(c.up, Join(c.left, t, c.n, c.color, c.sib), n);
    }
  }

  /** The fields of `n` in a context whose hole holds a tree with root `hole`. */
  ghost function CtxCell(c: Ctx, hole: RbNode?, n: RbNode): Cell
    requires n in CtxNodes(c)
  {
    if n == c.n then FrameCell(c, hole)
    else if n in Nodes(c.sib) then CellOf(c.sib, c.n, n)
    else CtxCell(c.up, c.n, n)
  }

  lemma {:induction false} PlugTop(c: Ctx, t: Tree, t': Tree)
    ensures c.Frame? ==> TopNode(Plug(c, t)) == TopNode(Plug(c, t')) && TopNode(Plug(c, t)) in CtxNodes(c)
    ensures c.Top? ==> TopNode(Plug(c, t)) == TopNode(t)
  {
    if c.Frame? {
      PlugTop(c.up, Join(c.left, t, c.n, c.color, c.sib), Join(c.left, t', c.n, c.color, c.sib));
    }
  }

  /** The fields of the nodes of `t`, and of the node above, once `t` is in `c`. */
  lemma Planted(c: Ctx, t: Tree)
    requires Distinct(Plug(c, t))
    ensures Apart(c, t) && Nodes(Plug(c, t)) == CtxNodes(c) + Nodes(t)
    ensures forall n :: n in Nodes(t) ==> CellOf(Plug(c, t), null, n) == CellOf(t, HoleParent(c), n)
    ensures c.Frame? ==> CellOf(Plug(c, t), null, c.n) == FrameCell(c, TopNode(t))
  {
    PlugDistinct(c, t);
    PlugNodes(c, t);
    forall n | n in Nodes(Plug(c, t)) {
      PlugCells(c, t, n);
    }
  }

  /** What changes when `t'`, made of nodes of `t`, takes the place of `t`. */
  lemma Replant(c: Ctx, t: Tree, t': Tree)
    requires Distinct(Plug(c, t)) && Distinct(t') && Nodes(t') <= Nodes(t)
    ensures Distinct(Plug(c, t'))
    ensures forall n :: n in CtxNodes(c) && n != HoleParent(c) ==>
      n in Nodes(Plug(c, t')) && n in Nodes(Plug(c, t)) && CellOf(Plug(c, t'), null, n) == CellOf(Plug(c, t), null, n)
    ensures TopNode(Plug(c, t')) == if c.Top? then TopNode(t') else TopNode(Plug(c, t))
  {
    Planted(c, t);
    PlugDistinct(c, t');
    Planted(c, t');
    PlugTop(c, t, t');
    forall n | n in CtxNodes(c) && n != HoleParent(c)
      ensures CellOf(Plug(c, t'), null, n) == CellOf(Plug(c, t), null, n)
    {
      PlugCells(c, t, n);
      PlugCells(c, t', n);
    }
  }

  lemma {:induction false} PlugNodes(c: Ctx, t: Tree)
    ensures Nodes(Plug(c, t)) == CtxNodes(c) + Nodes(t)
  {
    if c.Frame? {
      PlugNodes(c.up, Join(c.left, t, c.n, c.color, c.sib));
    }
  }

  lemma {:induction false} PlugDistinct(c: Ctx, t: Tree)
    ensures Distinct(Plug(c, t)) <==> Apart(c, t)
  {
    if c.Frame? {
      PlugDistinct(c.up, Join(c.left, t, c.n, c.color, c.sib));
    }
  }

  lemma Regroup(a: seq<RbNode>, b: seq<RbNode>, m: seq<RbNode>, d: seq<RbNode>, e: seq<RbNode>)
    ensures a + (b + m + d) + e == a + b + (m + d + e)
  {}

  lemma Regroup'(a: seq<RbNode>, b: seq<RbNode>, m: seq<RbNode>, d: seq<RbNode>, e: seq<RbNode>)
    ensures a + (b + m + d) + e == a + b + m + d + e
  {}

  lemma {:induction false} PlugInorder(c: Ctx, t: Tree)
    ensures Inorder(Plug(c, t)) == Before(c) + Inorder(t) + After(c)
  {
    match c
    case Top =>
    case Frame(up, n, color, sib, left) =>
      var t' := Join(left, t, n, color, sib);
      PlugInorder(up, t');
      if left {
        Regroup(Before(up), Inorder(t), [n], Inorder(sib), After(up));
      } else {
        Regroup'(Before(up), Inorder(sib), [n], Inorder(t), After(up));
      }
  }

  /** `s'` has the nodes of `s`, in the same order. */
  ghost predicate SameOrder(s: Tree, s': Tree) {
    Inorder(s') == Inorder(s) && Nodes(s') == Nodes(s)
  }

  lemma PlugSameOrder(c: Ctx, t: Tree, t': Tree)
    requires SameOrder(t, t')
    ensures SameOrder(Plug(c, t), Plug(c, t'))
  {
    PlugInorder(c, t);
    PlugInorder(c, t');
    PlugNodes(c, t);
    PlugNodes(c, t');
  }

  /** Every node of a tree is the root of a subtree in some context. */
  lemma {:induction false} Focus(up: Ctx, t: Tree, n: RbNode) returns (c: Ctx, s: Tree)
    requires n in Nodes(t)
    ensures s.Node? && s.n == n && Plug(c, s) == Plug(up, t)
    decreases t
  {
    if t.n == n {
      c, s := up, t;
    } else if n in Nodes(t.left) {
      c, s := Focus(Frame(up, t.n, t.color, t.right, true), t.left, n);
    } else {
      c, s := Focus(Frame(up, t.n, t.color, t.left, false), t.right, n);
    }
  }

  // ---- red-black balance ----

  ghost predicate IsRed(t: Tree) {
    t.Node? && t.color.Red?
  }

  /** No red node has a red child, and every path down has `h` black nodes. */
  ghost predicate Balanced(t: Tree, h: nat) {
    match t
    case Leaf => h == 0
    case Node(l, _, Red, r) => !IsRed(l) && !IsRed(r) && Balanced(l, h) && Balanced(r, h)
    case Node(l, _, Black, r) => h > 0 && Balanced(l, h - 1) && Balanced(r, h - 1)
  }

  ghost function BlackHeight(t: Tree): nat {
    match t
    case Leaf => 0
    case Node(l, _, color, _) => BlackHeight(l) + if color.Black? then 1 else 0
  }

  ghost predicate RedBlack(t: Tree) {
    !IsRed(t) && Balanced(t, BlackHeight(t))
  }

  /** `c` is balanced once a black-rooted tree of black height `h` fills its hole. */
  ghost predicate CtxBalanced(c: Ctx, h: nat) {
    match c
    case Top => true
    case Frame(up, _, Red, sib, _) =>
      up.Frame? && up.color.Black? && !IsRed(sib) && Balanced(sib, h) && CtxBalanced(up, h)
    case Frame(up, _, Black, sib, _) => Balanced(sib, h) && CtxBalanced(up, h + 1)
  }

  ghost predicate RedFits(c: Ctx) {
    c.Frame? && c.color.Black?
  }

  lemma {:induction false} BalancedHeight(t: Tree, h: nat)
    requires Balanced(t, h)
    ensures BlackHeight(t) == h
  {
    match t
    case Leaf =>
    case Node(l, _, color, _) => BalancedHeight(l, if color.Red? then h else h - 1);
  }

  /** Balance of the whole is balance of the part, of the context, and no red
      node under a red node (nor at the root) where the two meet. */
  lemma {:induction false} PlugBalanced(c: Ctx, t: Tree, h: nat)
    requires Balanced(t, h)
    ensures RedBlack(Plug(c, t)) <==> (CtxBalanced(c, h) && (IsRed(t) ==> RedFits(c)))
  {
    BalancedHeight(t, h);
    match c
    case Top =>
    case Frame(up, n, color, sib, left) =>
      var t' := Join(left, t, n, color, sib);
      var h' := if color.Red? then h else h + 1;
      if RedBlack(Plug(up, t')) {
        PartBalanced(up, t');
        var k := BlackHeight(t');
        assert Balanced(t, if color.Red? then k else k - 1);
        BalancedHeight(t, if color.Red? then k else k - 1);
      }
      if Balanced(t', h') {
        PlugBalanced(up, t', h');
      }
  }

  /** A subtree of a red-black tree is balanced. */
  lemma {:induction false} PartBalanced(c: Ctx, t: Tree)
    requires RedBlack(Plug(c, t))
    ensures Balanced(t, BlackHeight(t))
  {
    if c.Frame? {
      var t' := Join(c.left, t, c.n, c.color, c.sib);
      PartBalanced(c.up, t');
      BalancedHeight(t, BlackHeight(t') - if c.color.Black? then 1 else 0);
    }
  }

  // ---- height ----

  ghost function Height(t: Tree): nat {
    match t
    case Leaf => 0
    case Node(l, _, _, r) => 1 + if Height(l) > Height(r) then Height(l) else Height(r)
  }

  ghost function Pow2(k: nat): nat {
    if k == 0 then 1 else 2 * Pow2(k - 1)
  }

  lemma {:induction false} BalancedSize(t: Tree, h: nat)
    requires Balanced(t, h)
    ensures Pow2(h) <= |Inorder(t)| + 1
    ensures Height(t) <= 2 * h + if IsRed(t) then 1 else 0
  {
    match t
    case Leaf =>
    case Node(l, _, color, r) =>
      var k := if color.Red? then h else h - 1;
      BalancedSize(l, k);
      BalancedSize(r, k);
  }

  lemma {:induction false} Pow2Double(k: nat)
    ensures Pow2(2 * k) == Pow2(k) * Pow2(k)
  {
    if k > 0 {
      Pow2Double(k - 1);
      assert Pow2(2 * k) == 4 * Pow2(2 * k - 2);
      assert Pow2(2 * (k - 1)) == Pow2(k - 1) * Pow2(k - 1);
    }
  }

  lemma {:induction false} Pow2Monotone(j: nat, k: nat)
    requires j <= k
    ensures Pow2(j) <= Pow2(k)
  {
    if j < k {
      Pow2Monotone(j, k - 1);
    }
  }

  /** The height is at most `2 * log2(n + 1)` for `n` nodes. */
  lemma HeightBound(t: Tree)
    requires RedBlack(t)
    ensures Pow2(Height(t)) <= (|Inorder(t)| + 1) * (|Inorder(t)| + 1)
  {
    var h := BlackHeight(t);
    BalancedSize(t, h);
    Pow2Monotone(Height(t), 2 * h);
    Pow2Double(h);
    Squares(Pow2(h), |Inorder(t)| + 1);
  }

  lemma Squares(a: nat, b: nat)
    requires a <= b
    ensures a * a <= b * b
  {
    assert a * a <= a * b <= b * b;
  }
}
