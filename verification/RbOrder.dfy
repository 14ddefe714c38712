/** Search order: the keys of a tree's nodes, read through the nodes' addresses. */
module RbOrder {
  import opened RbShape
  import opened RbErase

  /** Keys lie strictly between `lo` and `hi`, smaller to the left, larger to the right. */
  ghost predicate Ordered(t: Tree, keys: seq<nat>, lo: int, hi: int) {
    t.Node? ==>
      && t.n.id < |keys| && lo < keys[t.n.id] < hi
      && Ordered(t.left, keys, lo, keys[t.n.id]) && Ordered(t.right, keys, keys[t.n.id], hi)
  }

  ghost predicate HasKey(t: Tree, keys: seq<nat>, b: nat) {
    t.Node? && ((t.n.id < |keys| && keys[t.n.id] == b) || HasKey(t.left, keys, b) || HasKey(t.right, keys, b))
  }

  /** Strictly increasing keys, all between `lo` and `hi`. */
  ghost predicate Increasing(s: seq<RbNode>, keys: seq<nat>, lo: int, hi: int) {
    s != [] ==> s[0].id < |keys| && lo < keys[s[0].id] < hi && Increasing(s[1..], keys, keys[s[0].id], hi)
  }

  lemma {:induction false} IncreasingConcat(a: seq<RbNode>, x: RbNode, b: seq<RbNode>, keys: seq<nat>, lo: int, hi: int)
    ensures Increasing(a + [x] + b, keys, lo, hi) <==>
      x.id < |keys| && Increasing(a, keys, lo, keys[x.id]) && lo < keys[x.id] < hi
        && Increasing(b, keys, keys[x.id], hi)
  {
    var s := a + [x] + b;
    if a == [] {
      assert s[1..] == b;
    } else {
      assert s[0] == a[0] && s[1..] == a[1..] + [x] + b;
      if a[0].id < |keys| {
        IncreasingConcat(a[1..], x, b, keys, keys[a[0].id], hi);
      }
    }
  }

  /** A tree is ordered exactly when its nodes in order have increasing keys. */
  lemma {:induction false} OrderedInorder(t: Tree, keys: seq<nat>, lo: int, hi: int)
    ensures Ordered(t, keys, lo, hi) <==> Increasing(Inorder(t), keys, lo, hi)
  {
    if t.Node? {
      IncreasingConcat(Inorder(t.left), t.n, Inorder(t.right), keys, lo, hi);
      if t.n.id < |keys| {
        OrderedInorder(t.left, keys, lo, keys[t.n.id]);
        OrderedInorder(t.right, keys, keys[t.n.id], hi);
      }
    }
  }

  lemma {:induction false} IncreasingWider(s: seq<RbNode>, keys: seq<nat>, lo: int, hi: int, lo': int)
    requires Increasing(s, keys, lo, hi) && lo' <= lo
    ensures Increasing(s, keys, lo', hi)
  {}

  lemma {:induction false} IncreasingRemove(s: seq<RbNode>, x: RbNode, keys: seq<nat>, lo: int, hi: int)
    requires Increasing(s, keys, lo, hi)
    ensures Increasing(Remove(s, x), keys, lo, hi)
  {
    if s != [] {
      var k := keys[s[0].id];
      IncreasingRemove(s[1..], x, keys, k, hi);
      if s[0] == x {
        assert Remove(s, x) == Remove(s[1..], x);
        IncreasingWider(Remove(s[1..], x), keys, k, hi, lo);
      } else {
        var r := Remove(s, x);
        assert r[0] == s[0] && r[1..] == Remove(s[1..], x);
      }
    }
  }

  /** The order does not depend on keys of nodes that are not in the tree. */
  lemma {:induction false} OrderedFrame(t: Tree, keys: seq<nat>, keys': seq<nat>, lo: int, hi: int)
    requires Ordered(t, keys, lo, hi) && |keys'| == |keys|
    requires forall n :: n in Nodes(t) && n.id < |keys| ==> keys'[n.id] == keys[n.id]
    ensures Ordered(t, keys', lo, hi)
  {
    if t.Node? {
      OrderedFrame(t.left, keys, keys', lo, keys[t.n.id]);
      OrderedFrame(t.right, keys, keys', keys[t.n.id], hi);
    }
  }

  lemma {:induction false} HasKeyBounds(t: Tree, keys: seq<nat>, lo: int, hi: int, b: nat)
    requires Ordered(t, keys, lo, hi) && HasKey(t, keys, b)
    ensures lo < b < hi
  {
    if keys[t.n.id] != b {
      if HasKey(t.left, keys, b) {
        HasKeyBounds(t.left, keys, lo, keys[t.n.id], b);
      } else {
        HasKeyBounds(t.right, keys, keys[t.n.id], hi, b);
      }
    }
  }

  /** Which way a search goes. */
  lemma SearchStep(t: Tree, keys: seq<nat>, lo: int, hi: int, b: nat)
    requires t.Node? && Ordered(t, keys, lo, hi)
    ensures b < keys[t.n.id] ==> (HasKey(t, keys, b) <==> HasKey(t.left, keys, b))
    ensures b > keys[t.n.id] ==> (HasKey(t, keys, b) <==> HasKey(t.right, keys, b))
  {
    if HasKey(t.left, keys, b) {
      HasKeyBounds(t.left, keys, lo, keys[t.n.id], b);
    }
    if HasKey(t.right, keys, b) {
      HasKeyBounds(t.right, keys, keys[t.n.id], hi, b);
    }
  }

  lemma {:induction false} HasKeyNode(t: Tree, keys: seq<nat>, n: RbNode)
    requires n in Nodes(t) && n.id < |keys|
    ensures HasKey(t, keys, keys[n.id])
  {
    if n != t.n {
      if n in Nodes(t.left) {
        HasKeyNode(t.left, keys, n);
      } else {
        HasKeyNode(t.right, keys, n);
      }
    }
  }

  lemma {:induction false} NodeBounds(t: Tree, keys: seq<nat>, lo: int, hi: int, n: RbNode)
    requires Ordered(t, keys, lo, hi) && n in Nodes(t)
    ensures n.id < |keys| && lo < keys[n.id] < hi
  {
    if n != t.n {
      if n in Nodes(t.left) {
        NodeBounds(t.left, keys, lo, keys[t.n.id], n);
      } else {
        NodeBounds(t.right, keys, keys[t.n.id], hi, n);
      }
    }
  }

  /** No two nodes have the same key. */
  lemma {:induction false} OrderedInjective(t: Tree, keys: seq<nat>, lo: int, hi: int, m: RbNode, n: RbNode)
    requires Ordered(t, keys, lo, hi) && m in Nodes(t) && n in Nodes(t) && m.id < |keys| && n.id < |keys|
      && keys[m.id] == keys[n.id]
    ensures m == n
  {
    var k := keys[t.n.id];
    forall x | x in Nodes(t.left)
      ensures x.id < |keys| && keys[x.id] < k
    {
      NodeBounds(t.left, keys, lo, k, x);
    }
    forall x | x in Nodes(t.right)
      ensures x.id < |keys| && keys[x.id] > k
    {
      NodeBounds(t.right, keys, k, hi, x);
    }
    if m in Nodes(t.left) && n in Nodes(t.left) {
      OrderedInjective(t.left, keys, lo, k, m, n);
    } else if m in Nodes(t.right) && n in Nodes(t.right) {
      OrderedInjective(t.right, keys, k, hi, m, n);
    }
  }

  // ---- the same for a context ----

  /** The open interval that the keys in the hole must lie in. */
  ghost function Range(c: Ctx, keys: seq<nat>, lo: int, hi: int): (int, int) {
    match c
    case Top => (lo, hi)
    case Frame(up, n, _, _, left) =>
      var r := Range(up, keys, lo, hi);
      if n.id >= |keys| then r else if left then (r.0, keys[n.id]) else (keys[n.id], r.1)
  }

  ghost predicate CtxOrdered(c: Ctx, keys: seq<nat>, lo: int, hi: int) {
    match c
    case Top => true
    case Frame(up, n, _, sib, left) =>
      var r := Range(up, keys, lo, hi);
      && n.id < |keys| && r.0 < keys[n.id] < r.1 && CtxOrdered(up, keys, lo, hi)
      && if left then Ordered(sib, keys, keys[n.id], r.1) else Ordered(sib, keys, r.0, keys[n.id])
  }

  lemma {:induction false} PlugOrdered(c: Ctx, t: Tree, keys: seq<nat>, lo: int, hi: int)
    ensures Ordered(Plug(c, t), keys, lo, hi) <==>
      CtxOrdered(c, keys, lo, hi) && Ordered(t, keys, Range(c, keys, lo, hi).0, Range(c, keys, lo, hi).1)
  {
    if c.Frame? {
      PlugOrdered(c.up, Join(c.left, t, c.n, c.color, c.sib), keys, lo, hi);
    }
  }
}
