/** unix_io.c: the descriptors of the block cache, their lookup tree and LRU list. */
module BlockCache {
  import opened RbShape
  import opened RbTree
  import opened RbErase
  import opened RbOrder
  import opened KernelList

  const UINT64_MAX: nat := 0xFFFF_FFFF_FFFF_FFFF

  type byte = x: int | 0 <= x < 256

  class IoCacheBlock {
    const icb_node: RbNode
    const icb_list: ListHead
    var icb_blkno: nat
    var icb_buf: seq<byte>

    constructor (id: nat)
      ensures icb_node.id == id && icb_list.id == id && icb_blkno == UINT64_MAX && icb_buf == [] && fresh(icb_list)
        && fresh(icb_node)
    {
      icb_node := new RbNode(id);
      icb_list := new ListHead(id);
      icb_blkno, icb_buf := UINT64_MAX, [];
    }
  }

  /** The list entries are exactly those embedded in the descriptors. */
  ghost predicate Listed(lru: seq<ListHead>, icbs: seq<IoCacheBlock>) {
    && (forall m :: m in lru ==> m.id < |icbs| && icbs[m.id].icb_list == m)
    && (forall i :: 0 <= i < |icbs| ==> icbs[i].icb_list in lru)
  }

  /** The nodes are exactly those embedded in the descriptors `live`. */
  ghost predicate Members(nodes: set<RbNode>, icbs: seq<IoCacheBlock>, live: set<nat>) {
    && (forall i :: i in live ==> i < |icbs| && icbs[i].icb_node in nodes)
    && (forall n :: n in nodes ==> n.id in live && n.id < |icbs| && icbs[n.id].icb_node == n)
  }

  lemma MembersAdd(nodes: set<RbNode>, icbs: seq<IoCacheBlock>, live: set<nat>, at: nat)
    requires Members(nodes, icbs, live) && at < |icbs| && icbs[at].icb_node.id == at
    ensures Members(nodes + {icbs[at].icb_node}, icbs, live + {at})
  {}

  lemma MembersRemove(nodes: set<RbNode>, icbs: seq<IoCacheBlock>, live: set<nat>, at: nat)
    requires Members(nodes, icbs, live) && at in live && forall i :: 0 <= i < |icbs| ==> icbs[i].icb_node.id == i
    ensures Members(nodes - {icbs[at].icb_node}, icbs, live - {at})
  {}

  ghost function ListsOf(icbs: seq<IoCacheBlock>): (r: seq<ListHead>)
    ensures |r| == |icbs|
  {
    seq(|icbs|, k requires 0 <= k < |icbs| => icbs[k].icb_list)
  }

  /** Every descriptor is in `repr`, with the nodes embedded in it. */
  ghost predicate Owned(icbs: seq<IoCacheBlock>, repr: set<object>) {
    forall i :: 0 <= i < |icbs| ==> icbs[i] in repr && icbs[i].icb_node in repr && icbs[i].icb_list in repr
  }

  /** The loop of `io_init_cache` over the descriptors. */
  method InitDescriptors(nr_blocks: nat, lru: ListHead) returns (icb_list: seq<IoCacheBlock>, ghost repr: set<object>)
    requires lru.id == nr_blocks
    modifies lru
    ensures |icb_list| == nr_blocks && Ring(lru, ListsOf(icb_list))
    ensures forall k :: 0 <= k < nr_blocks ==> icb_list[k].icb_node.id == icb_list[k].icb_list.id == k
    ensures forall k :: 0 <= k < nr_blocks ==> icb_list[k].icb_blkno == UINT64_MAX && icb_list[k].icb_buf == []
    ensures Owned(icb_list, repr) && fresh(repr)
  {
    InitListHead(lru);
    icb_list, repr := [], {};
    ghost var members: seq<ListHead> := [];
    while |icb_list| < nr_blocks
      invariant |members| == |icb_list| <= nr_blocks && Ring(lru, members)
        && (forall k :: 0 <= k < |members| ==> fresh(members[k]))
      invariant Owned(icb_list, repr) && fresh(repr)
      invariant forall k :: 0 <= k < |icb_list| ==> members[k] == icb_list[k].icb_list
      invariant forall k :: 0 <= k < |icb_list| ==> icb_list[k].icb_node.id == icb_list[k].icb_list.id == k
      invariant forall k :: 0 <= k < |icb_list| ==> icb_list[k].icb_blkno == UINT64_MAX && icb_list[k].icb_buf == []
      decreases nr_blocks - |icb_list|
    {
      var icb := new IoCacheBlock(|icb_list|);
      ListAddTail(icb.icb_list, lru, members);
      members := members + [icb.icb_list];
      icb_list, repr := icb_list + [icb], repr + {icb, icb.icb_node, icb.icb_list};
    }
    assert members == ListsOf(icb_list);
  }

  class IoCache {
    const ic_metadata_buffer: seq<IoCacheBlock>
    const ic_lru: ListHead
    const ic_lookup: RbRoot
    ghost const Repr: set<object>
    /** The block number and the bytes in each descriptor. */
    ghost var keys: seq<nat>
    ghost var data: seq<seq<byte>>
    /** The list entries of the descriptors in LRU order, the next victim first. */
    ghost var lru: seq<ListHead>

    /** `io_init_cache`: every descriptor free and on the list, the tree empty. */
    constructor (nr_blocks: nat)
      ensures IndexOk({}) && ListOk() && |ic_metadata_buffer| == nr_blocks && Owns() && fresh(Repr)
      ensures |lru| == nr_blocks && forall i :: 0 <= i < nr_blocks ==>
        keys[i] == 0xFFFF_FFFF_FFFF_FFFF && lru[i].id == i
    {
      ic_lookup := new RbRoot();
      var head := new ListHead(nr_blocks);
      var icb_list;
      ghost var repr;
      icb_list, repr := InitDescriptors(nr_blocks, head);
      ic_metadata_buffer, ic_lru, lru := icb_list, head, ListsOf(icb_list);
      Repr := repr + {ic_lookup, head};
      keys, data := seq(nr_blocks, k => UINT64_MAX), seq(nr_blocks, k => []);
      new;
      assert forall i :: 0 <= i < nr_blocks ==> ListsOf(icb_list)[i] == icb_list[i].icb_list;
    }

    /** Every other object of the cache is in `Repr`. */
    ghost predicate Owns() {
      ic_lookup in Repr && ic_lru in Repr && Owned(ic_metadata_buffer, Repr)
    }

    /** Every descriptor is on the LRU list exactly once. */
    ghost predicate ListOk()
      reads `lru, ic_lru, lru
    {
      Addressed() && Ring(ic_lru, lru) && Listed(lru, ic_metadata_buffer)
    }

    /** `rb_entry` and `list_entry`: the descriptor at an address. */
    ghost predicate Addressed() {
      && (forall i :: 0 <= i < |ic_metadata_buffer| ==>
            ic_metadata_buffer[i].icb_node.id == i && ic_metadata_buffer[i].icb_list.id == i)
      && ic_lru.id == |ic_metadata_buffer|
    }

    /** The tree holds the nodes of the descriptors `live`, in the order of their block numbers. */
    ghost predicate IndexOk(live: set<nat>)
      reads `keys, `data, ic_lookup, Nodes(ic_lookup.tree), ic_metadata_buffer
    {
      && Addressed() && ic_lookup.Valid()
      && |keys| == |data| == |ic_metadata_buffer|
      && (forall i :: 0 <= i < |keys| ==>
        ic_metadata_buffer[i].icb_blkno == keys[i] && ic_metadata_buffer[i].icb_buf == data[i])
      && Members(Nodes(ic_lookup.tree), ic_metadata_buffer, live)
      && Ordered(ic_lookup.tree, keys, -1, UINT64_MAX)
    }
  }

  /** Hanging a new node in the hole keeps the order when its key fits there. */
  lemma InsertedOrder(c: Ctx, node: RbNode, t: Tree, keys: seq<nat>)
    requires Ordered(Plug(c, Leaf), keys, -1, UINT64_MAX) && node.id < |keys|
    requires Range(c, keys, -1, UINT64_MAX).0 < keys[node.id] < Range(c, keys, -1, UINT64_MAX).1
    requires SameOrder(Plug(c, Node(Leaf, node, Red, Leaf)), t)
    ensures Ordered(t, keys, -1, UINT64_MAX)
  {
    var s := Node(Leaf, node, Red, Leaf);
    PlugOrdered(c, Leaf, keys, -1, UINT64_MAX);
    PlugOrdered(c, s, keys, -1, UINT64_MAX);
    OrderedInorder(Plug(c, s), keys, -1, UINT64_MAX);
    OrderedInorder(t, keys, -1, UINT64_MAX);
  }

  /** The hole of `c` is where a node with key `b` belongs. */
  ghost predicate BelongsAt(tree: Tree, keys: seq<nat>, c: Ctx, b: nat) {
    var r := Range(c, keys, -1, UINT64_MAX);
    Plug(c, Leaf) == tree && r.0 < b < r.1
  }

  /** The search half of `io_cache_insert`; the `assert(0)` on an equal key is unreachable. */
  method InsertPosition(ic: IoCache, insert_icb: IoCacheBlock, ghost live: set<nat>)
    returns (parent: RbNode?, left: bool, ghost c: Ctx)
    requires ic.IndexOk(live) && insert_icb.icb_blkno < UINT64_MAX
    requires forall i :: i in live ==> ic.keys[i] != insert_icb.icb_blkno
    ensures ic.IndexOk(live) && BelongsAt(ic.ic_lookup.tree, ic.keys, c, insert_icb.icb_blkno)
    ensures parent == HoleParent(c) && (c.Frame? ==> left == c.left)
  {
    var root := ic.ic_lookup;
    root.ValidHolds();
    ghost var keys, t := ic.keys, root.tree;
    c := Top;
    var p := root.rb_node;
    parent, left := null, false;
    while p != null
      invariant p == TopNode(t) && Plug(c, t) == root.tree && parent == HoleParent(c) && (c.Frame? ==> left == c.left)
      invariant Ordered(t, keys, Range(c, keys, -1, UINT64_MAX).0, Range(c, keys, -1, UINT64_MAX).1)
      invariant Range(c, keys, -1, UINT64_MAX).0 < insert_icb.icb_blkno < Range(c, keys, -1, UINT64_MAX).1
      decreases t
    {
      LookAt(root, c, t);
      parent := p;
      var icb := ic.ic_metadata_buffer[p.id];
      if insert_icb.icb_blkno < icb.icb_blkno {
        p, left := p.rb_left, true;
        c, t := Frame(c, t.n, t.color, t.right, true), t.left;
      } else if insert_icb.icb_blkno > icb.icb_blkno {
        p, left := p.rb_right, false;
        c, t := Frame(c, t.n, t.color, t.left, false), t.right;
      } else {
        assert false;
      }
    }
  }

  method InsertInOrder(node: RbNode, parent: RbNode?, left: bool, root: RbRoot, ghost c: Ctx, ghost keys: seq<nat>)
    requires root.Valid() && Ordered(root.tree, keys, -1, UINT64_MAX) && node !in Nodes(root.tree)
    requires node.id < |keys| && BelongsAt(root.tree, keys, c, keys[node.id])
    requires parent == HoleParent(c) && (c.Frame? ==> left == c.left)
    modifies root, node, Nodes(root.tree)
    ensures root.Valid() && Ordered(root.tree, keys, -1, UINT64_MAX)
    ensures Nodes(root.tree) == old(Nodes(root.tree)) + {node}
  {
    InsertAt(node, parent, left, root, c);
    InsertedOrder(c, node, root.tree, keys);
  }

  /** `io_cache_insert`. */
  method IoCacheInsert(ic: IoCache, insert_icb: IoCacheBlock, ghost live: set<nat>, ghost at: nat)
    requires ic.IndexOk(live) && at !in live && at < |ic.keys| && insert_icb == ic.ic_metadata_buffer[at]
    requires ic.keys[at] < UINT64_MAX && forall i :: i in live ==> ic.keys[i] != ic.keys[at]
    modifies ic.ic_lookup, insert_icb.icb_node, Nodes(ic.ic_lookup.tree)
    ensures ic.IndexOk(live + {at})
  {
    var parent, left;
    ghost var c;
    parent, left, c := InsertPosition(ic, insert_icb, live);
    InsertInOrder(insert_icb.icb_node, parent, left, ic.ic_lookup, c, ic.keys);
    MembersAdd(old(Nodes(ic.ic_lookup.tree)), ic.ic_metadata_buffer, live, at);
  }

  /** `io_cache_lookup`, counting the nodes it visits. */
  method IoCacheLookup(ic: IoCache, blkno: nat, ghost live: set<nat>)
    returns (icb: IoCacheBlock?, ghost at: nat, ghost steps: nat)
    requires ic.IndexOk(live)
    ensures icb != null ==> at in live && ic.keys[at] == blkno && icb == ic.ic_metadata_buffer[at]
    ensures icb == null ==> forall i :: i in live ==> ic.keys[i] != blkno
    ensures steps <= Height(ic.ic_lookup.tree)
  {
    ic.ic_lookup.ValidHolds();
    var p := ic.ic_lookup.rb_node;
    ghost var tree, keys := ic.ic_lookup.tree, ic.keys;
    ghost var c, t := Top, tree;
    ghost var lo: int, hi: int := -1, UINT64_MAX;
    steps, at := 0, 0;
    while p != null
      invariant p == TopNode(t) && Plug(c, t) == tree && Ordered(t, keys, lo, hi)
      invariant HasKey(tree, keys, blkno) <==> HasKey(t, keys, blkno)
      invariant steps + Height(t) <= Height(tree)
      decreases t
    {
      LookAt(ic.ic_lookup, c, t);
      SearchStep(t, keys, lo, hi, blkno);
      steps := steps + 1;
      icb := ic.ic_metadata_buffer[p.id];
      if blkno < icb.icb_blkno {
        p := p.rb_left;
        c, t, hi := Frame(c, t.n, t.color, t.right, true), t.left, keys[t.n.id];
      } else if blkno > icb.icb_blkno {
        p := p.rb_right;
        c, t, lo := Frame(c, t.n, t.color, t.left, false), t.right, keys[t.n.id];
      } else {
        at := p.id;
        return;
      }
    }
    forall i | i in live
      ensures keys[i] != blkno
    {
      HasKeyNode(tree, keys, ic.ic_metadata_buffer[i].icb_node);
    }
    icb := null;
  }

  /** `memset` of a node that is in no tree. */
  method ClearNode(node: RbNode)
    modifies node
    ensures Fields(node, Cell(null, Red, null, null))
  {
    node.rb_parent, node.rb_color, node.rb_right, node.rb_left := null, Red, null, null;
  }

  /** The node of a descriptor leaves the tree and is cleared. */
  method DropNode(ic: IoCache, icb: IoCacheBlock, ghost live: set<nat>, ghost at: nat)
    requires ic.IndexOk(live) && at < |ic.keys| && icb == ic.ic_metadata_buffer[at] && at in live
    modifies ic.ic_lookup, Nodes(ic.ic_lookup.tree)
    ensures ic.IndexOk(live - {at})
  {
    EraseInOrder(icb.icb_node, ic.ic_lookup, ic.keys);
    MembersRemove(old(Nodes(ic.ic_lookup.tree)), ic.ic_metadata_buffer, live, at);
    ClearNode(icb.icb_node);
  }

  /** `io_cache_disconnect`. */
  method IoCacheDisconnect(ic: IoCache, icb: IoCacheBlock, ghost live: set<nat>, ghost at: nat)
    requires ic.IndexOk(live) && at < |ic.keys| && icb == ic.ic_metadata_buffer[at]
    requires at in live <==> ic.keys[at] != UINT64_MAX
    modifies ic`keys, ic.ic_lookup, Nodes(ic.ic_lookup.tree), icb`icb_blkno
    ensures ic.IndexOk(live - {at}) && ic.keys == old(ic.keys)[at := 0xFFFF_FFFF_FFFF_FFFF]
  {
    if icb.icb_blkno != UINT64_MAX {
      DropNode(ic, icb, live, at);
      NameBlock(ic, icb, UINT64_MAX, live - {at}, at);
    } else {
      assert live - {at} == live && ic.keys[at := UINT64_MAX] == ic.keys;
    }
  }

  /** `rb_erase` keeps the order. */
  method EraseInOrder(node: RbNode, root: RbRoot, ghost keys: seq<nat>)
    requires root.Valid() && node in Nodes(root.tree) && Ordered(root.tree, keys, -1, UINT64_MAX)
    modifies root, Nodes(root.tree)
    ensures root.Valid() && Ordered(root.tree, keys, -1, UINT64_MAX)
    ensures Nodes(root.tree) == old(Nodes(root.tree)) - {node}
  {
    OrderedInorder(root.tree, keys, -1, UINT64_MAX);
    IncreasingRemove(Inorder(root.tree), node, keys, -1, UINT64_MAX);
    Erase(node, root);
    OrderedInorder(root.tree, keys, -1, UINT64_MAX);
  }

  /** `memcpy` of a block into a descriptor. */
  method FillBlock(ic: IoCache, icb: IoCacheBlock, bytes: seq<byte>, ghost live: set<nat>, ghost at: nat)
    requires ic.IndexOk(live) && at < |ic.keys| && icb == ic.ic_metadata_buffer[at]
    modifies ic`data, icb`icb_buf
    ensures ic.IndexOk(live) && ic.data == old(ic.data)[at := bytes]
  {
    icb.icb_buf := bytes;
    ic.data := ic.data[at := bytes];
  }

  /** `icb->icb_blkno = blkno`, for a descriptor that is not in the tree. */
  method NameBlock(ic: IoCache, icb: IoCacheBlock, b: nat, ghost live: set<nat>, ghost at: nat)
    requires ic.IndexOk(live) && at !in live && at < |ic.keys| && icb == ic.ic_metadata_buffer[at]
    modifies ic`keys, icb`icb_blkno
    ensures ic.IndexOk(live) && ic.keys == old(ic.keys)[at := b]
  {
    icb.icb_blkno := b;
    OrderedFrame(ic.ic_lookup.tree, ic.keys, ic.keys[at := b], -1, UINT64_MAX);
    ic.keys := ic.keys[at := b];
  }

  lemma MovedMembers(lru: seq<ListHead>, k: nat, icbs: seq<IoCacheBlock>)
    requires k < |lru| && Listed(lru, icbs)
    ensures Listed(Without(lru, k) + [lru[k]], icbs) && Listed([lru[k]] + Without(lru, k), icbs)
  {
  }

  /** `io_cache_seen`: to the end of the list. */
  method IoCacheSeen(ic: IoCache, icb: IoCacheBlock, ghost k: nat)
    requires ic.ListOk() && k < |ic.lru| && icb.icb_list == ic.lru[k]
    modifies ic`lru, ic.ic_lru, ic.lru
    ensures ic.ListOk() && ic.lru == old(Without(ic.lru, k) + [ic.lru[k]])
  {
    MovedMembers(ic.lru, k, ic.ic_metadata_buffer);
    ListDel(icb.icb_list, ic.ic_lru, ic.lru, k);
    ListAddTail(icb.icb_list, ic.ic_lru, Without(ic.lru, k));
    ic.lru := Without(ic.lru, k) + [ic.lru[k]];
  }

  /** `io_cache_unsee`: to the front of the list, where the next victim is taken. */
  method IoCacheUnsee(ic: IoCache, icb: IoCacheBlock, ghost k: nat)
    requires ic.ListOk() && k < |ic.lru| && icb.icb_list == ic.lru[k]
    modifies ic`lru, ic.ic_lru, ic.lru
    ensures ic.ListOk() && ic.lru == old([ic.lru[k]] + Without(ic.lru, k))
  {
    MovedMembers(ic.lru, k, ic.ic_metadata_buffer);
    ListDel(icb.icb_list, ic.ic_lru, ic.lru, k);
    ListAdd(icb.icb_list, ic.ic_lru, Without(ic.lru, k));
    ic.lru := [ic.lru[k]] + Without(ic.lru, k);
  }

  /** `io_cache_pop_lru`: the least recently used descriptor, no longer naming a block. */
  method IoCachePopLru(ic: IoCache, ghost live: set<nat>) returns (icb: IoCacheBlock)
    requires ic.IndexOk(live) && ic.ListOk() && 0 < |ic.lru|
    requires ic.lru[0].id in live <==> ic.keys[ic.lru[0].id] != UINT64_MAX
    modifies ic`keys, ic.ic_lookup, Nodes(ic.ic_lookup.tree), {ic.ic_metadata_buffer[ic.lru[0].id]}`icb_blkno
    ensures ic.IndexOk(live - {ic.lru[0].id}) && icb == ic.ic_metadata_buffer[ic.lru[0].id]
    ensures ic.keys == old(ic.keys)[ic.lru[0].id := 0xFFFF_FFFF_FFFF_FFFF]
  {
    assert ic.ic_lru.next == ic.lru[0];
    icb := ic.ic_metadata_buffer[ic.ic_lru.next.id];
    IoCacheDisconnect(ic, icb, live, ic.lru[0].id);
  }
}
