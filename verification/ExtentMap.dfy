/** extent_tree.c, extent_map.c: the lookups that interpret an extent tree. */
module ExtentMap {
  import opened Common
  import opened Units
  import opened ExtentTree
  import opened Holes

  /** `cmfs_read_extent_block`. */
  method ReadExtentBlock(fs: Fs, blkno: nat) returns (ret: Errcode, eb: ExtentBlock)
    ensures ret == BadBlkno <==> !(2 <= blkno <= fs.fs_blocks)
    ensures ret == BadMagic <==> 2 <= blkno <= fs.fs_blocks && blkno !in fs.blocks
    ensures ret == Ok <==>
      && 2 <= blkno <= fs.fs_blocks && blkno in fs.blocks
      && |fs.blocks[blkno].h_list.l_recs| <= fs.blocks[blkno].h_list.l_count
    ensures ret == Ok ==> eb == fs.blocks[blkno]
    ensures ret in {Ok, BadBlkno, BadMagic, CorruptExtentBlock}
  {
    eb := ExtentBlock(0, 0, EmptyList());
    if blkno < CMFS_SUPER_BLOCK_BLKNO || blkno > fs.fs_blocks {
      return BadBlkno, eb;
    }
    if blkno !in fs.blocks {
      return BadMagic, eb;
    }
    eb := fs.blocks[blkno];
    ret := if |eb.h_list.l_recs| > eb.h_list.l_count then CorruptExtentBlock else Ok;
  }

  /** `struct cmfs_path_item`; `buf` is empty for the root, which lives in the inode. */
  datatype PathItem = PathItem(blkno: nat, buf: Option<ExtentBlock>, el: ExtentList) | Unused

  /** `struct cmfs_path`, made by `cmfs_new_path`. */
  class CmfsPath {
    const p_tree_depth: nat
    const p_node: array<PathItem>

    constructor (root_el: ExtentList, blkno: nat)
      requires root_el.l_tree_depth < CMFS_MAX_PATH_DEPTH
      ensures p_tree_depth == root_el.l_tree_depth && p_node.Length == 5 && fresh(p_node)
      ensures p_node[0] == PathItem(blkno, None, root_el)
      ensures forall d :: 1 <= d < 5 ==> p_node[d] == Unused
    {
      p_tree_depth, p_node := root_el.l_tree_depth, new PathItem[CMFS_MAX_PATH_DEPTH](d => Unused);
      new;
      p_node[0] := PathItem(blkno, None, root_el);
    }
  }

  /** The block that the record followed from level `d` points to. */
  ghost function BlockBelow(fs: Fs, root_el: ExtentList, v: nat, d: nat): nat
    requires 0 < fs.bpc
  {
    var above := Descend(fs, root_el, v, d);
    if above.l_recs == [] then 0 else above.l_recs[Pick(fs, above, v, 0)].e_blkno
  }

  /** Slot `d` of a path to `v` holds the block `d` levels down. */
  ghost predicate OnPath(fs: Fs, root_el: ExtentList, v: nat, d: nat, item: PathItem)
    requires 0 < fs.bpc && 0 < d
  {
    && item.PathItem? && item.blkno == BlockBelow(fs, root_el, v, d - 1) && item.el == Descend(fs, root_el, v, d)
    && item.blkno in fs.blocks && item.buf == Some(fs.blocks[item.blkno]) && item.el == fs.blocks[item.blkno].h_list
    && item.blkno == fs.blocks[item.blkno].h_blkno
  }

  /** The scan of one interior list: the index of the record to follow. */
  method PickRecord(fs: Fs, el: ExtentList, cpos: nat) returns (i: nat)
    requires 0 < fs.bpc && el.l_recs != []
    ensures i < |el.l_recs| && i == Pick(fs, el, cpos, 0)
  {
    i := 0;
    while i < |el.l_recs| - 1
      invariant i < |el.l_recs| && Pick(fs, el, cpos, i) == Pick(fs, el, cpos, 0)
    {
      var rec := el.l_recs[i];
      var range: uint32 := (rec.e_cpos + RecClusters(fs, el.l_tree_depth, rec)) % TWO32;
      if cpos >= rec.e_cpos && cpos < range {
        break;
      }
      i := i + 1;
    }
  }

  /** The block of a child can be read, and holds the child's list. */
  lemma KidReadable(fs: Fs, el: ExtentList, lo: nat, hi: nat, i: nat)
    requires 0 < fs.bpc && WellFormed(fs, el, lo, hi) && 0 < el.l_tree_depth && i < |el.l_recs|
    ensures var b := el.l_recs[i].e_blkno;
      && CMFS_SUPER_BLOCK_BLKNO <= b <= fs.fs_blocks && b in fs.blocks && fs.blocks[b].h_blkno == b
      && fs.blocks[b].h_list == Kid(fs, el, i) && |Kid(fs, el, i).l_recs| <= Kid(fs, el, i).l_count
      && Kid(fs, el, i).l_tree_depth == el.l_tree_depth - 1
  {
    assert KidOk(fs, el, i);
    assert WellFormed(fs, Kid(fs, el, i), el.l_recs[i].e_cpos, End(fs, el.l_tree_depth, el.l_recs[i]));
  }

  /** One step down of `__cmfs_find_path`, from level `d`: the block of the record picked. */
  method NextOnPath(fs: Fs, ghost root_el: ExtentList, el: ExtentList, cpos: nat, ghost d: nat, ghost lo: nat,
                    ghost hi: nat)
    returns (ret: Errcode, eb: ExtentBlock)
    requires 0 < fs.bpc && WellFormed(fs, root_el, lo, hi) && d < root_el.l_tree_depth
    requires el == Descend(fs, root_el, cpos, d) && el.l_tree_depth == root_el.l_tree_depth - d
    ensures ret == Ok && eb.h_list == Descend(fs, root_el, cpos, d + 1) && eb.h_list.l_tree_depth == el.l_tree_depth - 1
    ensures OnPath(fs, root_el, cpos, d + 1, PathItem(eb.h_blkno, Some(eb), eb.h_list))
  {
    ghost var lo', hi' := DescendWellFormed(fs, root_el, lo, hi, cpos, d);
    eb := ExtentBlock(0, 0, EmptyList());
    if el.l_recs == [] {
      return CorruptExtentBlock, eb;
    }
    var i := PickRecord(fs, el, cpos);
    KidReadable(fs, el, lo', hi', i);
    var blkno := el.l_recs[i].e_blkno;
    if blkno == 0 {
      return CorruptExtentBlock, eb;
    }
    ret, eb := ReadExtentBlock(fs, blkno);
    if ret != Ok {
      return;
    }
    if |eb.h_list.l_recs| > eb.h_list.l_count {
      return CorruptExtentBlock, eb;
    }
  }

  /** `__cmfs_find_path`, with the callback of `cmfs_find_path`: fills exactly the
      slots from 1 to the depth of the root with the blocks on the way down. */
  method FindPath(fs: Fs, path: CmfsPath, cpos: nat, ghost lo: nat, ghost hi: nat) returns (ret: Errcode)
    requires 0 < fs.bpc && path.p_node.Length == CMFS_MAX_PATH_DEPTH
    requires path.p_node[0].PathItem? && WellFormed(fs, path.p_node[0].el, lo, hi)
    requires path.p_node[0].el.l_tree_depth < CMFS_MAX_PATH_DEPTH
    modifies path.p_node
    ensures ret == Ok
    ensures var root_el := old(path.p_node[0].el);
      && (forall d :: 1 <= d <= root_el.l_tree_depth ==> OnPath(fs, root_el, cpos, d, path.p_node[d]))
      && (forall d :: 0 <= d < CMFS_MAX_PATH_DEPTH && !(1 <= d <= root_el.l_tree_depth) ==>
        path.p_node[d] == old(path.p_node[d]))
  {
    ghost var root_el := path.p_node[0].el;
    var el, index := path.p_node[0].el, 1;
    ret := Ok;
    while el.l_tree_depth > 0
      invariant ret == Ok && 1 <= index && index - 1 + el.l_tree_depth == root_el.l_tree_depth
      invariant el == Descend(fs, root_el, cpos, index - 1)
      invariant forall d :: 1 <= d < index ==> OnPath(fs, root_el, cpos, d, path.p_node[d])
      invariant forall d :: 0 <= d < CMFS_MAX_PATH_DEPTH && !(1 <= d < index) ==> path.p_node[d] == old(path.p_node[d])
      decreases el.l_tree_depth
    {
      var eb;
      ret, eb := NextOnPath(fs, root_el, el, cpos, index - 1, lo, hi);
      if ret != Ok {
        return;
      }
      el := eb.h_list;
      path.p_node[index] := PathItem(eb.h_blkno, Some(eb), eb.h_list);
      index := index + 1;
    }
  }

  /** `cmfs_tree_find_leaf`. */
  method TreeFindLeaf(fs: Fs, el: ExtentList, el_blkno: nat, cpos: nat, ghost lo: nat, ghost hi: nat)
    returns (ret: Errcode, leaf_buf: ExtentBlock, ghost blkno: nat)
    requires 0 < fs.bpc && WellFormed(fs, el, lo, hi) && 0 < el.l_tree_depth < CMFS_MAX_PATH_DEPTH
    ensures ret == Ok && leaf_buf.h_list == Descend(fs, el, cpos, el.l_tree_depth)
    ensures blkno in fs.blocks && leaf_buf == fs.blocks[blkno] && blkno == BlockBelow(fs, el, cpos, el.l_tree_depth - 1)
  {
    var path := new CmfsPath(el, el_blkno);
    ret := FindPath(fs, path, cpos, lo, hi);
    var item := path.p_node[path.p_tree_depth];
    assert OnPath(fs, el, cpos, el.l_tree_depth, item);
    leaf_buf, blkno := item.buf.value, item.blkno;
  }

  /** `cmfs_search_extent_list`: the first record that covers the cluster, or -1. */
  method SearchExtentList(fs: Fs, el: ExtentList, v_cluster: nat) returns (ret: int)
    requires 0 < fs.bpc && forall i :: 0 <= i < |el.l_recs| ==> End(fs, el.l_tree_depth, el.l_recs[i]) < TWO64
    ensures -1 <= ret < |el.l_recs|
    ensures ret >= 0 ==> Covers(fs, el.l_tree_depth, el.l_recs[ret], v_cluster)
    ensures forall j :: 0 <= j < (if ret >= 0 then ret else |el.l_recs|) ==>
      !Covers(fs, el.l_tree_depth, el.l_recs[j], v_cluster)
  {
    ret := -1;
    var i := 0;
    while i < |el.l_recs|
      invariant 0 <= i <= |el.l_recs| && ret == -1
      invariant forall j :: 0 <= j < i ==> !Covers(fs, el.l_tree_depth, el.l_recs[j], v_cluster)
    {
      var rec := el.l_recs[i];
      var rec_end: uint64 := (rec.e_cpos + RecClusters(fs, el.l_tree_depth, rec)) % TWO64;
      if v_cluster >= rec.e_cpos && v_cluster < rec_end {
        ret := i;
        break;
      }
      i := i + 1;
    }
  }

  // ---- holes ----

  /** `cmfs_search_for_hole_index`. */
  method SearchForHoleIndex(el: ExtentList, v_cluster: nat) returns (i: nat)
    ensures i <= |el.l_recs| && (i < |el.l_recs| ==> v_cluster < el.l_recs[i].e_cpos)
    ensures NextStart(el.l_recs, v_cluster) == if i < |el.l_recs| then Some(el.l_recs[i].e_cpos) else None
    ensures AllPast(el.l_recs, v_cluster) ==> i == 0
  {
    i := 0;
    assert el.l_recs[0..] == el.l_recs;
    while i < |el.l_recs|
      invariant i <= |el.l_recs| && NextStart(el.l_recs[i..], v_cluster) == NextStart(el.l_recs, v_cluster)
      invariant AllPast(el.l_recs, v_cluster) ==> i == 0
    {
      if v_cluster < el.l_recs[i].e_cpos {
        break;
      }
      assert el.l_recs[i..][1..] == el.l_recs[i + 1..];
      i := i + 1;
    }
  }

  /** The leaf's own links lead to the records after it. */
  ghost predicate LinkedTo(fs: Fs, eb: Option<ExtentBlock>, v: nat, rest: seq<ExtentRec>) {
    AllPast(rest, v) && if eb.None? then rest == [] else Front(fs, eb.value.h_next_leaf_block, rest)
  }

  /** `cmfs_figure_hole_clusters`: with good links, the hole of the whole file. */
  method FigureHoleClusters(fs: Fs, el: ExtentList, eb: Option<ExtentBlock>, v_cluster: uint64,
                            ghost rest: seq<ExtentRec>)
    returns (ret: Errcode, num_clusters: uint64)
    requires 0 < fs.bpc
    ensures LinkedTo(fs, eb, v_cluster, rest) ==> ret == Ok && num_clusters == HoleSize(el.l_recs + rest, v_cluster)
  {
    var el' := el;
    ret, num_clusters := Ok, 0;
    var i := SearchForHoleIndex(el, v_cluster);
    NextStartConcat(el.l_recs, rest, v_cluster);
    if i == |el.l_recs| && eb.Some? && eb.value.h_next_leaf_block != 0 {
      var next_eb;
      ret, next_eb := ReadExtentBlock(fs, eb.value.h_next_leaf_block);
      if ret != Ok {
        return;
      }
      el' := next_eb.h_list;
      assert LinkedTo(fs, eb, v_cluster, rest) ==> AllPast(el'.l_recs, v_cluster);
      i := SearchForHoleIndex(el', v_cluster);
      if i > 0 {
        if i > 1 || RecClusters(fs, el'.l_tree_depth, el'.l_recs[0]) > 0 {
          return CorruptExtentBlock, 0;
        }
      }
    }
    if i == |el'.l_recs| {
      num_clusters := TWO64 - 1 - v_cluster;
    } else {
      num_clusters := el'.l_recs[i].e_cpos - v_cluster;
    }
  }

  // ---- cmfs_get_clusters ----

  /** Well-formed below the root of a file, with a path that fits. */
  ghost predicate FileTree(fs: Fs, root_el: ExtentList, hi: nat)
    requires 0 < fs.bpc
  {
    WellFormed(fs, root_el, 0, hi) && root_el.l_tree_depth < CMFS_MAX_PATH_DEPTH && hi < TWO64
  }

  /** The interior records tile the file from 0, and the leaves are linked in order. */
  ghost predicate GoodLinks(fs: Fs, root_el: ExtentList, hi: nat)
    requires 0 < fs.bpc
  {
    Tiled(fs, root_el, 0, hi) && Chained(fs, root_el, 0)
  }

  /** What the leaf links say about a hole found after the descent to `v`. */
  lemma LinkedLeaf(fs: Fs, root_el: ExtentList, hi: nat, v: nat, eb: Option<ExtentBlock>) returns (rest: seq<ExtentRec>)
    requires 0 < fs.bpc && FileTree(fs, root_el, hi) && GoodLinks(fs, root_el, hi) && AllVisible(fs, root_el, v)
      && v < TWO64
    requires if root_el.l_tree_depth == 0 then eb.None?
             else var b := BlockBelow(fs, root_el, v, root_el.l_tree_depth - 1);
               && b in fs.blocks
               && eb == Some(fs.blocks[b])
    ensures var leaf := Descend(fs, root_el, v, root_el.l_tree_depth);
      LinkedTo(fs, eb, v, rest) && HoleSize(leaf.l_recs + rest, v) == HoleSize(Leaves(fs, root_el), v)
  {
    var d := root_el.l_tree_depth;
    var lo', hi', next', before', rest' := PlacedLeaf(fs, root_el, hi, v, d);
    var leaf := Descend(fs, root_el, v, d);
    SameHole(before', leaf.l_recs, rest', v);
    rest := if d == 0 then [] else rest';
    if d == 0 {
      assert |before'| + |leaf.l_recs| + |rest'| == |leaf.l_recs|;
      assert rest' == [];
    }
  }

  /** Records before `v` do not matter for the hole at `v`. */
  lemma SameHole(before: seq<ExtentRec>, leaf: seq<ExtentRec>, rest: seq<ExtentRec>, v: nat)
    requires NonePast(before, v) && AllPast(rest, v) && v < TWO64
    ensures HoleSize(leaf + rest, v) == HoleSize(before + leaf + rest, v)
  {
    HoleAcross(before, leaf, rest, v);
    HoleAcross([], leaf, rest, v);
    assert [] + leaf == leaf;
  }

  /** The physical cluster of `v` in the extent `rec`. */
  function PhysCluster(fs: Fs, rec: ExtentRec, v: nat): nat
    requires 0 < fs.bpc && rec.e_cpos <= v
  {
    BlocksToClusters(fs, rec.e_blkno) + (v - rec.e_cpos)
  }

  lemma PhysClusterFits(fs: Fs, rec: ExtentRec, v: nat)
    requires 0 < fs.bpc && LeafRecOk(fs, rec) && Covers(fs, 0, rec, v)
    ensures 0 < PhysCluster(fs, rec, v) < TWO64 && v - rec.e_cpos < TWO32
  {
    var b, c := rec.e_blkno / fs.bpc, rec.e_leaf_blocks / fs.bpc;
    DivMod(rec.e_blkno, fs.bpc);
    DivMod(rec.e_leaf_blocks, fs.bpc);
    Order(fs.bpc, 0, b);
    Order(fs.bpc, 0, c);
    Order(fs.bpc, b, b);
    Order(fs.bpc, c, c);
    assert Times(0, fs.bpc) == 0;
  }

  /** The end of `cmfs_get_clusters`, for the record that covers the cluster. */
  method MapRecord(fs: Fs, rec: ExtentRec, v_cluster: uint64)
    returns (ret: Errcode, p_cluster: uint64, num_clusters: uint64)
    requires 0 < fs.bpc && LeafRecOk(fs, rec) && Covers(fs, 0, rec, v_cluster) && End(fs, 0, rec) < TWO64
    ensures ret == Ok && p_cluster == PhysCluster(fs, rec, v_cluster) && p_cluster != 0
    ensures num_clusters == End(fs, 0, rec) - v_cluster
  {
    ret, p_cluster, num_clusters := Ok, 0, 0;
    PhysClusterFits(fs, rec, v_cluster);
    if rec.e_blkno == 0 {
      ret := BadBlkno;
      return;
    }
    var coff: uint32 := (v_cluster - rec.e_cpos) % TWO32;
    p_cluster := (BlocksToClusters(fs, rec.e_blkno) + coff) % TWO64;
    num_clusters := RecClusters(fs, 0, rec) - coff;
  }

  /** `cmfs_get_clusters`.  In every well-formed tree the answer is the extent
      that the leaf reached finds for the cluster, or a hole; `DescendLookup` says
      when that is what the whole tree maps.  A hole is sized if `sized`. */
  method GetClusters(fs: Fs, root_el: ExtentList, i_blkno: nat, v_cluster: uint64, sized: bool, ghost hi: nat)
    returns (ret: Errcode, p_cluster: uint64, num_clusters: uint64, flags: uint8)
    requires 0 < fs.bpc && FileTree(fs, root_el, hi)
    ensures match Lookup(fs, Descend(fs, root_el, v_cluster, root_el.l_tree_depth).l_recs, v_cluster)
      case Some(rec) =>
        && ret == Ok && Covers(fs, 0, rec, v_cluster) && p_cluster == PhysCluster(fs, rec, v_cluster) && p_cluster != 0
        && num_clusters == End(fs, 0, rec) - v_cluster && flags == rec.e_flags
      case None =>
        && p_cluster == 0 && flags == 0 && (!sized ==> ret == Ok)
        && (sized && GoodLinks(fs, root_el, hi) && AllVisible(fs, root_el, v_cluster) ==>
              ret == Ok && num_clusters == HoleSize(Leaves(fs, root_el), v_cluster))
  {
    ret, p_cluster, num_clusters, flags := Ok, 0, 0, 0;
    var el, eb := root_el, None;
    if el.l_tree_depth > 0 {
      var leaf_buf;
      ghost var b;
      ret, leaf_buf, b := TreeFindLeaf(fs, root_el, i_blkno, v_cluster, 0, hi);
      if ret != Ok {
        return;
      }
      el, eb := leaf_buf.h_list, Some(leaf_buf);
      ghost var lo', hi' := DescendWellFormed(fs, root_el, 0, hi, v_cluster, root_el.l_tree_depth);
      if el.l_tree_depth > 0 {
        ret := CorruptExtentBlock;
        return;
      }
    }
    ghost var lo', hi' := LeafBounds(fs, root_el, hi, v_cluster);
    var i := SearchExtentList(fs, el, v_cluster);
    SearchLookup(fs, el.l_recs, lo', hi', v_cluster, i);
    if i == -1 {
      if sized {
        ghost var rest := [];
        if GoodLinks(fs, root_el, hi) && AllVisible(fs, root_el, v_cluster) {
          rest := LinkedLeaf(fs, root_el, hi, v_cluster, eb);
        }
        ret, num_clusters := FigureHoleClusters(fs, el, eb, v_cluster, rest);
      }
    } else {
      var rec := el.l_recs[i];
      ret, p_cluster, num_clusters := MapRecord(fs, rec, v_cluster);
      flags := rec.e_flags;
    }
  }

  /** The leaf that is reached is sorted, made of good records, and ends within 64 bits. */
  lemma LeafBounds(fs: Fs, root_el: ExtentList, hi: nat, v: nat) returns (lo': nat, hi': nat)
    requires 0 < fs.bpc && FileTree(fs, root_el, hi)
    ensures var leaf := Descend(fs, root_el, v, root_el.l_tree_depth);
      && leaf.l_tree_depth == 0 && Sorted(fs, 0, leaf.l_recs, lo', hi')
      && forall i :: 0 <= i < |leaf.l_recs| ==> LeafRecOk(fs, leaf.l_recs[i]) && End(fs, 0, leaf.l_recs[i]) < TWO64
  {
    lo', hi' := DescendWellFormed(fs, root_el, 0, hi, v, root_el.l_tree_depth);
  }

  /** What the search found is what `Lookup` finds. */
  lemma SearchLookup(fs: Fs, recs: seq<ExtentRec>, lo: nat, hi: nat, v: nat, i: int)
    requires 0 < fs.bpc && Sorted(fs, 0, recs, lo, hi) && -1 <= i < |recs|
    requires i >= 0 ==> Covers(fs, 0, recs[i], v)
    requires i == -1 ==> forall j :: 0 <= j < |recs| ==> !Covers(fs, 0, recs[j], v)
    ensures Lookup(fs, recs, v) == if i >= 0 then Some(recs[i]) else None
  {
    if i >= 0 {
      LookupAt(fs, recs, lo, hi, v, i);
    } else {
      LookupSome(fs, recs, v);
    }
  }
}
