/** cmfs_fs.h, cmfs.h, extent_tree.c: the extent tree of a file on disk, what it
    maps, and the descent to the leaf that could hold a cluster. */
module ExtentTree {
  import opened Common
  import opened Units

  const TWO64: int := 0x1_0000_0000_0000_0000
  const CMFS_MAX_PATH_DEPTH := 5
  const CMFS_EXT_UNWRITTEN := 1

  type uint8 = x: int | 0 <= x < 256
  type uint32 = x: int | 0 <= x < TWO32
  type uint64 = x: int | 0 <= x < TWO64

  /** `struct cmfs_extent_rec`; interior and leaf records name their length differently. */
  datatype ExtentRec = ExtentRec(e_cpos: uint64, e_blkno: uint64, e_int_blocks: uint64, e_leaf_blocks: uint32,
                                 e_flags: uint8)

  /** `struct cmfs_extent_list`; `l_recs` are the first `l_next_free_rec` records. */
  datatype ExtentList = ExtentList(l_tree_depth: nat, l_count: nat, l_recs: seq<ExtentRec>)

  datatype ExtentBlock = ExtentBlock(h_blkno: uint64, h_next_leaf_block: uint64, h_list: ExtentList)

  /** The device, as far as extent lookups see it: `blocks` are the blocks that
      carry the signature of an extent block, `bpc` is the number of blocks in a cluster. */
  datatype Fs = Fs(bpc: nat, fs_blocks: nat, blocks: map<nat, ExtentBlock>)

  datatype Errcode = Ok | BadBlkno | BadMagic | CorruptExtentBlock | InvalidArgument | Io

  // ---- units ----

  /** `cmfs_blocks_to_clusters`. */
  function BlocksToClusters(fs: Fs, blocks: nat): nat
    requires 0 < fs.bpc
  {
    blocks / fs.bpc
  }

  /** `cmfs_clusters_to_blocks`: the argument and the shift are 32 bits wide. */
  function ClustersToBlocks(fs: Fs, clusters: nat): uint32
  {
    Times(clusters % TWO32, fs.bpc) % TWO32
  }

  function RecBlocks(depth: nat, rec: ExtentRec): uint64 {
    if depth > 0 then rec.e_int_blocks else rec.e_leaf_blocks
  }

  /** `cmfs_rec_clusters`. */
  function RecClusters(fs: Fs, depth: nat, rec: ExtentRec): nat
    requires 0 < fs.bpc
  {
    BlocksToClusters(fs, RecBlocks(depth, rec))
  }

  /** The first cluster past a record. */
  function End(fs: Fs, depth: nat, rec: ExtentRec): nat
    requires 0 < fs.bpc
  {
    rec.e_cpos + RecClusters(fs, depth, rec)
  }

  predicate Covers(fs: Fs, depth: nat, rec: ExtentRec, v: nat)
    requires 0 < fs.bpc
  {
    rec.e_cpos <= v < End(fs, depth, rec)
  }

  // ---- well-formed trees ----

  /** Records in order and apart, between clusters `lo` and `hi`. */
  ghost predicate Sorted(fs: Fs, depth: nat, recs: seq<ExtentRec>, lo: nat, hi: nat)
    requires 0 < fs.bpc
  {
    && (forall i :: 0 <= i < |recs| ==> lo <= recs[i].e_cpos && End(fs, depth, recs[i]) <= hi)
    && (forall i, j :: 0 <= i < j < |recs| ==> End(fs, depth, recs[i]) <= recs[j].e_cpos)
  }

  function EmptyList(): ExtentList {
    ExtentList(0, 0, [])
  }

  /** The list in the block that the `i`-th record of an interior list points to. */
  function Kid(fs: Fs, el: ExtentList, i: nat): (kid: ExtentList)
    requires i < |el.l_recs| && 0 < el.l_tree_depth
    ensures kid.l_tree_depth < el.l_tree_depth
  {
    var b := el.l_recs[i].e_blkno;
    if b in fs.blocks && fs.blocks[b].h_list.l_tree_depth == el.l_tree_depth - 1 then fs.blocks[b].h_list
      else EmptyList()
  }

  /** A record of a leaf: whole clusters, at a cluster boundary past the first,
      within the 64 bits of a block number. */
  ghost predicate LeafRecOk(fs: Fs, rec: ExtentRec)
    requires 0 < fs.bpc
  {
    && rec.e_leaf_blocks % fs.bpc == 0 && rec.e_blkno + rec.e_leaf_blocks <= TWO64
    && (rec.e_leaf_blocks > 0 ==> rec.e_blkno % fs.bpc == 0 && fs.bpc <= rec.e_blkno)
  }

  ghost predicate KidOk(fs: Fs, el: ExtentList, i: nat)
    requires 0 < fs.bpc && i < |el.l_recs| && 0 < el.l_tree_depth
    decreases el.l_tree_depth, 0
  {
    var rec := el.l_recs[i];
    && CMFS_SUPER_BLOCK_BLKNO <= rec.e_blkno <= fs.fs_blocks
    && rec.e_blkno in fs.blocks && fs.blocks[rec.e_blkno].h_blkno == rec.e_blkno
    && fs.blocks[rec.e_blkno].h_list.l_tree_depth == el.l_tree_depth - 1
    && WellFormed(fs, Kid(fs, el, i), rec.e_cpos, End(fs, el.l_tree_depth, rec))
  }

  /** The tree below `el` maps clusters between `lo` and `hi`. */
  ghost predicate WellFormed(fs: Fs, el: ExtentList, lo: nat, hi: nat)
    requires 0 < fs.bpc
    decreases el.l_tree_depth
  {
    && |el.l_recs| <= el.l_count && Sorted(fs, el.l_tree_depth, el.l_recs, lo, hi)
    && if el.l_tree_depth == 0 then forall i :: 0 <= i < |el.l_recs| ==> LeafRecOk(fs, el.l_recs[i])
       else el.l_recs != [] && forall i :: 0 <= i < |el.l_recs| ==> KidOk(fs, el, i)
  }

  // ---- what a tree maps ----

  /** All leaf records below `el`, in file order: the file as a flat list of extents. */
  function Leaves(fs: Fs, el: ExtentList): seq<ExtentRec>
    decreases el.l_tree_depth, 1, 0
  {
    if el.l_tree_depth == 0 then el.l_recs else LeavesUpTo(fs, el, |el.l_recs|)
  }

  function LeavesUpTo(fs: Fs, el: ExtentList, n: nat): seq<ExtentRec>
    requires 0 < el.l_tree_depth && n <= |el.l_recs|
    decreases el.l_tree_depth, 0, n
  {
    if n == 0 then [] else LeavesUpTo(fs, el, n - 1) + Leaves(fs, Kid(fs, el, n - 1))
  }

  /** The extent that maps cluster `v`. */
  function Lookup(fs: Fs, recs: seq<ExtentRec>, v: nat): Option<ExtentRec>
    requires 0 < fs.bpc
  {
    if recs == [] then None
    else if Covers(fs, 0, recs[0], v) then Some(recs[0])
    else Lookup(fs, recs[1..], v)
  }

  lemma {:induction false} LookupConcat(fs: Fs, a: seq<ExtentRec>, b: seq<ExtentRec>, v: nat)
    requires 0 < fs.bpc
    ensures Lookup(fs, a + b, v) == if Lookup(fs, a, v).Some? then Lookup(fs, a, v) else Lookup(fs, b, v)
  {
    if a == [] {
      assert a + b == b;
    } else {
      assert (a + b)[1..] == a[1..] + b;
      LookupConcat(fs, a[1..], b, v);
    }
  }

  /** `Lookup` finds a record exactly when one covers `v`, and then such a record. */
  lemma {:induction false} LookupSome(fs: Fs, recs: seq<ExtentRec>, v: nat)
    requires 0 < fs.bpc
    ensures Lookup(fs, recs, v).Some? <==> exists i :: 0 <= i < |recs| && Covers(fs, 0, recs[i], v)
    ensures Lookup(fs, recs, v).Some? ==>
      Lookup(fs, recs, v).value in recs && Covers(fs, 0, Lookup(fs, recs, v).value, v)
  {
    if recs != [] && !Covers(fs, 0, recs[0], v) {
      var rest := recs[1..];
      LookupSome(fs, rest, v);
      if i :| 0 <= i < |recs| && Covers(fs, 0, recs[i], v) {
        assert Covers(fs, 0, rest[i - 1], v);
      }
      if i :| 0 <= i < |rest| && Covers(fs, 0, rest[i], v) {
        assert Covers(fs, 0, recs[i + 1], v);
      }
    }
  }

  /** In a sorted list, the record that covers `v` is the one that is found. */
  lemma LookupAt(fs: Fs, recs: seq<ExtentRec>, lo: nat, hi: nat, v: nat, i: nat)
    requires 0 < fs.bpc && Sorted(fs, 0, recs, lo, hi) && i < |recs| && Covers(fs, 0, recs[i], v)
    ensures Lookup(fs, recs, v) == Some(recs[i])
  {
    LookupSome(fs, recs, v);
    var found := Lookup(fs, recs, v).value;
    var j :| 0 <= j < |recs| && recs[j] == found;
    assert i == j;
  }

  lemma LookupOutside(fs: Fs, recs: seq<ExtentRec>, lo: nat, hi: nat, v: nat)
    requires 0 < fs.bpc && Sorted(fs, 0, recs, lo, hi) && !(lo <= v < hi)
    ensures Lookup(fs, recs, v) == None
  {
    LookupSome(fs, recs, v);
  }

  lemma SortedConcat(fs: Fs, a: seq<ExtentRec>, b: seq<ExtentRec>, lo: nat, mid: nat, mid': nat, hi: nat)
    requires 0 < fs.bpc && Sorted(fs, 0, a, lo, mid) && Sorted(fs, 0, b, mid', hi) && mid <= mid' && lo <= mid'
      && mid <= hi
    ensures Sorted(fs, 0, a + b, lo, hi)
  {
    var c := a + b;
    assert forall i :: 0 <= i < |c| ==> c[i] == if i < |a| then a[i] else b[i - |a|];
    forall i, j | 0 <= i < j < |c|
      ensures End(fs, 0, c[i]) <= c[j].e_cpos
    {
    }
  }

  /** The flat list is sorted, and made of good records. */
  lemma {:induction false} LeavesSorted(fs: Fs, el: ExtentList, lo: nat, hi: nat)
    requires 0 < fs.bpc && WellFormed(fs, el, lo, hi)
    ensures Sorted(fs, 0, Leaves(fs, el), lo, hi)
    ensures forall i :: 0 <= i < |Leaves(fs, el)| ==> LeafRecOk(fs, Leaves(fs, el)[i])
    decreases el.l_tree_depth, 1, 0
  {
    if el.l_tree_depth > 0 {
      LeavesUpToSorted(fs, el, lo, hi, |el.l_recs|);
    }
  }

  ghost function UpTo(fs: Fs, el: ExtentList, lo: nat, n: nat): nat
    requires 0 < fs.bpc && n <= |el.l_recs|
  {
    if n == 0 then lo else End(fs, el.l_tree_depth, el.l_recs[n - 1])
  }

  lemma {:induction false} LeavesUpToSorted(fs: Fs, el: ExtentList, lo: nat, hi: nat, n: nat)
    requires 0 < fs.bpc && WellFormed(fs, el, lo, hi) && 0 < el.l_tree_depth && n <= |el.l_recs|
    ensures Sorted(fs, 0, LeavesUpTo(fs, el, n), lo, UpTo(fs, el, lo, n))
    ensures forall i :: 0 <= i < |LeavesUpTo(fs, el, n)| ==> LeafRecOk(fs, LeavesUpTo(fs, el, n)[i])
    ensures lo <= UpTo(fs, el, lo, n)
    decreases el.l_tree_depth, 0, n
  {
    if n > 0 {
      var a, kid, rec := LeavesUpTo(fs, el, n - 1), Kid(fs, el, n - 1), el.l_recs[n - 1];
      LeavesUpToSorted(fs, el, lo, hi, n - 1);
      assert KidOk(fs, el, n - 1);
      LeavesSorted(fs, kid, rec.e_cpos, End(fs, el.l_tree_depth, rec));
      SortedConcat(fs, a, Leaves(fs, kid), lo, UpTo(fs, el, lo, n - 1), rec.e_cpos, UpTo(fs, el, lo, n));
    }
  }

  // ---- descent ----

  /** Looking into one child is enough when no other one can map `v`. */
  lemma {:induction false} LookupKids(fs: Fs, el: ExtentList, lo: nat, hi: nat, v: nat, at: nat, n: nat)
    requires 0 < fs.bpc && WellFormed(fs, el, lo, hi) && 0 < el.l_tree_depth && at < |el.l_recs| && n <= |el.l_recs|
    requires forall j :: 0 <= j < |el.l_recs| && j != at ==> !Covers(fs, el.l_tree_depth, el.l_recs[j], v)
    ensures Lookup(fs, LeavesUpTo(fs, el, n), v) == if at < n then Lookup(fs, Leaves(fs, Kid(fs, el, at)), v) else None
    decreases n
  {
    if n > 0 {
      LookupKids(fs, el, lo, hi, v, at, n - 1);
      var kid, rec := Kid(fs, el, n - 1), el.l_recs[n - 1];
      LookupConcat(fs, LeavesUpTo(fs, el, n - 1), Leaves(fs, kid), v);
      if n - 1 != at {
        assert KidOk(fs, el, n - 1);
        LeavesSorted(fs, kid, rec.e_cpos, End(fs, el.l_tree_depth, rec));
        LookupOutside(fs, Leaves(fs, kid), rec.e_cpos, End(fs, el.l_tree_depth, rec), v);
      }
    }
  }

  lemma LookupKid(fs: Fs, el: ExtentList, lo: nat, hi: nat, v: nat, at: nat)
    requires 0 < fs.bpc && WellFormed(fs, el, lo, hi) && 0 < el.l_tree_depth && at < |el.l_recs|
    requires forall j :: 0 <= j < |el.l_recs| && j != at ==> !Covers(fs, el.l_tree_depth, el.l_recs[j], v)
    ensures Lookup(fs, Leaves(fs, el), v) == Lookup(fs, Leaves(fs, Kid(fs, el, at)), v)
  {
    LookupKids(fs, el, lo, hi, v, at, |el.l_recs|);
  }

  /** `e_flags & CMFS_EXT_UNWRITTEN`. */
  predicate Unwritten(flags: nat) {
    flags % 2 == CMFS_EXT_UNWRITTEN
  }

  /** The test of the descent; the end of the range is kept in 32 bits. */
  predicate InRange(fs: Fs, depth: nat, rec: ExtentRec, v: nat)
    requires 0 < fs.bpc
  {
    rec.e_cpos <= v < End(fs, depth, rec) % TWO32
  }

  /** The record a descent follows: the first that seems to cover `v`, looking at
      all but the last from `i` on, or else the last. */
  function Pick(fs: Fs, el: ExtentList, v: nat, i: nat): (at: nat)
    requires 0 < fs.bpc && i < |el.l_recs|
    ensures i <= at < |el.l_recs|
    decreases |el.l_recs| - i
  {
    if i == |el.l_recs| - 1 || InRange(fs, el.l_tree_depth, el.l_recs[i], v) then i else Pick(fs, el, v, i + 1)
  }

  /** The list `d` levels down on the way to `v`. */
  function Descend(fs: Fs, el: ExtentList, v: nat, d: nat): ExtentList
    requires 0 < fs.bpc
  {
    if d == 0 then el
    else
      var above := Descend(fs, el, v, d - 1);
      if above.l_tree_depth == 0 || above.l_recs == [] then above else Kid(fs, above, Pick(fs, above, v, 0))
  }

  /** No record but the last covers `v` only past the 32-bit end of its range. */
  ghost predicate Visible(fs: Fs, el: ExtentList, v: nat)
    requires 0 < fs.bpc
  {
    forall i :: 0 <= i < |el.l_recs| - 1 && Covers(fs, el.l_tree_depth, el.l_recs[i], v) ==>
      InRange(fs, el.l_tree_depth, el.l_recs[i], v)
  }

  /** `Visible` at the first `d` lists on the way to `v`. */
  ghost predicate VisibleTo(fs: Fs, el: ExtentList, v: nat, d: nat)
    requires 0 < fs.bpc
  {
    d == 0 || (VisibleTo(fs, el, v, d - 1) && Visible(fs, Descend(fs, el, v, d - 1), v))
  }

  ghost predicate AllVisible(fs: Fs, el: ExtentList, v: nat)
    requires 0 < fs.bpc
  {
    VisibleTo(fs, el, v, el.l_tree_depth)
  }

  /** What is picked is the only record that can cover `v`, unless the one that
      does is out of sight. */
  lemma {:induction false} PickOther(fs: Fs, el: ExtentList, lo: nat, hi: nat, v: nat, i: nat)
    requires 0 < fs.bpc && Sorted(fs, el.l_tree_depth, el.l_recs, lo, hi) && i < |el.l_recs|
    requires forall j :: 0 <= j < i ==> !InRange(fs, el.l_tree_depth, el.l_recs[j], v)
    ensures Visible(fs, el, v) ==>
      forall j :: 0 <= j < |el.l_recs| && j != Pick(fs, el, v, i) ==> !Covers(fs, el.l_tree_depth, el.l_recs[j], v)
    ensures !Visible(fs, el, v) ==> !Covers(fs, el.l_tree_depth, el.l_recs[Pick(fs, el, v, i)], v)
    decreases |el.l_recs| - i
  {
    if i < |el.l_recs| - 1 && !InRange(fs, el.l_tree_depth, el.l_recs[i], v) {
      PickOther(fs, el, lo, hi, v, i + 1);
    }
  }

  /** The list `d` levels down is well-formed, and nests in the file. */
  lemma {:induction false} DescendWellFormed(fs: Fs, el: ExtentList, lo: nat, hi: nat, v: nat, d: nat)
    returns (lo': nat, hi': nat)
    requires 0 < fs.bpc && WellFormed(fs, el, lo, hi) && d <= el.l_tree_depth
    ensures Descend(fs, el, v, d).l_tree_depth == el.l_tree_depth - d
    ensures WellFormed(fs, Descend(fs, el, v, d), lo', hi') && lo <= lo' && hi' <= hi
  {
    lo', hi' := lo, hi;
    if d > 0 {
      lo', hi' := DescendWellFormed(fs, el, lo, hi, v, d - 1);
      var above := Descend(fs, el, v, d - 1);
      var at := Pick(fs, above, v, 0);
      assert KidOk(fs, above, at);
      lo', hi' := above.l_recs[at].e_cpos, End(fs, above.l_tree_depth, above.l_recs[at]);
    }
  }

  /** Following one record down keeps the mapping of `v` when it is in sight, and
      loses it otherwise. */
  lemma StepLookup(fs: Fs, el: ExtentList, lo: nat, hi: nat, v: nat)
    requires 0 < fs.bpc && WellFormed(fs, el, lo, hi) && 0 < el.l_tree_depth
    ensures Lookup(fs, Leaves(fs, Kid(fs, el, Pick(fs, el, v, 0))), v)
      == if Visible(fs, el, v) then Lookup(fs, Leaves(fs, el), v) else None
  {
    var at := Pick(fs, el, v, 0);
    PickOther(fs, el, lo, hi, v, 0);
    if Visible(fs, el, v) {
      LookupKid(fs, el, lo, hi, v, at);
    } else {
      assert KidOk(fs, el, at);
      var rec := el.l_recs[at];
      LeavesSorted(fs, Kid(fs, el, at), rec.e_cpos, End(fs, el.l_tree_depth, rec));
      LookupOutside(fs, Leaves(fs, Kid(fs, el, at)), rec.e_cpos, End(fs, el.l_tree_depth, rec), v);
    }
  }

  lemma {:induction false} DescendLeaves(fs: Fs, el: ExtentList, lo: nat, hi: nat, v: nat, d: nat)
    requires 0 < fs.bpc && WellFormed(fs, el, lo, hi) && d <= el.l_tree_depth
    ensures Lookup(fs, Leaves(fs, Descend(fs, el, v, d)), v)
      == if VisibleTo(fs, el, v, d) then Lookup(fs, Leaves(fs, el), v) else None
  {
    if d > 0 {
      DescendLeaves(fs, el, lo, hi, v, d - 1);
      var lo', hi' := DescendWellFormed(fs, el, lo, hi, v, d - 1);
      StepLookup(fs, Descend(fs, el, v, d - 1), lo', hi', v);
    }
  }

  /** The leaf that the descent reaches maps `v` exactly as the whole tree does:
      if and only if `v` is a hole, or in sight on every level. */
  lemma DescendLookup(fs: Fs, el: ExtentList, lo: nat, hi: nat, v: nat)
    requires 0 < fs.bpc && WellFormed(fs, el, lo, hi)
    ensures var leaf := Descend(fs, el, v, el.l_tree_depth);
      && (Lookup(fs, leaf.l_recs, v) == Lookup(fs, Leaves(fs, el), v)
          <==> Lookup(fs, Leaves(fs, el), v) == None || AllVisible(fs, el, v))
      && (!AllVisible(fs, el, v) ==> Lookup(fs, leaf.l_recs, v) == None)
  {
    DescendLeaves(fs, el, lo, hi, v, el.l_tree_depth);
    var lo', hi' := DescendWellFormed(fs, el, lo, hi, v, el.l_tree_depth);
  }

  // ---- within 32 bits ----

  /** No interior record but the last of its list ends at cluster 2^32 or later. */
  ghost predicate Fits32(fs: Fs, el: ExtentList)
    requires 0 < fs.bpc
    decreases el.l_tree_depth
  {
    el.l_tree_depth > 0 ==>
      && (forall i :: 0 <= i < |el.l_recs| - 1 ==> End(fs, el.l_tree_depth, el.l_recs[i]) < TWO32)
      && (forall i :: 0 <= i < |el.l_recs| ==> Fits32(fs, Kid(fs, el, i)))
  }

  lemma {:induction false} DescendFits(fs: Fs, el: ExtentList, v: nat, d: nat)
    requires 0 < fs.bpc && Fits32(fs, el)
    ensures Fits32(fs, Descend(fs, el, v, d))
  {
    if d > 0 {
      DescendFits(fs, el, v, d - 1);
    }
  }

  /** Within 32 bits every cluster is in sight. */
  lemma {:induction false} FitsVisible(fs: Fs, el: ExtentList, lo: nat, hi: nat, v: nat, d: nat)
    requires 0 < fs.bpc && WellFormed(fs, el, lo, hi) && Fits32(fs, el) && d <= el.l_tree_depth
    ensures VisibleTo(fs, el, v, d)
  {
    if d > 0 {
      FitsVisible(fs, el, lo, hi, v, d - 1);
      DescendFits(fs, el, v, d - 1);
      var lo', hi' := DescendWellFormed(fs, el, lo, hi, v, d - 1);
    }
  }
}
