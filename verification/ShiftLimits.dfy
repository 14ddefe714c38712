/** Where the 32-bit arithmetic of the extent code stops being exact. */
module ShiftLimits {
  import opened Common
  import opened Units
  import opened ExtentTree
  import opened Holes
  import opened ExtentMap
  import opened BlockMap
  import opened ExtentIterate
  import opened DebugFs
  import opened FileIo

  function WrapLeaf(first: bool): ExtentList {
    ExtentList(0, 4, [if first then ExtentRec(0, 100, 0, 50, 0) else ExtentRec(TWO32, 500, 0, 1, 0)])
  }

  function WrapFs(): Fs {
    Fs(1, 20, map[10 := ExtentBlock(10, 11, WrapLeaf(true)), 11 := ExtentBlock(11, 0, WrapLeaf(false))])
  }

  function WrapRoot(): ExtentList {
    ExtentList(1, 4, [ExtentRec(0, 10, TWO32, 0, 0), ExtentRec(TWO32, 11, 1, 0, 0)])
  }

  /** The example, by name. */
  ghost predicate WrapTree(fs: Fs, root_el: ExtentList, leaf0: ExtentList, leaf1: ExtentList) {
    fs == WrapFs() && root_el == WrapRoot() && leaf0 == WrapLeaf(true) && leaf1 == WrapLeaf(false)
  }

  lemma WrapEnds(fs: Fs, root_el: ExtentList, leaf0: ExtentList, leaf1: ExtentList)
    requires WrapTree(fs, root_el, leaf0, leaf1)
    ensures Kid(fs, root_el, 0) == leaf0 && Kid(fs, root_el, 1) == leaf1
    ensures End(fs, 1, root_el.l_recs[0]) == TWO32 && End(fs, 1, root_el.l_recs[1]) == TWO32 + 1
    ensures End(fs, 0, leaf0.l_recs[0]) == 50 && End(fs, 0, leaf1.l_recs[0]) == TWO32 + 1
  {
  }

  lemma WrapLeaves(fs: Fs, root_el: ExtentList, leaf0: ExtentList, leaf1: ExtentList)
    requires WrapTree(fs, root_el, leaf0, leaf1)
    ensures WellFormed(fs, leaf0, 0, TWO32) && WellFormed(fs, leaf1, TWO32, TWO32 + 1)
  {
    WrapEnds(fs, root_el, leaf0, leaf1);
  }

  lemma WrapKids(fs: Fs, root_el: ExtentList, leaf0: ExtentList, leaf1: ExtentList)
    requires WrapTree(fs, root_el, leaf0, leaf1)
    ensures KidOk(fs, root_el, 0) && KidOk(fs, root_el, 1)
  {
    WrapEnds(fs, root_el, leaf0, leaf1);
    WrapLeaves(fs, root_el, leaf0, leaf1);
  }

  lemma WrapWellFormed(fs: Fs, root_el: ExtentList, leaf0: ExtentList, leaf1: ExtentList)
    requires WrapTree(fs, root_el, leaf0, leaf1)
    ensures FileTree(fs, root_el, TWO32 + 1)
  {
    WrapEnds(fs, root_el, leaf0, leaf1);
    WrapKids(fs, root_el, leaf0, leaf1);
  }

  lemma WrapLinks(fs: Fs, root_el: ExtentList, leaf0: ExtentList, leaf1: ExtentList)
    requires WrapTree(fs, root_el, leaf0, leaf1)
    ensures GoodLinks(fs, root_el, TWO32 + 1)
  {
    WrapEnds(fs, root_el, leaf0, leaf1);
    assert FirstLeaf(fs, root_el, 1) == 11;
    assert KidChained(fs, root_el, 0, 11) && KidChained(fs, root_el, 1, 0);
  }

  lemma WrapMapped(fs: Fs, root_el: ExtentList, leaf0: ExtentList, leaf1: ExtentList)
    requires WrapTree(fs, root_el, leaf0, leaf1)
    ensures Lookup(fs, Leaves(fs, root_el), 5).Some?
  {
  }

  /** A well-formed, tiled and linked tree whose first interior record ends at
      cluster 2^32: the lookup reports a hole at cluster 5, which is mapped. */
  lemma RangeWraps(fs: Fs, root_el: ExtentList, leaf0: ExtentList, leaf1: ExtentList)
    requires WrapTree(fs, root_el, leaf0, leaf1)
    ensures FileTree(fs, root_el, TWO32 + 1) && GoodLinks(fs, root_el, TWO32 + 1)
    ensures Lookup(fs, Leaves(fs, root_el), 5).Some?
    ensures Lookup(fs, Descend(fs, root_el, 5, root_el.l_tree_depth).l_recs, 5) == None
  {
    WrapWellFormed(fs, root_el, leaf0, leaf1);
    WrapLinks(fs, root_el, leaf0, leaf1);
    WrapMapped(fs, root_el, leaf0, leaf1);
    WrapEnds(fs, root_el, leaf0, leaf1);
    OutOfSight(fs, root_el, 5);
    DescendLookup(fs, root_el, 0, TWO32 + 1, 5);
  }

  lemma OutOfSight(fs: Fs, root_el: ExtentList, v: nat)
    requires 0 < fs.bpc && root_el.l_tree_depth == 1 && 1 < |root_el.l_recs|
    requires Covers(fs, 1, root_el.l_recs[0], v) && !InRange(fs, 1, root_el.l_recs[0], v)
    ensures !AllVisible(fs, root_el, v)
  {
  }

  /** A file with no extents at all, read at the last cluster below block 2^32:
      the hole found there has no blocks. */
  lemma EndOfRange(bpc: nat) returns (fs: Fs, root_el: ExtentList, b: nat)
    requires ClusterSize(bpc)
    ensures fs.bpc == bpc && FileTree(fs, root_el, 0) && GoodLinks(fs, root_el, 0)
    ensures b == TWO32 - bpc && BlocksToClusters(fs, b) < TWO64 && HoleBlocks(fs, Leaves(fs, root_el), b) == 0
  {
    fs, root_el, b := Fs(bpc, 0, map[]), EmptyList(), TWO32 - bpc;
    Divides(bpc);
    DivMod(TWO32, bpc);
    var m := TWO32 / bpc;
    Add(bpc, m - 1, 1);
    assert Times(1, bpc) == bpc;
    DivOf(bpc, m - 1, 0);
    EndCountZero(fs, Leaves(fs, root_el), b);
  }

  /** A file of one cluster, `cpos` clusters in. */
  function LoneRoot(bpc: nat, cpos: uint64): ExtentList
    requires ClusterSize(bpc)
  {
    ExtentList(0, 1, [ExtentRec(cpos, bpc, 0, bpc, 0)])
  }

  lemma LoneTree(fs: Fs, cpos: uint64)
    requires ClusterSize(fs.bpc) && 0 < cpos && cpos + 1 < TWO64
    ensures var el := LoneRoot(fs.bpc, cpos);
      && FileTree(fs, el, cpos + 1) && GoodLinks(fs, el, cpos + 1) && Leaves(fs, el) == el.l_recs
      && Lookup(fs, el.l_recs, 0) == None && Lookup(fs, el.l_recs, cpos).Some?
      && NextStart(el.l_recs, 0) == Some(cpos) && HoleSize(el.l_recs, 0) == cpos && AllVisible(fs, el, 0)
  {
    var rec := LoneRoot(fs.bpc, cpos).l_recs[0];
    DivOf(fs.bpc, 1, 0);
    assert Times(1, fs.bpc) == fs.bpc;
    assert RecClusters(fs, 0, rec) == 1 && End(fs, 0, rec) == cpos + 1;
  }

  /** The cluster 2^32 blocks in. */
  lemma FarCluster(bpc: nat) returns (cpos: uint64)
    requires ClusterSize(bpc)
    ensures 0 < cpos <= TWO32 && Times(cpos, bpc) == TWO32
  {
    Divides(bpc);
    DivMod(TWO32, bpc);
    cpos := TWO32 / bpc;
    Order(bpc, cpos, cpos);
  }

  /** For every cluster size a file with an extent 2^32 blocks in: a reader at the start
      of the hole before it is told of no blocks either. */
  lemma StallsBefore(fs: Fs) returns (cpos: uint64)
    requires ClusterSize(fs.bpc)
    ensures 0 < cpos <= TWO32 && Times(cpos, fs.bpc) == TWO32
    ensures var el := LoneRoot(fs.bpc, cpos);
      && FileTree(fs, el, cpos + 1) && GoodLinks(fs, el, cpos + 1) && AllVisible(fs, el, 0)
      && BlocksToClusters(fs, 0) == 0 && NextStart(Leaves(fs, el), 0) == Some(cpos)
        && HoleBlocks(fs, Leaves(fs, el), 0) == 0
  {
    cpos := FarCluster(fs.bpc);
    LoneTree(fs, cpos);
    DivOf(fs.bpc, 0, 0);
    HoleCountZero(fs, LoneRoot(fs.bpc, cpos).l_recs, 0);
  }

  /** So a read of that file from its start on never ends. */
  lemma ReadStalls(fs: Fs, end: nat) returns (cpos: uint64)
    requires ClusterSize(fs.bpc) && 0 < end <= TWO64
    ensures 0 < cpos <= TWO32 && FileTree(fs, LoneRoot(fs.bpc, cpos), cpos + 1)
      && GoodLinks(fs, LoneRoot(fs.bpc, cpos), cpos + 1)
    ensures forall k: nat :: !AtEnd(fs, Leaves(fs, LoneRoot(fs.bpc, cpos)), 0, end, k)
  {
    cpos := StallsBefore(fs);
    var recs := Leaves(fs, LoneRoot(fs.bpc, cpos));
    LoneTree(fs, cpos);
    RunEmpty(fs, recs, 0);
    DivOf(fs.bpc, 0, 0);
    HoleCountZero(fs, recs, 0);
    assert StallsAt(fs, recs, 0, end, 0);
    ReadEnds(fs, recs, 0, end);
  }

  /** In the same file, for clusters of more than one block, a reader inside the first
      cluster is told of a hole that runs over the extent. */
  lemma RunsOver(fs: Fs) returns (cpos: uint64)
    requires ClusterSize(fs.bpc) && 1 < fs.bpc
    ensures 0 < cpos <= TWO32 && Times(cpos, fs.bpc) == TWO32
    ensures var el := LoneRoot(fs.bpc, cpos);
      && FileTree(fs, el, cpos + 1) && GoodLinks(fs, el, cpos + 1) && AllVisible(fs, el, 0)
        && BlocksToClusters(fs, 1) == 0
      && var n := HoleBlocks(fs, Leaves(fs, el), 1); n == TWO64 - 1 && !HoleFor(fs, Leaves(fs, el), 1, n)
  {
    cpos := FarCluster(fs.bpc);
    LoneTree(fs, cpos);
    DivOf(fs.bpc, 0, 1);
    var recs := LoneRoot(fs.bpc, cpos).l_recs;
    ShiftedCount(fs, recs, 1);
    ShiftOf(cpos, fs.bpc);
    assert RecClusters(fs, 0, recs[0]) > 0 by {
      DivOf(fs.bpc, 1, 0);
      assert Times(1, fs.bpc) == fs.bpc;
    }
    NearExtent(fs, recs, 1, 0);
  }

  /** The same file, of at most one block: the walk visits its first block, a hole. */
  lemma WalksHole(fs: Fs) returns (cpos: uint64)
    requires ClusterSize(fs.bpc)
    ensures 0 < cpos <= TWO32 && Times(cpos, fs.bpc) == TWO32
    ensures var el := LoneRoot(fs.bpc, cpos);
      && FileTree(fs, el, cpos + 1)
      && Walk(fs, Leaves(fs, el), 1) == [Visit(fs.bpc, 0, 0)] && MappedRun(fs, Leaves(fs, el), 0, 1) == []
  {
    cpos := FarCluster(fs.bpc);
    LoneTree(fs, cpos);
    var rec, recs := LoneRoot(fs.bpc, cpos).l_recs[0], LoneRoot(fs.bpc, cpos).l_recs;
    ShiftOf(cpos, fs.bpc);
    assert ClustersToBlocks(fs, cpos) == 0;
    DivOf(fs.bpc, 0, 0);
    assert MappedRun(fs, recs, 1, 0) == [];
    assert recs[..0] == [] && Row(fs.bpc, 0, 0, 0) == [];
    assert Row(fs.bpc, 0, 1, 0) == Row(fs.bpc, 0, 0, 0) + [Visit(fs.bpc, 0, 0)];
    assert Walk(fs, recs, 1) == Walk(fs, recs[..0], 1) + RecRow(rec, 0, 1);
  }

  /** A file of one cluster: for the same block 2^32 clusters further out, a hole, the debugger
      prints the block of that cluster. */
  lemma PrintsElsewhere(fs: Fs) returns (b: nat)
    requires ClusterSize(fs.bpc)
    ensures b == Times(TWO32 + 1, fs.bpc) < TWO64
    ensures var el := LoneRoot(fs.bpc, 1);
      FileTree(fs, el, 2) && Printed(fs, el, b) == fs.bpc && PhysBlock(fs, Leaves(fs, el), b) == 0
  {
    b := Times(TWO32 + 1, fs.bpc);
    var el := LoneRoot(fs.bpc, 1);
    LoneTree(fs, 1);
    DivOf(fs.bpc, TWO32 + 1, 0);
    assert SoughtCluster(fs, b) == 1;
    SeesBelow(fs, el, 0, 2, 1);
    LookupOutside(fs, el.l_recs, 0, 2, TWO32 + 1);
    Sought(fs, b);
    LookupAt(fs, el.l_recs, 0, 2, 1, 0);
  }

  /** In the tree of `RangeWraps` the debugger skips the first interior record, whose number
      of clusters is cut to 0, and prints 0 for a block that is mapped. */
  lemma PrintsNothing(fs: Fs, root_el: ExtentList, leaf0: ExtentList, leaf1: ExtentList)
    requires WrapTree(fs, root_el, leaf0, leaf1)
    ensures FileTree(fs, root_el, TWO32 + 1)
    ensures Printed(fs, root_el, 5) == 0 && PhysBlock(fs, Leaves(fs, root_el), 5) != 0
  {
    WrapWellFormed(fs, root_el, leaf0, leaf1);
    WrapMapped(fs, root_el, leaf0, leaf1);
    WrapEnds(fs, root_el, leaf0, leaf1);
    LeavesSorted(fs, root_el, 0, TWO32 + 1);
    NotZero(fs, Leaves(fs, root_el), 5);
    Skipped(fs, root_el, 5);
  }

  lemma Skipped(fs: Fs, el: ExtentList, b: nat)
    requires 0 < fs.bpc && 0 < |el.l_recs| && Covers(fs, el.l_tree_depth, el.l_recs[0], SoughtCluster(fs, b))
    requires !Spans(fs, el.l_tree_depth, el.l_recs[0], SoughtCluster(fs, b))
    ensures Printed(fs, el, b) == 0
  {
  }

  /** For every cluster size a file whose first cluster is at device block 2^32: the block
      map answers block 0 for it, the number of a hole. */
  lemma AddressCut(fs: Fs) returns (el: ExtentList)
    requires ClusterSize(fs.bpc)
    ensures FileTree(fs, el, 1) && GoodLinks(fs, el, 1) && AllVisible(fs, el, 0)
    ensures PhysBlock(fs, Leaves(fs, el), 0) == TWO32 && MapAnswer(fs, el, 0) == 0
  {
    var rec := ExtentRec(0, TWO32, 0, fs.bpc, 0);
    el := ExtentList(0, 1, [rec]);
    Divides(fs.bpc);
    DivOf(fs.bpc, 1, 0);
    assert Times(1, fs.bpc) == fs.bpc;
    DivOf(fs.bpc, 0, 0);
    DivMod(TWO32, fs.bpc);
    LookupAt(fs, el.l_recs, 0, 1, 0, 0);
  }
}
