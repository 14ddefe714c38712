/** extent_map.c: file blocks to device blocks, in the arithmetic of the code. */
module BlockMap {
  import opened Common
  import opened Units
  import opened ExtentTree
  import opened Holes
  import opened ExtentMap

  /** The device block of file block `b` in the extent `rec`. */
  function BlockAddr(fs: Fs, rec: ExtentRec, b: nat): nat
    requires 0 < fs.bpc && Times(rec.e_cpos, fs.bpc) <= b
  {
    rec.e_blkno + (b - Times(rec.e_cpos, fs.bpc))
  }

  lemma CoveredBlock(fs: Fs, rec: ExtentRec, b: nat)
    requires 0 < fs.bpc && Covers(fs, 0, rec, BlocksToClusters(fs, b))
    ensures Times(rec.e_cpos, fs.bpc) <= b < Times(End(fs, 0, rec), fs.bpc)
  {
    DivMod(b, fs.bpc);
    Order(fs.bpc, rec.e_cpos, BlocksToClusters(fs, b));
    Order(fs.bpc, BlocksToClusters(fs, b), End(fs, 0, rec));
  }

  /** The device block of file block `b`, 0 for a hole. */
  function PhysBlock(fs: Fs, recs: seq<ExtentRec>, b: nat): nat
    requires 0 < fs.bpc
  {
    match Lookup(fs, recs, BlocksToClusters(fs, b))
    case None => 0
    case Some(rec) =>
      LookupSome(fs, recs, BlocksToClusters(fs, b));
      CoveredBlock(fs, rec, b);
      BlockAddr(fs, rec, b)
  }

  /** The 32-bit shift keeps a number of clusters exactly if it is below 2^32 blocks. */
  lemma ShiftExact(fs: Fs, c: nat)
    requires 0 < fs.bpc
    ensures ClustersToBlocks(fs, c) == Times(c, fs.bpc) <==> Times(c, fs.bpc) < TWO32
  {
    ShiftOf(c, fs.bpc);
  }

  /** What the code computes for it: the start of the cluster is cut to 32 bits. */
  function CutAddr(fs: Fs, rec: ExtentRec, b: nat): nat
    requires 0 < fs.bpc && rec.e_cpos <= BlocksToClusters(fs, b)
  {
    Times(PhysCluster(fs, rec, BlocksToClusters(fs, b)), fs.bpc) % TWO32 + b % fs.bpc
  }

  /** The cut is harmless exactly for device blocks below 2^32. */
  lemma CutExact(fs: Fs, rec: ExtentRec, b: nat)
    requires ClusterSize(fs.bpc) && LeafRecOk(fs, rec) && Covers(fs, 0, rec, BlocksToClusters(fs, b))
    ensures Times(rec.e_cpos, fs.bpc) <= b
    ensures CutAddr(fs, rec, b) == BlockAddr(fs, rec, b) <==> BlockAddr(fs, rec, b) < TWO32
  {
    CoveredBlock(fs, rec, b);
    var c, p := BlocksToClusters(fs, b), PhysCluster(fs, rec, BlocksToClusters(fs, b));
    AddrSplit(fs, rec, b);
    BelowTwo32(fs.bpc, p, b % fs.bpc);
    DivMod(b, fs.bpc);
    Divides(fs.bpc);
  }

  lemma AddrBelow(fs: Fs, rec: ExtentRec, b: nat)
    requires ClusterSize(fs.bpc) && LeafRecOk(fs, rec) && Covers(fs, 0, rec, BlocksToClusters(fs, b))
    requires rec.e_blkno + rec.e_leaf_blocks <= TWO32
    ensures Times(rec.e_cpos, fs.bpc) <= b && BlockAddr(fs, rec, b) < TWO32
  {
  }

  lemma AddrSplit(fs: Fs, rec: ExtentRec, b: nat)
    requires 0 < fs.bpc && LeafRecOk(fs, rec) && Covers(fs, 0, rec, BlocksToClusters(fs, b))
    ensures Times(rec.e_cpos, fs.bpc) <= b
    ensures Times(PhysCluster(fs, rec, BlocksToClusters(fs, b)), fs.bpc) + b % fs.bpc == BlockAddr(fs, rec, b)
    ensures BlockAddr(fs, rec, b) >= fs.bpc
  {
    CoveredBlock(fs, rec, b);
    NotEmpty(fs, rec, BlocksToClusters(fs, b));
    var c := BlocksToClusters(fs, b);
    DivMod(b, fs.bpc);
    DivMod(rec.e_blkno, fs.bpc);
    Add(fs.bpc, BlocksToClusters(fs, rec.e_blkno), c - rec.e_cpos);
    Add(fs.bpc, rec.e_cpos, c - rec.e_cpos);
  }

  lemma NotEmpty(fs: Fs, rec: ExtentRec, v: nat)
    requires 0 < fs.bpc && Covers(fs, 0, rec, v)
    ensures rec.e_leaf_blocks > 0
  {
  }

  /** The blocks left in the extent, from `b` on. */
  lemma ExtentCount(fs: Fs, rec: ExtentRec, b: nat)
    requires ClusterSize(fs.bpc) && LeafRecOk(fs, rec) && Covers(fs, 0, rec, BlocksToClusters(fs, b))
    ensures b < Times(End(fs, 0, rec), fs.bpc)
    ensures (ClustersToBlocks(fs, End(fs, 0, rec) - BlocksToClusters(fs, b)) - b % fs.bpc) % TWO64
      == Times(End(fs, 0, rec), fs.bpc) - b
  {
    var num := End(fs, 0, rec) - BlocksToClusters(fs, b);
    CountParts(fs.bpc, End(fs, 0, rec), b);
    DivMod(rec.e_leaf_blocks, fs.bpc);
    Order(fs.bpc, num, RecClusters(fs, 0, rec));
    ShiftOf(num, fs.bpc);
    CountPlain(Times(num, fs.bpc), b % fs.bpc);
  }

  /** The number of blocks reported for a hole at block `b`. */
  function HoleBlocks(fs: Fs, recs: seq<ExtentRec>, b: nat): uint64
    requires 0 < fs.bpc && BlocksToClusters(fs, b) < TWO64
  {
    (ClustersToBlocks(fs, HoleSize(recs, BlocksToClusters(fs, b))) - b % fs.bpc) % TWO64
  }

  /** `cmfs_extent_map_get_blocks`. */
  method ExtentMapGetBlocks(fs: Fs, root_el: ExtentList, i_blkno: nat, v_blkno: uint64, ghost hi: nat)
    returns (ret: Errcode, p_blkno: uint64, ret_count: uint64, flags: uint8)
    requires ClusterSize(fs.bpc) && FileTree(fs, root_el, hi)
    ensures var c := BlocksToClusters(fs, v_blkno);
      match Lookup(fs, Descend(fs, root_el, c, root_el.l_tree_depth).l_recs, c)
      case Some(rec) =>
        && ret == Ok && Covers(fs, 0, rec, c) && p_blkno == CutAddr(fs, rec, v_blkno) && flags == rec.e_flags
        && ret_count == Times(End(fs, 0, rec), fs.bpc) - v_blkno
      case None =>
        && p_blkno == 0 && flags == 0
        && (GoodLinks(fs, root_el, hi) && AllVisible(fs, root_el, c) ==>
              ret == Ok && ret_count == HoleBlocks(fs, Leaves(fs, root_el), v_blkno))
  {
    p_blkno, ret_count := 0, 0;
    var cpos := BlocksToClusters(fs, v_blkno);
    SmallerUnit(fs, v_blkno);
    LeafRecord(fs, root_el, hi, cpos);
    var p_cluster, num_clusters;
    ret, p_cluster, num_clusters, flags := GetClusters(fs, root_el, i_blkno, cpos, true, hi);
    if ret != Ok {
      return;
    }
    p_blkno, ret_count := ToBlocks(fs, v_blkno, p_cluster, num_clusters);
    ghost var found := Lookup(fs, Descend(fs, root_el, cpos, root_el.l_tree_depth).l_recs, cpos);
    if found.Some? {
      ExtentAnswer(fs, found.value, v_blkno, p_cluster, num_clusters);
    }
  }

  lemma ExtentAnswer(fs: Fs, rec: ExtentRec, b: nat, p_cluster: nat, num_clusters: nat)
    requires ClusterSize(fs.bpc) && LeafRecOk(fs, rec) && Covers(fs, 0, rec, BlocksToClusters(fs, b))
    requires p_cluster == PhysCluster(fs, rec, BlocksToClusters(fs, b))
      && num_clusters == End(fs, 0, rec) - BlocksToClusters(fs, b)
    ensures ClustersToBlocks(fs, p_cluster) + b % fs.bpc == CutAddr(fs, rec, b)
    ensures (ClustersToBlocks(fs, num_clusters) - b % fs.bpc) % TWO64 == Times(End(fs, 0, rec), fs.bpc) - b
  {
    ShiftOf(p_cluster, fs.bpc);
    ExtentCount(fs, rec, b);
  }

  /** The end of `cmfs_extent_map_get_blocks`. */
  method ToBlocks(fs: Fs, v_blkno: uint64, p_cluster: uint64, num_clusters: uint64)
    returns (p_blkno: uint64, ret_count: uint64)
    requires ClusterSize(fs.bpc)
    ensures p_blkno == if p_cluster == 0 then 0 else ClustersToBlocks(fs, p_cluster) + v_blkno % fs.bpc
    ensures ret_count == (ClustersToBlocks(fs, num_clusters) - v_blkno % fs.bpc) % TWO64
  {
    OneCluster(fs);
    Divides(fs.bpc);
    DivMod(v_blkno, fs.bpc);
    var bpc: nat := ClustersToBlocks(fs, 1);
    var boff := 0;
    if p_cluster != 0 {
      boff := ClustersToBlocks(fs, p_cluster) + v_blkno % bpc;
    }
    p_blkno := boff;
    ret_count := (ClustersToBlocks(fs, num_clusters) - v_blkno % bpc) % TWO64;
  }

  lemma OneCluster(fs: Fs)
    requires ClusterSize(fs.bpc)
    ensures ClustersToBlocks(fs, 1) == fs.bpc
  {
  }

  lemma SmallerUnit(fs: Fs, b: nat)
    requires 0 < fs.bpc
    ensures BlocksToClusters(fs, b) <= b
  {
    DivMod(b, fs.bpc);
    Order(fs.bpc, BlocksToClusters(fs, b), BlocksToClusters(fs, b));
  }

  lemma LeafRecord(fs: Fs, root_el: ExtentList, hi: nat, v: nat)
    requires 0 < fs.bpc && FileTree(fs, root_el, hi)
    ensures var found := Lookup(fs, Descend(fs, root_el, v, root_el.l_tree_depth).l_recs, v);
      found.Some? ==> LeafRecOk(fs, found.value) && Covers(fs, 0, found.value, v)
  {
    var lo', hi' := LeafBounds(fs, root_el, hi, v);
    LookupSome(fs, Descend(fs, root_el, v, root_el.l_tree_depth).l_recs, v);
  }

  // ---- within the 32-bit shift ----

  /** Cluster positions and device blocks stay below the 32-bit shift. */
  ghost predicate Within32(fs: Fs, recs: seq<ExtentRec>, hi: nat)
    requires 0 < fs.bpc
  {
    Times(hi, fs.bpc) < TWO32 && forall i :: 0 <= i < |recs| ==> recs[i].e_blkno + recs[i].e_leaf_blocks <= TWO32
  }

  lemma {:induction false} BoundFits(fs: Fs, el: ExtentList, lo: nat, hi: nat)
    requires 0 < fs.bpc && WellFormed(fs, el, lo, hi) && hi < TWO32
    ensures Fits32(fs, el)
    decreases el.l_tree_depth
  {
    if el.l_tree_depth > 0 {
      forall i | 0 <= i < |el.l_recs|
        ensures Fits32(fs, Kid(fs, el, i))
      {
        assert KidOk(fs, el, i);
        BoundFits(fs, Kid(fs, el, i), el.l_recs[i].e_cpos, End(fs, el.l_tree_depth, el.l_recs[i]));
      }
    }
  }

  /** Within the bound, the leaf that is reached speaks for the whole tree. */
  lemma WholeTree(fs: Fs, root_el: ExtentList, hi: nat, v: nat)
    requires 0 < fs.bpc && FileTree(fs, root_el, hi) && Within32(fs, Leaves(fs, root_el), hi)
    ensures AllVisible(fs, root_el, v)
    ensures Lookup(fs, Descend(fs, root_el, v, root_el.l_tree_depth).l_recs, v) == Lookup(fs, Leaves(fs, root_el), v)
  {
    Order(fs.bpc, hi, hi);
    BoundFits(fs, root_el, 0, hi);
    FitsVisible(fs, root_el, 0, hi, v, root_el.l_tree_depth);
    DescendLookup(fs, root_el, 0, hi, v);
  }

  lemma SameExtent(fs: Fs, recs: seq<ExtentRec>, hi: nat, rec: ExtentRec, b: nat, b': nat)
    requires 0 < fs.bpc && Sorted(fs, 0, recs, 0, hi) && Lookup(fs, recs, BlocksToClusters(fs, b)) == Some(rec)
    requires b <= b' < Times(End(fs, 0, rec), fs.bpc)
    ensures Lookup(fs, recs, BlocksToClusters(fs, b')) == Some(rec)
  {
    LookupSome(fs, recs, BlocksToClusters(fs, b));
    InCluster(fs.bpc, b, rec.e_cpos);
    InCluster(fs.bpc, b', rec.e_cpos);
    InCluster(fs.bpc, b', End(fs, 0, rec));
    StillFound(fs, recs, hi, rec, BlocksToClusters(fs, b'));
  }

  lemma StillFound(fs: Fs, recs: seq<ExtentRec>, hi: nat, rec: ExtentRec, v: nat)
    requires 0 < fs.bpc && Sorted(fs, 0, recs, 0, hi) && rec in recs && Covers(fs, 0, rec, v)
    ensures Lookup(fs, recs, v) == Some(rec)
  {
  }

  /** The hole that starts in the cluster of `b` reaches at least to block `b + n`. */
  ghost predicate HoleFor(fs: Fs, recs: seq<ExtentRec>, b: nat, n: nat)
    requires 0 < fs.bpc
  {
    forall b' :: b <= b' < b + n ==> Lookup(fs, recs, BlocksToClusters(fs, b')) == None
  }

  lemma HoleBeforeNext(fs: Fs, recs: seq<ExtentRec>, hi: nat, b: nat, n: nat)
    requires 0 < fs.bpc && Sorted(fs, 0, recs, 0, hi) && hi < TWO64 && BlocksToClusters(fs, b) < TWO64
    requires Lookup(fs, recs, BlocksToClusters(fs, b)) == None
    requires NextStart(recs, BlocksToClusters(fs, b)) == Some(n)
    ensures BlocksToClusters(fs, b) < n <= hi && HoleSize(recs, BlocksToClusters(fs, b)) == n - BlocksToClusters(fs, b)
    ensures b < Times(n, fs.bpc) && HoleFor(fs, recs, b, Times(n, fs.bpc) - b)
  {
    var c := BlocksToClusters(fs, b);
    var k := NextStartAt(recs, c);
    HoleSizeExact(fs, recs, hi, c);
    InCluster(fs.bpc, b, n);
    forall b' | b <= b' < Times(n, fs.bpc)
      ensures Lookup(fs, recs, BlocksToClusters(fs, b')) == None
    {
      Between(fs.bpc, b, b', n);
    }
  }

  lemma Between(bpc: nat, b: nat, b': nat, n: nat)
    requires 0 < bpc && b <= b' < Times(n, bpc)
    ensures b / bpc <= b' / bpc < n
  {
    InCluster(bpc, b', n);
    DivMod(b, bpc);
    InCluster(bpc, b', b / bpc);
  }

  lemma UnmappedPast(fs: Fs, recs: seq<ExtentRec>, c: nat, u: nat)
    requires 0 < fs.bpc && Lookup(fs, recs, c) == None && NextStart(recs, c) == None && c <= u
    ensures Lookup(fs, recs, u) == None
  {
  }

  lemma HoleToEnd(fs: Fs, recs: seq<ExtentRec>, b: nat, n: nat)
    requires 0 < fs.bpc && BlocksToClusters(fs, b) < TWO64
    requires Lookup(fs, recs, BlocksToClusters(fs, b)) == None && NextStart(recs, BlocksToClusters(fs, b)) == None
    ensures HoleSize(recs, BlocksToClusters(fs, b)) == TWO64 - 1 - BlocksToClusters(fs, b) && HoleFor(fs, recs, b, n)
  {
    forall b' | b <= b' < b + n
      ensures Lookup(fs, recs, BlocksToClusters(fs, b')) == None
    {
      DivMod(b, fs.bpc);
      InCluster(fs.bpc, b', BlocksToClusters(fs, b));
      UnmappedPast(fs, recs, BlocksToClusters(fs, b), BlocksToClusters(fs, b'));
    }
  }

  /** The last hole: what is left of 2^32 blocks. */
  lemma EndCount(fs: Fs, c: nat)
    requires ClusterSize(fs.bpc) && c < TWO64
    ensures (ClustersToBlocks(fs, TWO64 - 1 - c) + Times(c + 1, fs.bpc)) % TWO32 == 0
  {
    var b, x := fs.bpc, TWO64 - 1 - c;
    ShiftOf(x, b);
    Add(b, x, c + 1);
    assert Times(TWO64, b) == Times(TWO32, b) * TWO32;
    ModAdd(Times(TWO32, b), 0);
    SumMod(Times(x, b), Times(c + 1, b));
  }

  lemma SumMod(x: nat, y: nat)
    ensures (x % TWO32 + y) % TWO32 == (x + y) % TWO32
  {
  }

  /** The reported size of the last hole is zero, so that a reader makes no
      progress, exactly at the start of a cluster whose end is a multiple of 2^32 blocks. */
  lemma EndCountZero(fs: Fs, recs: seq<ExtentRec>, b: nat)
    requires ClusterSize(fs.bpc) && BlocksToClusters(fs, b) < TWO64 && NextStart(recs, BlocksToClusters(fs, b)) == None
    ensures HoleBlocks(fs, recs, b) == 0 <==> b % fs.bpc == 0 && Times(BlocksToClusters(fs, b) + 1, fs.bpc) % TWO32 == 0
  {
    var c := BlocksToClusters(fs, b);
    EndCount(fs, c);
    RestBelow(fs, TWO64 - 1 - c, b);
    CountZero(ClustersToBlocks(fs, TWO64 - 1 - c), Times(c + 1, fs.bpc), b % fs.bpc);
  }

  /** The reported size of a hole is zero, so that a reader makes no progress, exactly
      at the start of a cluster that is a multiple of 2^32 blocks before the end of the hole. */
  lemma HoleCountZero(fs: Fs, recs: seq<ExtentRec>, b: nat)
    requires ClusterSize(fs.bpc) && BlocksToClusters(fs, b) < TWO64
    ensures HoleBlocks(fs, recs, b) == 0
      <==> b % fs.bpc == 0 && Times(HoleSize(recs, BlocksToClusters(fs, b)), fs.bpc) % TWO32 == 0
  {
    var n := HoleSize(recs, BlocksToClusters(fs, b));
    ShiftOf(n, fs.bpc);
    RestBelow(fs, n, b);
    CountZero(ClustersToBlocks(fs, n), TWO32 - ClustersToBlocks(fs, n), b % fs.bpc);
  }

  /** No extent with blocks starts within 2^64 blocks of cluster `c`. */
  predicate FarAway(fs: Fs, recs: seq<ExtentRec>, c: nat)
    requires 0 < fs.bpc
  {
    forall i :: 0 <= i < |recs| && c < recs[i].e_cpos && RecClusters(fs, 0, recs[i]) > 0 ==>
      TWO64 <= Times(recs[i].e_cpos - c, fs.bpc)
  }

  /** In the middle of a cluster, the hole's length in clusters is shifted to nothing. */
  predicate ShiftedAway(fs: Fs, recs: seq<ExtentRec>, b: nat)
    requires 0 < fs.bpc && BlocksToClusters(fs, b) < TWO64
  {
    b % fs.bpc != 0 && Times(HoleSize(recs, BlocksToClusters(fs, b)), fs.bpc) % TWO32 == 0
  }

  lemma ShiftedCount(fs: Fs, recs: seq<ExtentRec>, b: nat)
    requires ClusterSize(fs.bpc) && BlocksToClusters(fs, b) < TWO64
    ensures b % fs.bpc <= TWO64
    ensures ShiftedAway(fs, recs, b) ==> HoleBlocks(fs, recs, b) == TWO64 - b % fs.bpc
    ensures !ShiftedAway(fs, recs, b) ==> b % fs.bpc <= ClustersToBlocks(fs, HoleSize(recs, BlocksToClusters(fs, b)))
  {
    var n := HoleSize(recs, BlocksToClusters(fs, b));
    ShiftOf(n, fs.bpc);
    RestBelow(fs, n, b);
  }

  /** The reported hole covers no mapped block, exactly if its length is not shifted
      away or no extent follows in reach. */
  lemma HoleCountExact(fs: Fs, recs: seq<ExtentRec>, hi: nat, b: nat)
    requires ClusterSize(fs.bpc) && Sorted(fs, 0, recs, 0, hi) && hi < TWO64
    requires BlocksToClusters(fs, b) < TWO64 && Lookup(fs, recs, BlocksToClusters(fs, b)) == None
    ensures HoleFor(fs, recs, b, HoleBlocks(fs, recs, b))
      <==> !ShiftedAway(fs, recs, b) || FarAway(fs, recs, BlocksToClusters(fs, b))
  {
    ShiftedCount(fs, recs, b);
    var c := BlocksToClusters(fs, b);
    if !ShiftedAway(fs, recs, b) {
      CountInside(fs, recs, hi, b);
    } else if FarAway(fs, recs, c) {
      FarHole(fs, recs, b);
    } else {
      var i :| 0 <= i < |recs| && c < recs[i].e_cpos && RecClusters(fs, 0, recs[i]) > 0
        && Times(recs[i].e_cpos - c, fs.bpc) < TWO64;
      NearExtent(fs, recs, b, i);
    }
  }

  /** A count that was not shifted to nothing is no more than the hole. */
  lemma CountInside(fs: Fs, recs: seq<ExtentRec>, hi: nat, b: nat)
    requires ClusterSize(fs.bpc) && Sorted(fs, 0, recs, 0, hi) && hi < TWO64
    requires BlocksToClusters(fs, b) < TWO64 && Lookup(fs, recs, BlocksToClusters(fs, b)) == None
    requires b % fs.bpc <= ClustersToBlocks(fs, HoleSize(recs, BlocksToClusters(fs, b)))
    ensures HoleFor(fs, recs, b, HoleBlocks(fs, recs, b))
  {
    var c := BlocksToClusters(fs, b);
    var n := HoleSize(recs, c);
    var next := NextStart(recs, c);
    if next.Some? {
      HoleBeforeNext(fs, recs, hi, b, next.value);
      CountParts(fs.bpc, next.value, b);
      CountCut(fs, n, b % fs.bpc);
      assert HoleBlocks(fs, recs, b) <= Times(next.value, fs.bpc) - b;
    } else {
      HoleToEnd(fs, recs, b, HoleBlocks(fs, recs, b));
    }
  }

  /** A shifted count is at most the true one. */
  lemma CountCut(fs: Fs, n: nat, rest: nat)
    requires 0 < fs.bpc && rest <= ClustersToBlocks(fs, n)
    ensures (ClustersToBlocks(fs, n) - rest) % TWO64 == ClustersToBlocks(fs, n) - rest
      && ClustersToBlocks(fs, n) <= Times(n, fs.bpc)
  {
    ShiftOf(n, fs.bpc);
  }

  lemma FarHole(fs: Fs, recs: seq<ExtentRec>, b: nat)
    requires 0 < fs.bpc && Lookup(fs, recs, BlocksToClusters(fs, b)) == None
      && FarAway(fs, recs, BlocksToClusters(fs, b))
    ensures b % fs.bpc <= TWO64 ==> HoleFor(fs, recs, b, TWO64 - b % fs.bpc)
  {
    var c := BlocksToClusters(fs, b);
    LookupSome(fs, recs, c);
    forall b' | b <= b' < b + (TWO64 - b % fs.bpc) ensures Lookup(fs, recs, BlocksToClusters(fs, b')) == None {
      var u := BlocksToClusters(fs, b');
      LookupSome(fs, recs, u);
      forall i | 0 <= i < |recs| ensures !Covers(fs, 0, recs[i], u) {
        if Covers(fs, 0, recs[i], u) {
          DivMod(b, fs.bpc);
          InCluster(fs.bpc, b', c);
          assert !Covers(fs, 0, recs[i], c);
          Add(fs.bpc, c, recs[i].e_cpos - c);
          InCluster(fs.bpc, b', recs[i].e_cpos);
        }
      }
    }
  }

  lemma NearExtent(fs: Fs, recs: seq<ExtentRec>, b: nat, i: nat)
    requires 0 < fs.bpc && i < |recs| && b % fs.bpc <= TWO64
    requires BlocksToClusters(fs, b) < recs[i].e_cpos && RecClusters(fs, 0, recs[i]) > 0
    requires Times(recs[i].e_cpos - BlocksToClusters(fs, b), fs.bpc) < TWO64
    ensures !HoleFor(fs, recs, b, TWO64 - b % fs.bpc)
  {
    var c, e := BlocksToClusters(fs, b), recs[i].e_cpos;
    DivMod(b, fs.bpc);
    Add(fs.bpc, c, e - c);
    Order(fs.bpc, c, e);
    DivOf(fs.bpc, e, 0);
    assert BlocksToClusters(fs, Times(e, fs.bpc)) == e && Covers(fs, 0, recs[i], e);
    LookupSome(fs, recs, e);
  }

  /** A shifted count is zero, or more than the rest of a cluster. */
  lemma RestBelow(fs: Fs, n: nat, b: nat)
    requires ClusterSize(fs.bpc)
    ensures b % fs.bpc < TWO32 && (ClustersToBlocks(fs, n) == 0 || b % fs.bpc < ClustersToBlocks(fs, n))
  {
    DivMod(b, fs.bpc);
    Divides(fs.bpc);
    var q := ShiftWhole(fs.bpc, n % TWO32);
    Order(fs.bpc, 0, q);
  }

  /** The count of a hole that ends before the shift bound. */
  lemma NextCount(fs: Fs, n: nat, b: nat)
    requires ClusterSize(fs.bpc) && Times(n, fs.bpc) < TWO32 && BlocksToClusters(fs, b) < n
    ensures b < Times(n, fs.bpc)
    ensures (ClustersToBlocks(fs, n - BlocksToClusters(fs, b)) - b % fs.bpc) % TWO64 == Times(n, fs.bpc) - b
  {
    var c := BlocksToClusters(fs, b);
    CountParts(fs.bpc, n, b);
    ShiftOf(n - c, fs.bpc);
    CountPlain(Times(n - c, fs.bpc), b % fs.bpc);
  }

  lemma CountParts(bpc: nat, n: nat, b: nat)
    requires 0 < bpc && b / bpc < n
    ensures b % bpc < Times(n - b / bpc, bpc) <= Times(n, bpc)
    ensures Times(n - b / bpc, bpc) - b % bpc == Times(n, bpc) - b
  {
    var c := b / bpc;
    DivMod(b, bpc);
    Add(bpc, c, n - c);
    Order(bpc, 0, n - c);
  }

  /** Within the bound the reported hole has at least one block and covers no mapped one. */
  lemma HoleCount(fs: Fs, recs: seq<ExtentRec>, hi: nat, b: nat)
    requires ClusterSize(fs.bpc) && Sorted(fs, 0, recs, 0, hi) && Within32(fs, recs, hi) && b + fs.bpc < TWO32
    requires BlocksToClusters(fs, b) < TWO64 && Lookup(fs, recs, BlocksToClusters(fs, b)) == None
    ensures 0 < HoleBlocks(fs, recs, b) && HoleFor(fs, recs, b, HoleBlocks(fs, recs, b))
  {
    if NextStart(recs, BlocksToClusters(fs, b)).Some? {
      HoleCountNext(fs, recs, hi, b, NextStart(recs, BlocksToClusters(fs, b)).value);
    } else {
      HoleToEnd(fs, recs, b, HoleBlocks(fs, recs, b));
      EndCountZero(fs, recs, b);
      ClusterEnd(fs.bpc, b);
    }
  }

  lemma HoleCountNext(fs: Fs, recs: seq<ExtentRec>, hi: nat, b: nat, n: nat)
    requires ClusterSize(fs.bpc) && Sorted(fs, 0, recs, 0, hi) && Times(hi, fs.bpc) < TWO32
    requires BlocksToClusters(fs, b) < TWO64 && Lookup(fs, recs, BlocksToClusters(fs, b)) == None
      && NextStart(recs, BlocksToClusters(fs, b)) == Some(n)
    ensures 0 < HoleBlocks(fs, recs, b) && HoleFor(fs, recs, b, HoleBlocks(fs, recs, b))
  {
    Order(fs.bpc, hi, hi);
    HoleBeforeNext(fs, recs, hi, b, n);
    Order(fs.bpc, n, hi);
    NextCount(fs, n, b);
  }

  lemma ClusterEnd(bpc: nat, b: nat)
    requires 0 < bpc
    ensures b < Times(b / bpc + 1, bpc) <= b + bpc
  {
  }
}
