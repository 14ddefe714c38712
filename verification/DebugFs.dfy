/** commands.c of debugfs.cmfs: the debugger's own walk of an extent tree. */
module DebugFs {
  import opened Common
  import opened Units
  import opened ExtentTree
  import opened ExtentMap
  import opened BlockMap
  import opened ExtentIterate

  // ---- what the debugger looks for, and what it sees ----

  /** The block that the debugger looks for: its cluster is cut to 32 bits. */
  function SoughtBlock(fs: Fs, b: nat): nat
    requires 0 < fs.bpc
  {
    Times(SoughtCluster(fs, b), fs.bpc) + b % fs.bpc
  }

  function SoughtCluster(fs: Fs, b: nat): uint32
    requires 0 < fs.bpc
  {
    BlocksToClusters(fs, b) % TWO32
  }

  lemma Sought(fs: Fs, b: nat)
    requires 0 < fs.bpc
    ensures BlocksToClusters(fs, SoughtBlock(fs, b)) == SoughtCluster(fs, b)
    ensures BlocksToClusters(fs, b) < TWO32 ==> SoughtBlock(fs, b) == b
  {
    DivMod(b, fs.bpc);
    DivOf(fs.bpc, SoughtCluster(fs, b), b % fs.bpc);
  }

  /** Counted in 32 bits it is as far from any block. */
  lemma SameDistance(fs: Fs, b: nat, x: nat)
    requires 0 < fs.bpc
    ensures (b - x) % TWO32 == (SoughtBlock(fs, b) - x) % TWO32
  {
    var c := BlocksToClusters(fs, b);
    var k, r := c / TWO32, c % TWO32;
    DivMod(b, fs.bpc);
    DivMod(c, TWO32);
    Add(fs.bpc, Times(k, TWO32), r);
    Regroup(k, fs.bpc);
    WholeTurns(Times(k, fs.bpc), SoughtBlock(fs, b) - x);
  }

  lemma Regroup(k: nat, bpc: nat)
    ensures Times(Times(k, TWO32), bpc) == Times(k, bpc) * TWO32
  {
  }

  lemma WholeTurns(k: nat, r: int)
    ensures (k * TWO32 + r) % TWO32 == r % TWO32
  {
  }

  /** The debugger stops at the first record of a list that spans the cluster: the number
      of clusters is cut to 32 bits. */
  predicate Spans(fs: Fs, depth: nat, rec: ExtentRec, v: nat)
    requires 0 < fs.bpc
  {
    RecClusters(fs, depth, rec) % TWO32 != 0 && v < (rec.e_cpos + RecClusters(fs, depth, rec) % TWO32) % TWO64
  }

  /** No record on the way that covers the cluster is skipped. */
  ghost predicate Sees(fs: Fs, el: ExtentList, v: nat)
    requires 0 < fs.bpc
    decreases el.l_tree_depth
  {
    forall i :: 0 <= i < |el.l_recs| && Covers(fs, el.l_tree_depth, el.l_recs[i], v) ==>
      Spans(fs, el.l_tree_depth, el.l_recs[i], v) && (el.l_tree_depth > 0 ==> Sees(fs, Kid(fs, el, i), v))
  }

  /** What the debugger prints. */
  ghost function Printed(fs: Fs, el: ExtentList, b: nat): nat
    requires 0 < fs.bpc
  {
    if Sees(fs, el, SoughtCluster(fs, b)) then PhysBlock(fs, Leaves(fs, el), SoughtBlock(fs, b)) else 0
  }

  /** A record that spans the cluster without covering it lies past it. */
  lemma SpansPast(fs: Fs, depth: nat, rec: ExtentRec, v: nat)
    requires 0 < fs.bpc && Spans(fs, depth, rec, v)
    ensures v < End(fs, depth, rec)
  {
  }

  /** The first record that spans `v` covers it, or a skipped one does, or none. */
  lemma FirstSpan(fs: Fs, el: ExtentList, lo: nat, hi: nat, v: nat, i: nat)
    requires 0 < fs.bpc && Sorted(fs, el.l_tree_depth, el.l_recs, lo, hi) && i < |el.l_recs|
    requires Spans(fs, el.l_tree_depth, el.l_recs[i], v)
    ensures forall j :: i < j < |el.l_recs| ==> !Covers(fs, el.l_tree_depth, el.l_recs[j], v)
    ensures el.l_recs[i].e_cpos <= v ==>
      forall j :: 0 <= j < |el.l_recs| && j != i ==> !Covers(fs, el.l_tree_depth, el.l_recs[j], v)
  {
    SpansPast(fs, el.l_tree_depth, el.l_recs[i], v);
  }

  /** Nothing is printed when no record spans the cluster, as far as records could cover it. */
  lemma NonePrinted(fs: Fs, el: ExtentList, lo: nat, hi: nat, b: nat)
    requires ClusterSize(fs.bpc) && WellFormed(fs, el, lo, hi)
    requires forall j :: 0 <= j < |el.l_recs| && Covers(fs, el.l_tree_depth, el.l_recs[j], SoughtCluster(fs, b)) ==>
      !Spans(fs, el.l_tree_depth, el.l_recs[j], SoughtCluster(fs, b))
    ensures Printed(fs, el, b) == 0
  {
    if Sees(fs, el, SoughtCluster(fs, b)) {
      NoKid(fs, el, lo, hi, SoughtCluster(fs, b));
      Sought(fs, b);
    }
  }

  lemma NoKid(fs: Fs, el: ExtentList, lo: nat, hi: nat, v: nat)
    requires 0 < fs.bpc && WellFormed(fs, el, lo, hi)
    requires forall j :: 0 <= j < |el.l_recs| ==> !Covers(fs, el.l_tree_depth, el.l_recs[j], v)
    ensures Lookup(fs, Leaves(fs, el), v) == None
  {
    if el.l_tree_depth == 0 {
      LookupSome(fs, el.l_recs, v);
    } else {
      var rec := el.l_recs[0];
      LookupKid(fs, el, lo, hi, v, 0);
      assert KidOk(fs, el, 0);
      LeavesSorted(fs, Kid(fs, el, 0), rec.e_cpos, End(fs, el.l_tree_depth, rec));
      LookupOutside(fs, Leaves(fs, Kid(fs, el, 0)), rec.e_cpos, End(fs, el.l_tree_depth, rec), v);
    }
  }

  /** Below a record that covers the cluster, the answer is that of its list. */
  lemma KidPrinted(fs: Fs, el: ExtentList, lo: nat, hi: nat, b: nat, i: nat)
    requires ClusterSize(fs.bpc) && WellFormed(fs, el, lo, hi) && 0 < el.l_tree_depth && i < |el.l_recs|
    requires Spans(fs, el.l_tree_depth, el.l_recs[i], SoughtCluster(fs, b))
      && el.l_recs[i].e_cpos <= SoughtCluster(fs, b)
    ensures Printed(fs, el, b) == Printed(fs, Kid(fs, el, i), b)
  {
    var v := SoughtCluster(fs, b);
    SpansPast(fs, el.l_tree_depth, el.l_recs[i], v);
    FirstSpan(fs, el, lo, hi, v, i);
    assert Sees(fs, el, v) <==> Sees(fs, Kid(fs, el, i), v);
    LookupKid(fs, el, lo, hi, v, i);
    SameLookup(fs, Leaves(fs, el), Leaves(fs, Kid(fs, el, i)), b);
  }

  lemma SameLookup(fs: Fs, xs: seq<ExtentRec>, ys: seq<ExtentRec>, b: nat)
    requires 0 < fs.bpc && Lookup(fs, xs, SoughtCluster(fs, b)) == Lookup(fs, ys, SoughtCluster(fs, b))
    ensures PhysBlock(fs, xs, SoughtBlock(fs, b)) == PhysBlock(fs, ys, SoughtBlock(fs, b))
  {
    Sought(fs, b);
  }

  /** Below a record that lies past the cluster there is nothing to print. */
  lemma PastPrinted(fs: Fs, el: ExtentList, lo: nat, hi: nat, b: nat)
    requires ClusterSize(fs.bpc) && WellFormed(fs, el, lo, hi) && SoughtCluster(fs, b) < lo
    ensures Printed(fs, el, b) == 0
  {
    LeavesSorted(fs, el, lo, hi);
    LookupOutside(fs, Leaves(fs, el), lo, hi, SoughtCluster(fs, b));
    Sought(fs, b);
  }

  /** What is printed for a record of a leaf that covers the cluster. */
  lemma LeafPrinted(fs: Fs, el: ExtentList, lo: nat, hi: nat, b: nat, i: nat)
    requires ClusterSize(fs.bpc) && WellFormed(fs, el, lo, hi) && el.l_tree_depth == 0 && i < |el.l_recs|
    requires Spans(fs, 0, el.l_recs[i], SoughtCluster(fs, b)) && el.l_recs[i].e_cpos <= SoughtCluster(fs, b)
    ensures Printed(fs, el, b) == el.l_recs[i].e_blkno + (b - ClustersToBlocks(fs, el.l_recs[i].e_cpos)) % TWO32
  {
    var v, rec, sought := SoughtCluster(fs, b), el.l_recs[i], SoughtBlock(fs, b);
    SpansPast(fs, 0, rec, v);
    FirstSpan(fs, el, lo, hi, v, i);
    assert Sees(fs, el, v);
    LookupAt(fs, el.l_recs, lo, hi, v, i);
    Sought(fs, b);
    CoveredBlock(fs, rec, sought);
    SameDistance(fs, b, ClustersToBlocks(fs, rec.e_cpos));
    Distance32(fs, rec, sought);
  }

  /** Wherever an extent starts, the distance from its start is right in 32 bits. */
  lemma Distance32(fs: Fs, rec: ExtentRec, b: nat)
    requires 0 < fs.bpc && LeafRecOk(fs, rec) && Times(rec.e_cpos, fs.bpc) <= b < Times(End(fs, 0, rec), fs.bpc)
    ensures (b - ClustersToBlocks(fs, rec.e_cpos)) % TWO32 == b - Times(rec.e_cpos, fs.bpc)
  {
    WholeExtent(fs, rec);
    ShiftOf(rec.e_cpos, fs.bpc);
    DistanceMod(b, Times(rec.e_cpos, fs.bpc));
  }

  lemma DistanceMod(b: nat, x: nat)
    requires x <= b < x + TWO32
    ensures (b - x % TWO32) % TWO32 == b - x
  {
    var k := x / TWO32;
    DivMod(x, TWO32);
    WholeTurns(k, b - x);
  }

  /** What `find_block_offset` prints when it has come to a leaf: the block, or a hole before it. */
  method PrintLeaf(fs: Fs, el: ExtentList, i: nat, clstoff: uint32, blkoff: uint64, ghost lo: nat, ghost hi: nat)
    returns (printed: nat)
    requires ClusterSize(fs.bpc) && WellFormed(fs, el, lo, hi) && el.l_tree_depth == 0 && i < |el.l_recs|
    requires clstoff == SoughtCluster(fs, blkoff) && Spans(fs, 0, el.l_recs[i], clstoff)
    requires forall j :: 0 <= j < i ==> !Spans(fs, 0, el.l_recs[j], clstoff)
    ensures printed == Printed(fs, el, blkoff)
  {
    var rec := el.l_recs[i];
    if clstoff < rec.e_cpos {
      FirstSpan(fs, el, lo, hi, clstoff, i);
      NonePrinted(fs, el, lo, hi, blkoff);
      printed := 0;
    } else {
      LeafPrinted(fs, el, lo, hi, blkoff, i);
      var tmp: uint32 := (blkoff - ClustersToBlocks(fs, rec.e_cpos)) % TWO32;
      printed := rec.e_blkno + tmp;
    }
  }

  /** A record that is followed: its list has the answer. */
  lemma FollowPrinted(fs: Fs, el: ExtentList, lo: nat, hi: nat, b: nat, i: nat)
    requires ClusterSize(fs.bpc) && WellFormed(fs, el, lo, hi) && 0 < el.l_tree_depth && i < |el.l_recs|
    requires Spans(fs, el.l_tree_depth, el.l_recs[i], SoughtCluster(fs, b))
    requires forall j :: 0 <= j < i ==> !Spans(fs, el.l_tree_depth, el.l_recs[j], SoughtCluster(fs, b))
    ensures WellFormed(fs, Kid(fs, el, i), el.l_recs[i].e_cpos, End(fs, el.l_tree_depth, el.l_recs[i]))
    ensures Printed(fs, el, b) == Printed(fs, Kid(fs, el, i), b)
  {
    assert KidOk(fs, el, i);
    if el.l_recs[i].e_cpos <= SoughtCluster(fs, b) {
      KidPrinted(fs, el, lo, hi, b, i);
    } else {
      FirstSpan(fs, el, lo, hi, SoughtCluster(fs, b), i);
      NonePrinted(fs, el, lo, hi, b);
      PastPrinted(fs, Kid(fs, el, i), el.l_recs[i].e_cpos, End(fs, el.l_tree_depth, el.l_recs[i]), b);
    }
  }

  /** `find_block_offset`: the device block printed for a file block, 0 for a hole: what
      the flat map says of the block looked for, if the debugger sees it. It picks the first
      record that spans the block, and so may follow another path than the block map. */
  method FindBlockOffset(fs: Fs, el: ExtentList, blkoff: uint64, ghost lo: nat, ghost hi: nat)
    returns (ret: Errcode, printed: nat)
    requires ClusterSize(fs.bpc) && WellFormed(fs, el, lo, hi)
    ensures ret == Ok && printed == Printed(fs, el, blkoff)
    decreases el.l_tree_depth
  {
    ret, printed := Ok, 0;
    var clstoff: uint32 := BlocksToClusters(fs, blkoff) % TWO32;
    var i := 0;
    while i < |el.l_recs|
      invariant 0 <= i <= |el.l_recs| && ret == Ok && printed == 0
      invariant forall j :: 0 <= j < i ==> !Spans(fs, el.l_tree_depth, el.l_recs[j], clstoff)
    {
      var rec := el.l_recs[i];
      var clusters: uint32 := RecClusters(fs, el.l_tree_depth, rec) % TWO32;
      if clusters == 0 || clstoff >= (rec.e_cpos + clusters) % TWO64 {
        i := i + 1;
        continue;
      }
      if el.l_tree_depth == 0 {
        printed := PrintLeaf(fs, el, i, clstoff, blkoff, lo, hi);
        return;
      }
      KidReadable(fs, el, lo, hi, i);
      var eb;
      ret, eb := ReadExtentBlock(fs, rec.e_blkno);
      if ret != Ok {
        return;
      }
      FollowPrinted(fs, el, lo, hi, blkoff, i);
      ret, printed := FindBlockOffset(fs, eb.h_list, blkoff, rec.e_cpos, End(fs, el.l_tree_depth, rec));
      return;
    }
    NonePrinted(fs, el, lo, hi, blkoff);
  }

  // ---- when the debugger is right ----

  /** Block 0 is the answer for holes only. */
  lemma NotZero(fs: Fs, recs: seq<ExtentRec>, b: nat)
    requires 0 < fs.bpc && forall i :: 0 <= i < |recs| ==> LeafRecOk(fs, recs[i])
    ensures PhysBlock(fs, recs, b) == 0 <==> Lookup(fs, recs, BlocksToClusters(fs, b)) == None
  {
    var found := Lookup(fs, recs, BlocksToClusters(fs, b));
    LookupSome(fs, recs, BlocksToClusters(fs, b));
    if found.Some? {
      var i :| 0 <= i < |recs| && recs[i] == found.value;
      assert LeafRecOk(fs, recs[i]);
      CoveredBlock(fs, recs[i], b);
    }
  }

  /** The debugger comes to an extent that maps the block it looks for. */
  ghost predicate Finds(fs: Fs, el: ExtentList, b: nat)
    requires 0 < fs.bpc
  {
    Sees(fs, el, SoughtCluster(fs, b)) && Lookup(fs, Leaves(fs, el), SoughtCluster(fs, b)).Some?
  }

  /** Two extents have a device block in common: that of file block `b` is that of `b'`. */
  predicate Shared(fs: Fs, recs: seq<ExtentRec>, b: nat, b': nat)
    requires 0 < fs.bpc
  {
    && Lookup(fs, recs, BlocksToClusters(fs, b)).Some? && Lookup(fs, recs, BlocksToClusters(fs, b')).Some?
    && PhysBlock(fs, recs, b) == PhysBlock(fs, recs, b')
  }

  /** The debugger is right about a block of the first 2^32 clusters exactly if it is a
      hole or found; about any other exactly if it is a hole and the debugger comes to nothing
      either, or what it comes to is an extent that has the same device block. */
  lemma SoughtExact(fs: Fs, el: ExtentList, lo: nat, hi: nat, b: nat)
    requires ClusterSize(fs.bpc) && WellFormed(fs, el, lo, hi)
    ensures Printed(fs, el, b) == PhysBlock(fs, Leaves(fs, el), b) <==>
      var mapped := Lookup(fs, Leaves(fs, el), BlocksToClusters(fs, b)).Some?;
      if BlocksToClusters(fs, b) < TWO32 then mapped ==> Finds(fs, el, b)
      else if Finds(fs, el, b) then Shared(fs, Leaves(fs, el), SoughtBlock(fs, b), b) else !mapped
  {
    Sought(fs, b);
    LeavesSorted(fs, el, lo, hi);
    NotZero(fs, Leaves(fs, el), b);
    NotZero(fs, Leaves(fs, el), SoughtBlock(fs, b));
  }

  /** What the block map answers for a block: 0 for a hole. */
  ghost function MapAnswer(fs: Fs, root_el: ExtentList, b: nat): nat
    requires 0 < fs.bpc
  {
    var v := BlocksToClusters(fs, b);
    var recs := Descend(fs, root_el, v, root_el.l_tree_depth).l_recs;
    LookupSome(fs, recs, v);
    match Lookup(fs, recs, v)
    case Some(rec) => CutAddr(fs, rec, b)
    case None => 0
  }

  /** Where both see the block, the debugger and the block map agree if and only if it is a
      hole or its device block is below 2^32. */
  lemma SameAnswer(fs: Fs, root_el: ExtentList, lo: nat, hi: nat, b: nat)
    requires ClusterSize(fs.bpc) && WellFormed(fs, root_el, lo, hi) && BlocksToClusters(fs, b) < TWO32
    requires AllVisible(fs, root_el, BlocksToClusters(fs, b)) && Sees(fs, root_el, BlocksToClusters(fs, b))
    ensures MapAnswer(fs, root_el, b) == Printed(fs, root_el, b)
      <==> PhysBlock(fs, Leaves(fs, root_el), b) < TWO32
  {
    var v, recs := BlocksToClusters(fs, b), Leaves(fs, root_el);
    Sought(fs, b);
    DescendLookup(fs, root_el, lo, hi, v);
    LeavesSorted(fs, root_el, lo, hi);
    LookupSome(fs, recs, v);
    if Lookup(fs, recs, v).Some? {
      var rec := Lookup(fs, recs, v).value;
      CoveredBlock(fs, rec, b);
      CutExact(fs, rec, b);
    }
  }

  lemma SpansBelow(fs: Fs, depth: nat, rec: ExtentRec, v: nat)
    requires 0 < fs.bpc && Covers(fs, depth, rec, v) && End(fs, depth, rec) < TWO32
    ensures Spans(fs, depth, rec, v)
  {
    SmallMod(RecClusters(fs, depth, rec));
  }

  lemma SmallMod(x: nat)
    requires x < TWO32
    ensures x % TWO32 == x
  {
  }

  /** In a tree below 2^32 clusters the debugger sees every block. */
  lemma {:induction false} SeesBelow(fs: Fs, el: ExtentList, lo: nat, hi: nat, v: nat)
    requires 0 < fs.bpc && WellFormed(fs, el, lo, hi) && hi < TWO32
    ensures Sees(fs, el, v)
    decreases el.l_tree_depth
  {
    forall i | 0 <= i < |el.l_recs| && Covers(fs, el.l_tree_depth, el.l_recs[i], v)
      ensures Spans(fs, el.l_tree_depth, el.l_recs[i], v) && (el.l_tree_depth > 0 ==> Sees(fs, Kid(fs, el, i), v))
    {
      assert End(fs, el.l_tree_depth, el.l_recs[i]) <= hi;
      SpansBelow(fs, el.l_tree_depth, el.l_recs[i], v);
      if el.l_tree_depth > 0 {
        assert KidOk(fs, el, i);
        SeesBelow(fs, Kid(fs, el, i), el.l_recs[i].e_cpos, End(fs, el.l_tree_depth, el.l_recs[i]), v);
      }
    }
  }

  // ---- counting extents ----

  /** How many of the records map something. */
  function NonEmpty(fs: Fs, recs: seq<ExtentRec>): (n: nat)
    requires 0 < fs.bpc
    ensures n <= |recs|
  {
    if recs == [] then 0
    else NonEmpty(fs, recs[..|recs| - 1]) + if RecClusters(fs, 0, recs[|recs| - 1]) > 0 then 1 else 0
  }

  /** The places of the records that hold at least one cluster. */
  ghost function Mapping(fs: Fs, recs: seq<ExtentRec>): set<nat>
    requires 0 < fs.bpc
  {
    set i: nat | i < |recs| && recs[i].e_leaf_blocks / fs.bpc > 0
  }

  lemma {:induction false} NonEmptyIs(fs: Fs, recs: seq<ExtentRec>)
    requires 0 < fs.bpc
    ensures NonEmpty(fs, recs) == |Mapping(fs, recs)|
  {
    if recs == [] {
      assert Mapping(fs, recs) == {};
    } else {
      var k := |recs| - 1;
      var front := recs[..k];
      NonEmptyIs(fs, front);
      assert forall i: nat :: i < k ==> front[i] == recs[i];
      assert Mapping(fs, recs) == Mapping(fs, front) + if recs[k].e_leaf_blocks / fs.bpc > 0 then {k} else {};
    }
  }

  lemma {:induction false} NonEmptyConcat(fs: Fs, a: seq<ExtentRec>, b: seq<ExtentRec>)
    requires 0 < fs.bpc
    ensures NonEmpty(fs, a + b) == NonEmpty(fs, a) + NonEmpty(fs, b)
    decreases |b|
  {
    if b == [] {
      assert a + b == a;
    } else {
      assert (a + b)[..|a + b| - 1] == a + b[..|b| - 1];
      NonEmptyConcat(fs, a, b[..|b| - 1]);
    }
  }

  /** Records within an empty range map nothing. */
  lemma {:induction false} NothingMapped(fs: Fs, recs: seq<ExtentRec>, lo: nat)
    requires 0 < fs.bpc && Sorted(fs, 0, recs, lo, lo)
    ensures NonEmpty(fs, recs) == 0
    decreases |recs|
  {
    if recs != [] {
      assert End(fs, 0, recs[|recs| - 1]) <= lo;
      NothingMapped(fs, recs[..|recs| - 1], lo);
    }
  }

  /** The empty records of the leaves that are neither the last record of their list nor
      below such a record. */
  ghost function Stray(fs: Fs, el: ExtentList): nat
    requires 0 < fs.bpc
    decreases el.l_tree_depth, 2, 0
  {
    StrayUpTo(fs, el, |el.l_recs|)
  }

  ghost function StrayUpTo(fs: Fs, el: ExtentList, n: nat): nat
    requires 0 < fs.bpc && n <= |el.l_recs|
    decreases el.l_tree_depth, 1, n
  {
    if n == 0 then 0 else StrayUpTo(fs, el, n - 1) + StrayOf(fs, el, n - 1)
  }

  ghost function StrayOf(fs: Fs, el: ExtentList, i: nat): nat
    requires 0 < fs.bpc && i < |el.l_recs|
    decreases el.l_tree_depth, 0, i
  {
    if Hollow(fs, el, i) && i == |el.l_recs| - 1 then 0
    else if el.l_tree_depth > 0 then Stray(fs, Kid(fs, el, i))
    else if RecClusters(fs, 0, el.l_recs[i]) > 0 then 0 else 1
  }

  /** The extents that map something below a last record whose number of clusters is cut
      to 0, see `NoneMissed`. */
  ghost function Missed(fs: Fs, el: ExtentList): nat
    requires 0 < fs.bpc
    decreases el.l_tree_depth, 2, 0
  {
    MissedUpTo(fs, el, |el.l_recs|)
  }

  ghost function MissedUpTo(fs: Fs, el: ExtentList, n: nat): nat
    requires 0 < fs.bpc && n <= |el.l_recs|
    decreases el.l_tree_depth, 1, n
  {
    if n == 0 then 0 else MissedUpTo(fs, el, n - 1) + MissedOf(fs, el, n - 1)
  }

  ghost function MissedOf(fs: Fs, el: ExtentList, i: nat): nat
    requires 0 < fs.bpc && i < |el.l_recs|
    decreases el.l_tree_depth, 0, i
  {
    if Hollow(fs, el, i) && i == |el.l_recs| - 1 then NonEmpty(fs, Below(fs, el, i))
    else if el.l_tree_depth > 0 then Missed(fs, Kid(fs, el, i))
    else 0
  }

  /** The extents below the first `i` records that should be counted, in 32 bits. */
  ghost function CountTo(fs: Fs, el: ExtentList, i: nat): uint32
    requires 0 < fs.bpc && i <= |el.l_recs|
  {
    (NonEmpty(fs, Done(fs, el, i)) + StrayUpTo(fs, el, i) - MissedUpTo(fs, el, i)) % TWO32
  }

  /** And those below a whole list. */
  ghost function CountOf(fs: Fs, el: ExtentList): uint32
    requires 0 < fs.bpc
  {
    (NonEmpty(fs, Leaves(fs, el)) + Stray(fs, el) - Missed(fs, el)) % TWO32
  }

  lemma CountAll(fs: Fs, el: ExtentList)
    requires 0 < fs.bpc
    ensures CountTo(fs, el, 0) == 0 && CountTo(fs, el, |el.l_recs|) == CountOf(fs, el)
  {
    DoneAll(fs, el);
  }

  /** The extents of the `i`-th record. */
  function Below(fs: Fs, el: ExtentList, i: nat): seq<ExtentRec>
    requires i < |el.l_recs|
  {
    if el.l_tree_depth > 0 then Leaves(fs, Kid(fs, el, i)) else [el.l_recs[i]]
  }

  /** One more record, of which `extents` are counted. */
  lemma CountedMore(fs: Fs, el: ExtentList, i: nat, ne: nat, extents: nat)
    requires 0 < fs.bpc && i < |el.l_recs| && ne == CountTo(fs, el, i)
    requires extents == (NonEmpty(fs, Below(fs, el, i)) + StrayOf(fs, el, i) - MissedOf(fs, el, i)) % TWO32
    ensures CountTo(fs, el, i + 1) == Sum32(ne, extents)
  {
    DoneMore(fs, el, i);
    NonEmptyConcat(fs, Done(fs, el, i), Below(fs, el, i));
    var n: int, s: int, m: int := NonEmpty(fs, Done(fs, el, i)), StrayUpTo(fs, el, i), MissedUpTo(fs, el, i);
    var n': int, s': int, m': int := NonEmpty(fs, Below(fs, el, i)), StrayOf(fs, el, i), MissedOf(fs, el, i);
    CountedSum(fs, el, i + 1, n + n', s + s', m + m');
    SumsMod(n + s - m, n' + s' - m', n + n' + (s + s') - (m + m'));
  }

  lemma CountedSum(fs: Fs, el: ExtentList, i: nat, n: nat, s: nat, m: nat)
    requires 0 < fs.bpc && i <= |el.l_recs|
    requires n == NonEmpty(fs, Done(fs, el, i)) && s == StrayUpTo(fs, el, i) && m == MissedUpTo(fs, el, i)
    ensures CountTo(fs, el, i) == (n + s - m) % TWO32
  {
  }

  lemma SumNone(x: uint32)
    ensures Sum32(x, 0) == x
  {
  }

  lemma SumsMod(x: int, y: int, z: int)
    requires z == x + y
    ensures Sum32(x % TWO32, y % TWO32) == z % TWO32
  {
  }

  /** A record of no clusters has nothing below it. */
  lemma EmptyRecord(fs: Fs, el: ExtentList, lo: nat, hi: nat, i: nat)
    requires 0 < fs.bpc && WellFormed(fs, el, lo, hi) && i < |el.l_recs|
      && RecClusters(fs, el.l_tree_depth, el.l_recs[i]) == 0
    ensures NonEmpty(fs, Below(fs, el, i)) == 0
  {
    var rec := el.l_recs[i];
    if el.l_tree_depth > 0 {
      assert KidOk(fs, el, i);
      LeavesSorted(fs, Kid(fs, el, i), rec.e_cpos, rec.e_cpos);
      NothingMapped(fs, Leaves(fs, Kid(fs, el, i)), rec.e_cpos);
    } else {
      assert [rec][..0] == [];
    }
  }

  /** An `uint32_t` sum. */
  function Sum32(x: nat, y: nat): uint32 {
    (x + y) % TWO32
  }

  /** Whether a record has no clusters, counted in 32 bits. */
  predicate Hollow(fs: Fs, el: ExtentList, i: nat)
    requires 0 < fs.bpc && i < |el.l_recs|
  {
    RecClusters(fs, el.l_tree_depth, el.l_recs[i]) % TWO32 == 0
  }

  /** Below 2^32 clusters no extent is missed. */
  lemma {:induction false} NoneMissed(fs: Fs, el: ExtentList, lo: nat, hi: nat, n: nat)
    requires ClusterSize(fs.bpc) && WellFormed(fs, el, lo, hi) && hi < TWO32 && n <= |el.l_recs|
    ensures MissedUpTo(fs, el, n) == 0
    decreases el.l_tree_depth, n
  {
    if n > 0 {
      NoneMissed(fs, el, lo, hi, n - 1);
      var i := n - 1;
      assert End(fs, el.l_tree_depth, el.l_recs[i]) <= hi;
      if Hollow(fs, el, i) && i == |el.l_recs| - 1 {
        EmptyRecord(fs, el, lo, hi, i);
      } else if el.l_tree_depth > 0 {
        assert KidOk(fs, el, i);
        var kid := Kid(fs, el, i);
        NoneMissed(fs, kid, el.l_recs[i].e_cpos, End(fs, el.l_tree_depth, el.l_recs[i]), |kid.l_recs|);
        assert Missed(fs, kid) == 0 && MissedOf(fs, el, i) == Missed(fs, kid);
      }
    }
  }

  /** The extents of one record, read from its block if it has one. */
  method RecordExtents(fs: Fs, el: ExtentList, i: nat, ghost lo: nat, ghost hi: nat)
    returns (ret: Errcode, extents: uint32)
    requires ClusterSize(fs.bpc) && WellFormed(fs, el, lo, hi) && i < |el.l_recs|
    requires !(Hollow(fs, el, i) && i == |el.l_recs| - 1)
    ensures ret == Ok
    ensures extents == (NonEmpty(fs, Below(fs, el, i)) + StrayOf(fs, el, i) - MissedOf(fs, el, i)) % TWO32
    decreases el.l_tree_depth, 0
  {
    ret, extents := Ok, 1;
    if el.l_tree_depth > 0 {
      KidReadable(fs, el, lo, hi, i);
      var eb;
      ret, eb := ReadExtentBlock(fs, el.l_recs[i].e_blkno);
      if ret == Ok {
        assert KidOk(fs, el, i);
        ret, extents := CalcNumExtents(fs, eb.h_list, el.l_recs[i].e_cpos, End(fs, el.l_tree_depth, el.l_recs[i]));
      }
    } else {
      assert [el.l_recs[i]][..0] == [];
    }
  }

  /** The number of clusters of a record, in 32 bits. */
  method Clusters32(fs: Fs, el: ExtentList, i: nat) returns (clusters: uint32)
    requires 0 < fs.bpc && i < |el.l_recs|
    ensures clusters == 0 <==> Hollow(fs, el, i)
  {
    clusters := RecClusters(fs, el.l_tree_depth, el.l_recs[i]) % TWO32;
  }

  /** `calc_num_extents`: in 32 bits, every extent that maps something is counted, once,
      but for those that are missed, and of the empty records those that are stray. */
  method CalcNumExtents(fs: Fs, el: ExtentList, ghost lo: nat, ghost hi: nat) returns (ret: Errcode, ne: uint32)
    requires ClusterSize(fs.bpc) && WellFormed(fs, el, lo, hi)
    ensures ret == Ok && ne == CountOf(fs, el)
    decreases el.l_tree_depth, 1
  {
    ret, ne := Ok, 0;
    CountAll(fs, el);
    var i := 0;
    while i < |el.l_recs|
      invariant 0 <= i <= |el.l_recs| && ret == Ok && ne == CountTo(fs, el, i)
    {
      var clusters := Clusters32(fs, el, i);
      if clusters == 0 && i == |el.l_recs| - 1 {
        CountedMore(fs, el, i, ne, 0);
        SumNone(ne);
        return;
      }
      var extents;
      ret, extents := RecordExtents(fs, el, i, lo, hi);
      if ret != Ok {
        return;
      }
      CountedMore(fs, el, i, ne, extents);
      ne := Sum32(ne, extents);
      i := i + 1;
    }
  }
}
