/** extents.c: walking every extent of a file, and every block of every extent. */
module ExtentIterate {
  import opened Common
  import opened Units
  import opened ExtentTree
  import opened ExtentMap
  import opened BlockMap

  /** One call of the user's function: the device block, the file block, the flags. */
  datatype Visit = Visit(blkno: nat, bcount: nat, flags: nat)

  // ---- what a walk should visit ----

  /** The file blocks from `b` on that are mapped, one by one, `n` blocks far. */
  function MappedRun(fs: Fs, recs: seq<ExtentRec>, b: nat, n: nat): seq<Visit>
    requires 0 < fs.bpc
    decreases n
  {
    if n == 0 then []
    else
      var found := Lookup(fs, recs, BlocksToClusters(fs, b));
      (if found.Some? then [Visit(PhysBlock(fs, recs, b), b, found.value.e_flags)] else [])
        + MappedRun(fs, recs, b + 1, n - 1)
  }

  lemma {:induction false} MappedSplit(fs: Fs, recs: seq<ExtentRec>, b: nat, m: nat, n: nat)
    requires 0 < fs.bpc
    ensures MappedRun(fs, recs, b, m) + MappedRun(fs, recs, b + m, n) == MappedRun(fs, recs, b, m + n)
    decreases m
  {
    if m > 0 {
      MappedSplit(fs, recs, b + 1, m - 1, n);
      var found := Lookup(fs, recs, BlocksToClusters(fs, b));
      var x := if found.Some? then [Visit(PhysBlock(fs, recs, b), b, found.value.e_flags)] else [];
      var y, z := MappedRun(fs, recs, b + 1, m - 1), MappedRun(fs, recs, b + m, n);
      assert x + y + z == x + (y + z);
    }
  }

  /** A visit of a mapped block, with its device block and flags. */
  predicate VisitOf(fs: Fs, recs: seq<ExtentRec>, b: nat, v: Visit)
    requires 0 < fs.bpc
  {
    var found := Lookup(fs, recs, BlocksToClusters(fs, b));
    found.Some? && v == Visit(PhysBlock(fs, recs, b), b, found.value.e_flags)
  }

  /** Whether block `b` is the first visit of a walk that starts there: one more or none. */
  function Here(fs: Fs, recs: seq<ExtentRec>, b: nat): nat
    requires 0 < fs.bpc
  {
    if Lookup(fs, recs, BlocksToClusters(fs, b)).Some? then 1 else 0
  }

  lemma MappedTail(fs: Fs, recs: seq<ExtentRec>, b: nat, n: nat, k: nat)
    requires 0 < fs.bpc && 0 < n && k < |MappedRun(fs, recs, b, n)|
    ensures |MappedRun(fs, recs, b, n)| == Here(fs, recs, b) + |MappedRun(fs, recs, b + 1, n - 1)|
    ensures k < Here(fs, recs, b) ==> VisitOf(fs, recs, b, MappedRun(fs, recs, b, n)[k])
    ensures k >= Here(fs, recs, b) ==>
      MappedRun(fs, recs, b, n)[k] == MappedRun(fs, recs, b + 1, n - 1)[k - Here(fs, recs, b)]
  {
  }

  /** Only mapped blocks are visited. */
  lemma {:induction false} MappedOnly(fs: Fs, recs: seq<ExtentRec>, b: nat, n: nat, k: nat)
    requires 0 < fs.bpc && k < |MappedRun(fs, recs, b, n)|
    ensures var v := MappedRun(fs, recs, b, n)[k]; b <= v.bcount < b + n && VisitOf(fs, recs, v.bcount, v)
    decreases n
  {
    if n > 0 {
      MappedTail(fs, recs, b, n, k);
      if k >= Here(fs, recs, b) {
        MappedOnly(fs, recs, b + 1, n - 1, k - Here(fs, recs, b));
      }
    }
  }

  /** Blocks are visited in file order, and so once each. */
  lemma {:induction false} MappedInOrder(fs: Fs, recs: seq<ExtentRec>, b: nat, n: nat, i: nat, j: nat)
    requires 0 < fs.bpc && i < j < |MappedRun(fs, recs, b, n)|
    ensures MappedRun(fs, recs, b, n)[i].bcount < MappedRun(fs, recs, b, n)[j].bcount
    decreases n
  {
    if n > 0 {
      MappedTail(fs, recs, b, n, i);
      MappedTail(fs, recs, b, n, j);
      var h := Here(fs, recs, b);
      if i < h {
        MappedOnly(fs, recs, b + 1, n - 1, j - h);
      } else {
        MappedInOrder(fs, recs, b + 1, n - 1, i - h, j - h);
      }
    }
  }

  /** Every mapped block is visited. */
  lemma {:induction false} MappedAll(fs: Fs, recs: seq<ExtentRec>, b: nat, n: nat, x: nat) returns (k: nat)
    requires 0 < fs.bpc && b <= x < b + n && Lookup(fs, recs, BlocksToClusters(fs, x)).Some?
    ensures k < |MappedRun(fs, recs, b, n)| && MappedRun(fs, recs, b, n)[k].bcount == x
    decreases n
  {
    if x == b {
      k := 0;
    } else {
      k := MappedAll(fs, recs, b + 1, n - 1, x);
      k := k + Here(fs, recs, b);
    }
  }

  lemma {:induction false} MappedHole(fs: Fs, recs: seq<ExtentRec>, b: nat, n: nat)
    requires 0 < fs.bpc && HoleFor(fs, recs, b, n)
    ensures MappedRun(fs, recs, b, n) == []
    decreases n
  {
    if n > 0 {
      MappedHole(fs, recs, b + 1, n - 1);
    }
  }

  /** Visits in a row. */
  function Row(blkno: nat, b: nat, n: nat, flags: nat): seq<Visit>
    decreases n
  {
    if n == 0 then [] else Row(blkno, b, n - 1, flags) + [Visit(blkno + n - 1, b + n - 1, flags)]
  }

  lemma {:induction false} MappedExtent(fs: Fs, recs: seq<ExtentRec>, hi: nat, rec: ExtentRec, b: nat, n: nat)
    requires 0 < fs.bpc && Sorted(fs, 0, recs, 0, hi) && rec in recs
    requires b == Times(rec.e_cpos, fs.bpc) && b + n <= Times(End(fs, 0, rec), fs.bpc)
    ensures MappedRun(fs, recs, b, n) == Row(rec.e_blkno, b, n, rec.e_flags)
  {
    if n > 0 {
      MappedExtent(fs, recs, hi, rec, b, n - 1);
      MappedSplit(fs, recs, b, n - 1, 1);
      MappedOne(fs, recs, hi, rec, b + n - 1);
    }
  }

  lemma MappedOne(fs: Fs, recs: seq<ExtentRec>, hi: nat, rec: ExtentRec, b: nat)
    requires 0 < fs.bpc && Sorted(fs, 0, recs, 0, hi) && rec in recs
    requires Times(rec.e_cpos, fs.bpc) <= b < Times(End(fs, 0, rec), fs.bpc)
    ensures MappedRun(fs, recs, b, 1) == [Visit(rec.e_blkno + (b - Times(rec.e_cpos, fs.bpc)), b, rec.e_flags)]
  {
    InCluster(fs.bpc, b, rec.e_cpos);
    InCluster(fs.bpc, b, End(fs, 0, rec));
    StillFound(fs, recs, hi, rec, BlocksToClusters(fs, b));
    assert MappedRun(fs, recs, b + 1, 0) == [];
  }

  // ---- what the code visits ----

  /** How many of `n` blocks from `b` on lie below block `limit`. */
  function Below(b: nat, n: nat, limit: nat): nat {
    if limit <= b then 0 else if limit < b + n then limit - b else n
  }

  /** The blocks of one extent when it is taken to start at block `b`. */
  function RecRow(rec: ExtentRec, b: nat, limit: nat): seq<Visit> {
    Row(rec.e_blkno, b, Below(b, rec.e_leaf_blocks, limit), rec.e_flags)
  }

  /** Extent after extent; the start of each is shifted in 32 bits. */
  function Walk(fs: Fs, recs: seq<ExtentRec>, limit: nat): seq<Visit> {
    if recs == [] then []
    else
      var rec := recs[|recs| - 1];
      Walk(fs, recs[..|recs| - 1], limit) + RecRow(rec, ClustersToBlocks(fs, rec.e_cpos), limit)
  }

  /** Extent after extent, each from where it starts. */
  function PlainWalk(fs: Fs, recs: seq<ExtentRec>, limit: nat): seq<Visit> {
    if recs == [] then []
    else
      var rec := recs[|recs| - 1];
      PlainWalk(fs, recs[..|recs| - 1], limit) + RecRow(rec, Times(rec.e_cpos, fs.bpc), limit)
  }

  lemma {:induction false} WalkConcat(fs: Fs, a: seq<ExtentRec>, b: seq<ExtentRec>, limit: nat)
    ensures Walk(fs, a + b, limit) == Walk(fs, a, limit) + Walk(fs, b, limit)
  {
    if b == [] {
      assert a + b == a;
    } else {
      var rec, front := b[|b| - 1], b[..|b| - 1];
      assert (a + b)[..|a + b| - 1] == a + front;
      WalkConcat(fs, a, front, limit);
      var row := RecRow(rec, ClustersToBlocks(fs, rec.e_cpos), limit);
      assert Walk(fs, a, limit) + Walk(fs, front, limit) + row == Walk(fs, a, limit) + (Walk(fs, front, limit) + row);
    }
  }

  function Min(a: nat, b: nat): nat {
    if a < b then a else b
  }

  /** The block where the first `k` extents end. */
  ghost function EndBlock(fs: Fs, recs: seq<ExtentRec>, k: nat): nat
    requires 0 < fs.bpc && k <= |recs|
  {
    if k == 0 then 0 else Times(End(fs, 0, recs[k - 1]), fs.bpc)
  }

  lemma WholeExtent(fs: Fs, rec: ExtentRec)
    requires 0 < fs.bpc && LeafRecOk(fs, rec)
    ensures Times(End(fs, 0, rec), fs.bpc) == Times(rec.e_cpos, fs.bpc) + rec.e_leaf_blocks
  {
  }

  lemma WalkLast(fs: Fs, recs: seq<ExtentRec>, limit: nat, k: nat)
    requires 0 < k <= |recs|
    ensures PlainWalk(fs, recs[..k], limit)
      == PlainWalk(fs, recs[..k - 1], limit) + RecRow(recs[k - 1], Times(recs[k - 1].e_cpos, fs.bpc), limit)
    ensures Walk(fs, recs[..k], limit)
      == Walk(fs, recs[..k - 1], limit) + RecRow(recs[k - 1], ClustersToBlocks(fs, recs[k - 1].e_cpos), limit)
  {
    assert recs[..k][..k - 1] == recs[..k - 1];
  }

  lemma BelowEnd(fs: Fs, rec: ExtentRec, limit: nat)
    requires 0 < fs.bpc && LeafRecOk(fs, rec)
    ensures var b := Times(rec.e_cpos, fs.bpc);
      var n := Below(b, rec.e_leaf_blocks, limit);
      && (if n == 0 then Min(limit, b) else b + n) == Min(limit, Times(End(fs, 0, rec), fs.bpc))
      && b + n <= Times(End(fs, 0, rec), fs.bpc) && (0 < n ==> b + n <= limit)
  {
  }

  /** The first `k` extents visit the mapped blocks up to their end. */
  lemma {:induction false} WalkMapped(fs: Fs, recs: seq<ExtentRec>, hi: nat, limit: nat, k: nat)
    requires 0 < fs.bpc && Sorted(fs, 0, recs, 0, hi) && k <= |recs|
    requires forall i :: 0 <= i < |recs| ==> LeafRecOk(fs, recs[i])
    ensures PlainWalk(fs, recs[..k], limit) == MappedRun(fs, recs, 0, Min(limit, EndBlock(fs, recs, k)))
  {
    if k > 0 {
      WalkMapped(fs, recs, hi, limit, k - 1);
      WalkLast(fs, recs, limit, k);
      WalkMappedStep(fs, recs, hi, limit, k - 1);
    }
  }

  lemma WalkMappedStep(fs: Fs, recs: seq<ExtentRec>, hi: nat, limit: nat, k: nat)
    requires 0 < fs.bpc && Sorted(fs, 0, recs, 0, hi) && k < |recs| && LeafRecOk(fs, recs[k])
    ensures MappedRun(fs, recs, 0, Min(limit, EndBlock(fs, recs, k)))
      + RecRow(recs[k], Times(recs[k].e_cpos, fs.bpc), limit)
      == MappedRun(fs, recs, 0, Min(limit, EndBlock(fs, recs, k + 1)))
  {
    var rec := recs[k];
    var b := Times(rec.e_cpos, fs.bpc);
    var n := Below(b, rec.e_leaf_blocks, limit);
    GapBefore(fs, recs, hi, k);
    BelowEnd(fs, rec, limit);
    MappedExtent(fs, recs, hi, rec, b, n);
    ExtendMapped(fs, recs, EndBlock(fs, recs, k), b, n, limit, Min(limit, EndBlock(fs, recs, k + 1)));
  }

  lemma ExtendMapped(fs: Fs, recs: seq<ExtentRec>, from: nat, b: nat, n: nat, limit: nat, to: nat)
    requires 0 < fs.bpc && to == (if n == 0 then Min(limit, b) else b + n) && from <= b
      && HoleFor(fs, recs, from, b - from) && (0 < n ==> b + n <= limit)
    ensures MappedRun(fs, recs, 0, Min(limit, from)) + MappedRun(fs, recs, b, n)
      == MappedRun(fs, recs, 0, to)
  {
    if from <= limit {
      var gap := Min(limit, b) - from;
      MappedHole(fs, recs, from, gap);
      MappedSplit(fs, recs, 0, from, gap);
    }
    if n > 0 {
      MappedSplit(fs, recs, 0, b, n);
    }
  }

  /** Nothing is mapped between two extents. */
  lemma GapBefore(fs: Fs, recs: seq<ExtentRec>, hi: nat, k: nat)
    requires 0 < fs.bpc && Sorted(fs, 0, recs, 0, hi) && k < |recs|
    ensures var from, b := EndBlock(fs, recs, k), Times(recs[k].e_cpos, fs.bpc);
      && from <= b
      && HoleFor(fs, recs, from, b - from)
  {
    var from, b := EndBlock(fs, recs, k), Times(recs[k].e_cpos, fs.bpc);
    assert Times(0, fs.bpc) == 0;
    var lo := if k == 0 then 0 else End(fs, 0, recs[k - 1]);
    Order(fs.bpc, lo, recs[k].e_cpos);
    forall x | from <= x < b
      ensures Lookup(fs, recs, BlocksToClusters(fs, x)) == None
    {
      InCluster(fs.bpc, x, lo);
      InCluster(fs.bpc, x, recs[k].e_cpos);
      BetweenExtents(fs, recs, hi, k, BlocksToClusters(fs, x));
    }
  }

  lemma BetweenExtents(fs: Fs, recs: seq<ExtentRec>, hi: nat, k: nat, v: nat)
    requires 0 < fs.bpc && Sorted(fs, 0, recs, 0, hi) && k <= |recs|
    requires (k > 0 ==> End(fs, 0, recs[k - 1]) <= v) && (k < |recs| ==> v < recs[k].e_cpos)
    ensures Lookup(fs, recs, v) == None
  {
    LookupSome(fs, recs, v);
    forall i | 0 <= i < |recs|
      ensures !Covers(fs, 0, recs[i], v)
    {
      if i < k - 1 {
        assert End(fs, 0, recs[i]) <= recs[k - 1].e_cpos;
      } else if k < i {
        assert End(fs, 0, recs[k]) <= recs[i].e_cpos;
      }
    }
  }

  /** Nothing is mapped past the last extent. */
  lemma PastLast(fs: Fs, recs: seq<ExtentRec>, hi: nat, n: nat)
    requires 0 < fs.bpc && Sorted(fs, 0, recs, 0, hi)
    ensures HoleFor(fs, recs, EndBlock(fs, recs, |recs|), n)
  {
    var end, lo := EndBlock(fs, recs, |recs|), if recs == [] then 0 else End(fs, 0, recs[|recs| - 1]);
    forall x | end <= x < end + n
      ensures Lookup(fs, recs, BlocksToClusters(fs, x)) == None
    {
      InCluster(fs.bpc, x, lo);
      BetweenExtents(fs, recs, hi, |recs|, BlocksToClusters(fs, x));
    }
  }

  /** Visiting extent after extent, each from where it starts, visits exactly the mapped
      blocks below the limit, in file order, once each, where the block map has them. */
  lemma PlainExact(fs: Fs, recs: seq<ExtentRec>, hi: nat, limit: nat)
    requires 0 < fs.bpc && Sorted(fs, 0, recs, 0, hi)
    requires forall i :: 0 <= i < |recs| ==> LeafRecOk(fs, recs[i])
    ensures PlainWalk(fs, recs, limit) == MappedRun(fs, recs, 0, limit)
  {
    WalkMapped(fs, recs, hi, limit, |recs|);
    assert recs[..|recs|] == recs;
    var end := EndBlock(fs, recs, |recs|);
    if end < limit {
      PastLast(fs, recs, hi, limit - end);
      MappedHole(fs, recs, end, limit - end);
      MappedSplit(fs, recs, 0, end, limit - end);
    }
  }

  // ---- when the 32-bit shift does no harm to a walk ----

  /** The extent is empty, or starts below block 2^32, or is not reached at all. */
  predicate InPlace(fs: Fs, rec: ExtentRec, limit: nat) {
    rec.e_leaf_blocks == 0 || Times(rec.e_cpos, fs.bpc) < TWO32 || limit <= ClustersToBlocks(fs, rec.e_cpos)
  }

  predicate AllInPlace(fs: Fs, recs: seq<ExtentRec>, limit: nat) {
    forall i :: 0 <= i < |recs| ==> InPlace(fs, recs[i], limit)
  }

  lemma CutStart(fs: Fs, c: nat)
    ensures ClustersToBlocks(fs, c) <= Times(c, fs.bpc)
    ensures Times(c, fs.bpc) < TWO32 ==> ClustersToBlocks(fs, c) == Times(c, fs.bpc)
  {
    ShiftOf(c, fs.bpc);
  }

  lemma {:induction false} InPlacePlain(fs: Fs, recs: seq<ExtentRec>, limit: nat)
    requires AllInPlace(fs, recs, limit)
    ensures Walk(fs, recs, limit) == PlainWalk(fs, recs, limit)
  {
    if recs != [] {
      var rec := recs[|recs| - 1];
      assert InPlace(fs, rec, limit);
      InPlacePlain(fs, recs[..|recs| - 1], limit);
      CutStart(fs, rec.e_cpos);
    }
  }

  lemma {:induction false} RowAt(blkno: nat, b: nat, n: nat, flags: nat, t: nat)
    requires t < n
    ensures |Row(blkno, b, n, flags)| == n && Row(blkno, b, n, flags)[t] == Visit(blkno + t, b + t, flags)
    decreases n
  {
    if n == 1 {
      assert Row(blkno, b, 0, flags) == [];
    } else if t < n - 1 {
      RowAt(blkno, b, n - 1, flags, t);
    } else {
      RowAt(blkno, b, n - 1, flags, 0);
    }
  }

  lemma {:induction false} WalkGrows(fs: Fs, recs: seq<ExtentRec>, limit: nat, k: nat, n: nat)
    requires k <= n <= |recs|
    ensures Walk(fs, recs[..k], limit) <= Walk(fs, recs[..n], limit)
    decreases n
  {
    if k < n {
      WalkGrows(fs, recs, limit, k, n - 1);
      WalkLast(fs, recs, limit, n);
    }
  }

  /** The visit of block `t` of extent `k`, which stands behind those of the extents
      before it and before those of the extents after it. */
  lemma VisitIn(fs: Fs, recs: seq<ExtentRec>, limit: nat, k: nat, t: nat) returns (p: nat)
    requires k < |recs| && t < Below(ClustersToBlocks(fs, recs[k].e_cpos), recs[k].e_leaf_blocks, limit)
    ensures |Walk(fs, recs[..k], limit)| <= p < |Walk(fs, recs[..k + 1], limit)| <= |Walk(fs, recs, limit)|
    ensures Walk(fs, recs, limit)[p]
      == Visit(recs[k].e_blkno + t, ClustersToBlocks(fs, recs[k].e_cpos) + t, recs[k].e_flags)
  {
    var b := ClustersToBlocks(fs, recs[k].e_cpos);
    RowAt(recs[k].e_blkno, b, Below(b, recs[k].e_leaf_blocks, limit), recs[k].e_flags, t);
    WalkLast(fs, recs, limit, k + 1);
    WalkGrows(fs, recs, limit, k + 1, |recs|);
    assert recs[..|recs|] == recs;
    p := |Walk(fs, recs[..k], limit)| + t;
  }

  /** The extent that maps a block below 2^32, which is in place. */
  lemma Home(fs: Fs, recs: seq<ExtentRec>, b: nat) returns (j: nat)
    requires 0 < fs.bpc && b < TWO32 && Lookup(fs, recs, BlocksToClusters(fs, b)).Some?
    requires forall i :: 0 <= i < |recs| ==> LeafRecOk(fs, recs[i])
    ensures j < |recs| && ClustersToBlocks(fs, recs[j].e_cpos) == Times(recs[j].e_cpos, fs.bpc)
    ensures Times(recs[j].e_cpos, fs.bpc) <= b < Times(recs[j].e_cpos, fs.bpc) + recs[j].e_leaf_blocks
  {
    LookupSome(fs, recs, BlocksToClusters(fs, b));
    j :| 0 <= j < |recs| && Covers(fs, 0, recs[j], BlocksToClusters(fs, b));
    CoveredBlock(fs, recs[j], b);
    WholeExtent(fs, recs[j]);
    CutStart(fs, recs[j].e_cpos);
  }

  /** Two visits of different extents are not of the same block, if the walk is in order. */
  lemma VisitedOnce(fs: Fs, recs: seq<ExtentRec>, limit: nat, j: nat, k: nat, p: nat, q: nat)
    requires 0 < fs.bpc && j < |recs| && k < |recs| && j != k
    requires |Walk(fs, recs[..j], limit)| <= p < |Walk(fs, recs[..j + 1], limit)| <= |Walk(fs, recs, limit)|
    requires |Walk(fs, recs[..k], limit)| <= q < |Walk(fs, recs[..k + 1], limit)| <= |Walk(fs, recs, limit)|
    requires Walk(fs, recs, limit) == MappedRun(fs, recs, 0, limit)
    ensures Walk(fs, recs, limit)[p].bcount != Walk(fs, recs, limit)[q].bcount
  {
    if j < k {
      WalkGrows(fs, recs, limit, j + 1, k);
      MappedInOrder(fs, recs, 0, limit, p, q);
    } else {
      WalkGrows(fs, recs, limit, k + 1, j);
      MappedInOrder(fs, recs, 0, limit, q, p);
    }
  }

  /** An extent that is visited out of place: its first block is visited as a block that
      is a hole, or that is visited once more. */
  lemma OutOfPlace(fs: Fs, recs: seq<ExtentRec>, limit: nat, k: nat)
    requires 0 < fs.bpc && k < |recs| && !InPlace(fs, recs[k], limit)
    requires forall i :: 0 <= i < |recs| ==> LeafRecOk(fs, recs[i])
    ensures Walk(fs, recs, limit) != MappedRun(fs, recs, 0, limit)
  {
    var b := ClustersToBlocks(fs, recs[k].e_cpos);
    var p := VisitIn(fs, recs, limit, k, 0);
    if Walk(fs, recs, limit) == MappedRun(fs, recs, 0, limit) {
      MappedOnly(fs, recs, 0, limit, p);
      var j := Home(fs, recs, b);
      var q := VisitIn(fs, recs, limit, j, b - Times(recs[j].e_cpos, fs.bpc));
      VisitedOnce(fs, recs, limit, j, k, q, p);
    }
  }

  /** A walk visits exactly the mapped blocks below the limit, in file order, once each,
      where the block map has them, if and only if no extent is out of place. */
  lemma WalkExact(fs: Fs, recs: seq<ExtentRec>, hi: nat, limit: nat)
    requires 0 < fs.bpc && Sorted(fs, 0, recs, 0, hi)
    requires forall i :: 0 <= i < |recs| ==> LeafRecOk(fs, recs[i])
    ensures Walk(fs, recs, limit) == MappedRun(fs, recs, 0, limit) <==> AllInPlace(fs, recs, limit)
  {
    if AllInPlace(fs, recs, limit) {
      InPlacePlain(fs, recs, limit);
      PlainExact(fs, recs, hi, limit);
    } else {
      var k :| 0 <= k < |recs| && !InPlace(fs, recs[k], limit);
      OutOfPlace(fs, recs, limit, k);
    }
  }

  // ---- the walk ----

  /** No 32-bit start with a 32-bit length reaches this block. */
  const END := 2 * TWO32

  /** `struct extent_context` and `struct block_context`, with the calls made so far. */
  class ExtentContext {
    var ccount: uint32
    var errcode: Errcode
    var visits: seq<Visit>
    const eb_bufs: array<ExtentBlock>
    const blocksize: nat
    const i_size: nat
    const append: bool

    constructor (depth: nat, blocksize: nat, i_size: nat, append: bool)
      ensures ccount == 0 && errcode == Ok && visits == [] && eb_bufs.Length == depth && fresh(eb_bufs)
      ensures this.blocksize == blocksize && this.i_size == i_size && this.append == append
    {
      ccount, errcode, visits := 0, Ok, [];
      eb_bufs := new ExtentBlock[depth](d => ExtentBlock(0, 0, EmptyList()));
      this.blocksize, this.i_size, this.append := blocksize, i_size, append;
    }

    /** The file block at which the walk stops; with `append` one that is never reached. */
    ghost function Limit(end: nat): nat
      requires 0 < blocksize
    {
      if append then END + end else (i_size + blocksize - 1) / blocksize
    }
  }

  lemma BelowSize(b: nat, bs: nat, size: nat)
    requires 0 < bs
    ensures Times(b, bs) >= size <==> (size + bs - 1) / bs <= b
  {
    InCluster(bs, size + bs - 1, b + 1);
    Add(bs, b, 1);
    assert Times(1, bs) == bs;
  }

  /** `block_iterate_func`, with a user's function that only looks. */
  method BlockIterateFunc(fs: Fs, ctxt: ExtentContext, rec: ExtentRec, ghost end: nat)
    requires ClusterSize(fs.bpc) && 0 < ctxt.blocksize && LeafRecOk(fs, rec)
    modifies ctxt`visits
    ensures ctxt.visits == old(ctxt.visits) + RecRow(rec, ClustersToBlocks(fs, rec.e_cpos), ctxt.Limit(end))
  {
    RecLength(fs, rec);
    var bcount: nat := ClustersToBlocks(fs, rec.e_cpos);
    ghost var start, limit := bcount, ctxt.Limit(end);
    var bend := bcount + ClustersToBlocks(fs, RecClusters(fs, 0, rec));
    var blkno: nat := rec.e_blkno;
    while bcount < bend
      invariant start <= bcount <= bend && blkno == rec.e_blkno + (bcount - start)
      invariant bcount - start <= Below(start, rec.e_leaf_blocks, limit)
      invariant ctxt.visits == old(ctxt.visits) + Row(rec.e_blkno, start, bcount - start, rec.e_flags)
    {
      BelowSize(bcount, ctxt.blocksize, ctxt.i_size);
      if Times(bcount, ctxt.blocksize) >= ctxt.i_size && !ctxt.append {
        break;
      }
      ctxt.visits := ctxt.visits + [Visit(blkno, bcount, rec.e_flags)];
      blkno, bcount := blkno + 1, bcount + 1;
    }
  }

  /** The length of an extent is not changed by the shift. */
  lemma RecLength(fs: Fs, rec: ExtentRec)
    requires ClusterSize(fs.bpc) && LeafRecOk(fs, rec)
    ensures ClustersToBlocks(fs, RecClusters(fs, 0, rec)) == rec.e_leaf_blocks
  {
    ShiftBack(rec.e_leaf_blocks, fs.bpc);
  }

  /** The clusters of a list of extents. */
  function Clusters(fs: Fs, recs: seq<ExtentRec>): nat
    requires 0 < fs.bpc
  {
    if recs == [] then 0 else Clusters(fs, recs[..|recs| - 1]) + RecClusters(fs, 0, recs[|recs| - 1])
  }

  lemma {:induction false} ClustersConcat(fs: Fs, a: seq<ExtentRec>, b: seq<ExtentRec>)
    requires 0 < fs.bpc
    ensures Clusters(fs, a + b) == Clusters(fs, a) + Clusters(fs, b)
  {
    if b == [] {
      assert a + b == a;
    } else {
      assert (a + b)[..|a + b| - 1] == a + b[..|b| - 1];
      ClustersConcat(fs, a, b[..|b| - 1]);
    }
  }

  /** The list at a level of the walk: the inode's, or the one in the buffer of that level. */
  function ListAt(ctxt: ExtentContext, root_el: ExtentList, level: nat): ExtentList
    reads ctxt.eb_bufs
  {
    if level < ctxt.eb_bufs.Length then ctxt.eb_bufs[level].h_list else root_el
  }

  /** What a walk of `recs` adds to the visits and to the cluster count. */
  ghost predicate Walked(fs: Fs, recs: seq<ExtentRec>, limit: nat, visits: seq<Visit>, ccount: nat,
                         visits': seq<Visit>, ccount': nat)
    requires 0 < fs.bpc
  {
    visits' == visits + Walk(fs, recs, limit) && ccount' == (ccount + Clusters(fs, recs)) % TWO32
  }

  lemma WalkedNone(fs: Fs, limit: nat, visits: seq<Visit>, ccount: uint32)
    requires 0 < fs.bpc
    ensures Walked(fs, [], limit, visits, ccount, visits, ccount)
  {
  }

  lemma WalkedMore(fs: Fs, a: seq<ExtentRec>, b: seq<ExtentRec>, ab: seq<ExtentRec>, limit: nat,
                   v0: seq<Visit>, c0: nat, v1: seq<Visit>, c1: nat, v2: seq<Visit>, c2: nat)
    requires 0 < fs.bpc && Walked(fs, a, limit, v0, c0, v1, c1) && Walked(fs, b, limit, v1, c1, v2, c2) && ab == a + b
    ensures Walked(fs, ab, limit, v0, c0, v2, c2)
  {
    WalkConcat(fs, a, b, limit);
    ClustersConcat(fs, a, b);
    assert v0 + Walk(fs, a, limit) + Walk(fs, b, limit) == v0 + (Walk(fs, a, limit) + Walk(fs, b, limit));
    SumMod(c0 + Clusters(fs, a), Clusters(fs, b));
  }

  /** One record of a leaf; an empty first record is skipped. */
  method IterateLeafRec(fs: Fs, ctxt: ExtentContext, rec: ExtentRec, i: nat, ghost end: nat)
    requires ClusterSize(fs.bpc) && 0 < ctxt.blocksize && LeafRecOk(fs, rec)
    modifies ctxt`visits, ctxt`ccount
    ensures Walked(fs, [rec], ctxt.Limit(end), old(ctxt.visits), old(ctxt.ccount), ctxt.visits, ctxt.ccount)
  {
    ghost var limit := ctxt.Limit(end);
    assert [rec][..0] == [] && Clusters(fs, [rec]) == RecClusters(fs, 0, rec);
    assert Walk(fs, [rec], limit) == [] + RecRow(rec, ClustersToBlocks(fs, rec.e_cpos), limit);
    if i == 0 && rec.e_leaf_blocks == 0 {
      DivMod(0, fs.bpc);
      Order(fs.bpc, 0, RecClusters(fs, 0, rec));
      assert ctxt.visits + [] == ctxt.visits;
      return;
    }
    BlockIterateFunc(fs, ctxt, rec, end);
    ctxt.ccount := (ctxt.ccount + RecClusters(fs, 0, rec)) % TWO32;
  }

  /** `extent_iterate_el`: every extent below the list, in order.  The list is read
      again from its buffer in every round; what lies below never overwrites it. */
  method ExtentIterateEl(fs: Fs, ctxt: ExtentContext, root_el: ExtentList, level: nat, ghost lo: nat, ghost hi: nat,
                         ghost end: nat)
    returns (error: bool)
    requires ClusterSize(fs.bpc) && 0 < ctxt.blocksize && level <= ctxt.eb_bufs.Length && ctxt.errcode == Ok
    requires ListAt(ctxt, root_el, level).l_tree_depth == level && WellFormed(fs, ListAt(ctxt, root_el, level), lo, hi)
    modifies ctxt, ctxt.eb_bufs
    ensures !error && ctxt.errcode == Ok
    ensures Walked(fs, Leaves(fs, old(ListAt(ctxt, root_el, level))), ctxt.Limit(end),
                   old(ctxt.visits), old(ctxt.ccount), ctxt.visits, ctxt.ccount)
    ensures forall j :: level <= j < ctxt.eb_bufs.Length ==> ctxt.eb_bufs[j] == old(ctxt.eb_bufs[j])
    decreases level, 1
  {
    ghost var el, limit := ListAt(ctxt, root_el, level), ctxt.Limit(end);
    ghost var v0, c0 := ctxt.visits, ctxt.ccount;
    WalkedNone(fs, limit, v0, c0);
    error := false;
    var i := 0;
    while i < |ListAt(ctxt, root_el, level).l_recs|
      invariant i <= |el.l_recs| && !error && ctxt.errcode == Ok && ListAt(ctxt, root_el, level) == el
      invariant forall j :: level <= j < ctxt.eb_bufs.Length ==> ctxt.eb_bufs[j] == old(ctxt.eb_bufs[j])
      invariant Walked(fs, Done(fs, el, i), limit, v0, c0, ctxt.visits, ctxt.ccount)
    {
      var rec := ListAt(ctxt, root_el, level).l_recs[i];
      ghost var v1, c1, done := ctxt.visits, ctxt.ccount, Done(fs, el, i);
      if level > 0 {
        assert KidOk(fs, el, i);
        error := ExtentIterateEb(fs, ctxt, root_el, rec, level, el, i, lo, hi, end);
      } else {
        IterateLeafRec(fs, ctxt, rec, i, end);
      }
      if error {
        break;
      }
      DoneMore(fs, el, i);
      i := i + 1;
      WalkedMore(fs, done, if level > 0 then Leaves(fs, Kid(fs, el, i - 1)) else [rec], Done(fs, el, i), limit,
                 v0, c0, v1, c1, ctxt.visits, ctxt.ccount);
    }
    DoneAll(fs, el);
  }

  /** The extents below the first `i` records. */
  ghost function Done(fs: Fs, el: ExtentList, i: nat): seq<ExtentRec>
    requires i <= |el.l_recs|
  {
    if el.l_tree_depth == 0 then el.l_recs[..i] else LeavesUpTo(fs, el, i)
  }

  lemma DoneMore(fs: Fs, el: ExtentList, i: nat)
    requires i < |el.l_recs|
    ensures Done(fs, el, i + 1) == Done(fs, el, i) + if el.l_tree_depth > 0 then Leaves(fs, Kid(fs, el, i))
      else [el.l_recs[i]]
  {
  }

  lemma DoneAll(fs: Fs, el: ExtentList)
    ensures Done(fs, el, 0) == [] && Done(fs, el, |el.l_recs|) == Leaves(fs, el)
  {
  }

  /** `extent_iterate_eb`, for data only: reads the block of a record into the
      buffer one level down and walks it. */
  method ExtentIterateEb(fs: Fs, ctxt: ExtentContext, root_el: ExtentList, eb_rec: ExtentRec, ref_tree_depth: nat,
                         ghost el: ExtentList, ghost i: nat, ghost lo: nat, ghost hi: nat, ghost end: nat)
    returns (error: bool)
    requires ClusterSize(fs.bpc) && 0 < ctxt.blocksize && 0 < ref_tree_depth <= ctxt.eb_bufs.Length
      && ctxt.errcode == Ok
    requires el.l_tree_depth == ref_tree_depth && WellFormed(fs, el, lo, hi) && i < |el.l_recs|
      && eb_rec == el.l_recs[i]
    modifies ctxt, ctxt.eb_bufs
    ensures !error && ctxt.errcode == Ok
    ensures Walked(fs, Leaves(fs, Kid(fs, el, i)), ctxt.Limit(end),
                   old(ctxt.visits), old(ctxt.ccount), ctxt.visits, ctxt.ccount)
    ensures forall j :: ref_tree_depth <= j < ctxt.eb_bufs.Length ==> ctxt.eb_bufs[j] == old(ctxt.eb_bufs[j])
    decreases ref_tree_depth, 0
  {
    KidReadable(fs, el, lo, hi, i);
    assert KidOk(fs, el, i);
    error := false;
    var tree_depth := ref_tree_depth - 1;
    if eb_rec.e_blkno == 0 {
      return;
    }
    var ret, eb := Ok, ExtentBlock(0, 0, EmptyList());
    if eb_rec.e_blkno < CMFS_SUPER_BLOCK_BLKNO || eb_rec.e_blkno > fs.fs_blocks {
      ret := BadBlkno;
    } else {
      ret, eb := ReadExtentBlock(fs, eb_rec.e_blkno);
    }
    if ret == Ok {
      ctxt.eb_bufs[tree_depth] := eb;
      if ctxt.eb_bufs[tree_depth].h_list.l_tree_depth != tree_depth
        || ctxt.eb_bufs[tree_depth].h_blkno != eb_rec.e_blkno {
        ret := CorruptExtentBlock;
      }
    }
    ctxt.errcode := ret;
    if ret != Ok {
      error := true;
      return;
    }
    error := ExtentIterateEl(fs, ctxt, root_el, tree_depth, eb_rec.e_cpos, End(fs, el.l_tree_depth, eb_rec), end);
  }

  /** `cmfs_block_iterate_inode`: the walk of the extents up to the size of the file or,
      with `append`, to their end. It visits exactly the mapped blocks, in file order, once
      each, at the device block where the block map has them, if and only if no extent
      is out of place. */
  method BlockIterateInode(fs: Fs, root_el: ExtentList, blocksize: nat, i_size: nat, append: bool, ghost hi: nat)
    returns (ret: Errcode, visits: seq<Visit>, ghost limit: nat)
    requires ClusterSize(fs.bpc) && 0 < blocksize && WellFormed(fs, root_el, 0, hi)
    ensures ret == Ok && limit == if append then END + Times(hi, fs.bpc) else (i_size + blocksize - 1) / blocksize
    ensures visits == Walk(fs, Leaves(fs, root_el), limit)
    ensures visits == MappedRun(fs, Leaves(fs, root_el), 0, limit) <==> AllInPlace(fs, Leaves(fs, root_el), limit)
  {
    var ctxt := new ExtentContext(root_el.l_tree_depth, blocksize, i_size, append);
    limit := ctxt.Limit(Times(hi, fs.bpc));
    var error := ExtentIterateEl(fs, ctxt, root_el, root_el.l_tree_depth, 0, hi, Times(hi, fs.bpc));
    ret, visits := ctxt.errcode, ctxt.visits;
    if !error {
      ret := Ok;
    }
    LeavesSorted(fs, root_el, 0, hi);
    WalkExact(fs, Leaves(fs, root_el), hi, limit);
    assert [] + Walk(fs, Leaves(fs, root_el), limit) == Walk(fs, Leaves(fs, root_el), limit);
  }
}
