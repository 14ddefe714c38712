/** fileio.c: reading a file through its extent tree and the block cache. */
module FileIo {
  import opened Common
  import opened Units
  import opened ExtentTree
  import opened Holes
  import opened ExtentMap
  import opened BlockMap
  import opened BlockCache
  import DiskImage
  import UnixIo
  import CacheOps
  import RbShape

  function Zeros(n: nat): (r: seq<byte>)
    ensures |r| == n
  {
    seq(n, k => 0)
  }

  /** File block `b`: the device block it is mapped to, or zeros for a hole and
      for an extent that is allocated but not written. */
  ghost function FileBlock(fs: Fs, blocks: seq<seq<byte>>, bs: nat, recs: seq<ExtentRec>, b: nat): seq<byte>
    requires 0 < fs.bpc
  {
    match Lookup(fs, recs, BlocksToClusters(fs, b))
    case None => Zeros(bs)
    case Some(rec) =>
      var p := PhysBlock(fs, recs, b);
      if Unwritten(rec.e_flags) || p >= |blocks| then Zeros(bs) else blocks[p]
  }

  /** The `n` file blocks from `b` on. */
  ghost function Contents(fs: Fs, blocks: seq<seq<byte>>, bs: nat, recs: seq<ExtentRec>, b: nat, n: nat): seq<byte>
    requires 0 < fs.bpc
    decreases n
  {
    if n == 0 then [] else FileBlock(fs, blocks, bs, recs, b) + Contents(fs, blocks, bs, recs, b + 1, n - 1)
  }

  lemma {:induction false} ContentsSplit(fs: Fs, blocks: seq<seq<byte>>, bs: nat, recs: seq<ExtentRec>, b: nat, m: nat,
                                         n: nat)
    requires 0 < fs.bpc
    ensures Contents(fs, blocks, bs, recs, b, m) + Contents(fs, blocks, bs, recs, b + m, n)
      == Contents(fs, blocks, bs, recs, b, m + n)
    decreases m
  {
    if m > 0 {
      ContentsSplit(fs, blocks, bs, recs, b + 1, m - 1, n);
      var x, y, z := FileBlock(fs, blocks, bs, recs, b), Contents(fs, blocks, bs, recs, b + 1, m - 1),
          Contents(fs, blocks, bs, recs, b + m, n);
      assert x + y + z == x + (y + z);
    }
  }

  lemma ZerosSplit(a: nat, b: nat)
    ensures Zeros(a) + Zeros(b) == Zeros(a + b)
  {
  }

  /** The `n` blocks from `b` on are not backed by data on the device. */
  ghost predicate NoData(fs: Fs, recs: seq<ExtentRec>, b: nat, n: nat)
    requires 0 < fs.bpc
  {
    forall x :: b <= x < b + n ==>
      var found := Lookup(fs, recs, BlocksToClusters(fs, x)); found.Some? ==> Unwritten(found.value.e_flags)
  }

  lemma {:induction false} ZeroRun(fs: Fs, blocks: seq<seq<byte>>, bs: nat, recs: seq<ExtentRec>, b: nat, n: nat)
    requires 0 < fs.bpc && NoData(fs, recs, b, n)
    ensures Contents(fs, blocks, bs, recs, b, n) == Zeros(Times(n, bs))
    decreases n
  {
    if n > 0 {
      ZeroRun(fs, blocks, bs, recs, b + 1, n - 1);
      Add(bs, 1, n - 1);
      assert Times(1, bs) == bs;
      ZerosSplit(bs, Times(n - 1, bs));
    } else {
      assert Times(0, bs) == 0;
    }
  }

  /** The `n` blocks from `b` on are written, in a row from device block `p` on. */
  ghost predicate DataRow(fs: Fs, recs: seq<ExtentRec>, b: nat, p: nat, n: nat)
    requires 0 < fs.bpc
  {
    forall x :: b <= x < b + n ==>
      var found := Lookup(fs, recs, BlocksToClusters(fs, x));
      found.Some? && !Unwritten(found.value.e_flags) && PhysBlock(fs, recs, x) == p + (x - b)
  }

  lemma {:induction false} DataRun(fs: Fs, blocks: seq<seq<byte>>, bs: nat, recs: seq<ExtentRec>, b: nat, p: nat,
                                   n: nat)
    requires 0 < fs.bpc && DataRow(fs, recs, b, p, n) && p + n <= |blocks|
    ensures Contents(fs, blocks, bs, recs, b, n) == DiskImage.Flat(blocks, p, n)
    decreases n
  {
    if n > 0 {
      DataRun(fs, blocks, bs, recs, b + 1, p + 1, n - 1);
    }
  }

  // ---- one lookup ----

  /** How far the lookup of block `b` reaches: to the end of its extent, or as far as the
      hole is reported. */
  ghost function RunLength(fs: Fs, recs: seq<ExtentRec>, b: nat): nat
    requires 0 < fs.bpc && b < TWO64
  {
    SmallerUnit(fs, b);
    match Lookup(fs, recs, BlocksToClusters(fs, b))
    case None => HoleBlocks(fs, recs, b)
    case Some(rec) =>
      LookupSome(fs, recs, BlocksToClusters(fs, b));
      CoveredBlock(fs, rec, b);
      Times(End(fs, 0, rec), fs.bpc) - b
  }

  /** The lookup of a mapped block is right if the block is seen and its device block is
      below 2^32; see `BlockMap.CutExact`. */
  ghost predicate FineExtent(fs: Fs, recs: seq<ExtentRec>, b: nat)
    requires 0 < fs.bpc
  {
    PhysBlock(fs, recs, b) < TWO32
  }

  /** The hole that is left is a multiple of 2^32 blocks, so that its length is shifted to 0. */
  ghost predicate NoLength(fs: Fs, recs: seq<ExtentRec>, b: nat)
    requires 0 < fs.bpc && b < TWO64
  {
    SmallerUnit(fs, b);
    Times(HoleSize(recs, BlocksToClusters(fs, b)), fs.bpc) % TWO32 == 0
  }

  /** The lookup of a block in a hole is right if the length of the hole is not shifted to 0,
      or no extent follows; see `BlockMap.HoleCountZero` and `BlockMap.HoleCountExact`. */
  ghost predicate FineHole(fs: Fs, recs: seq<ExtentRec>, b: nat)
    requires 0 < fs.bpc && b < TWO64
  {
    NoLength(fs, recs, b) ==> b % fs.bpc != 0 && FarAway(fs, recs, BlocksToClusters(fs, b))
  }

  /** The lookup of block `b` is right. */
  ghost predicate Fine(fs: Fs, root_el: ExtentList, b: nat)
    requires 0 < fs.bpc && b < TWO64
  {
    && AllVisible(fs, root_el, BlocksToClusters(fs, b))
    && if Lookup(fs, Leaves(fs, root_el), BlocksToClusters(fs, b)).Some? then FineExtent(fs, Leaves(fs, root_el), b)
       else FineHole(fs, Leaves(fs, root_el), b)
  }

  /** A lookup reaches nowhere exactly at the start of a cluster in a hole that has no length. */
  lemma RunEmpty(fs: Fs, recs: seq<ExtentRec>, b: nat)
    requires ClusterSize(fs.bpc) && b < TWO64
    ensures RunLength(fs, recs, b) == 0 <==>
      Lookup(fs, recs, BlocksToClusters(fs, b)) == None && b % fs.bpc == 0 && NoLength(fs, recs, b)
  {
    SmallerUnit(fs, b);
    HoleCountZero(fs, recs, b);
    LookupSome(fs, recs, BlocksToClusters(fs, b));
    if Lookup(fs, recs, BlocksToClusters(fs, b)).Some? {
      CoveredBlock(fs, Lookup(fs, recs, BlocksToClusters(fs, b)).value, b);
    }
  }

  /** A lookup that is right: one run of blocks of one kind, not empty. */
  method NextRun(fs: Fs, root_el: ExtentList, i_blkno: nat, v_blkno: uint64, ghost hi: nat)
    returns (ret: Errcode, p_blkno: uint64, contig_blocks: uint64, flags: uint8)
    requires ClusterSize(fs.bpc) && FileTree(fs, root_el, hi) && GoodLinks(fs, root_el, hi)
      && Fine(fs, root_el, v_blkno)
    ensures ret == Ok && 0 < contig_blocks == RunLength(fs, Leaves(fs, root_el), v_blkno) && p_blkno < TWO32
    ensures if p_blkno == 0 || Unwritten(flags) then NoData(fs, Leaves(fs, root_el), v_blkno, contig_blocks)
            else DataRow(fs, Leaves(fs, root_el), v_blkno, p_blkno, contig_blocks)
  {
    ghost var recs, c := Leaves(fs, root_el), BlocksToClusters(fs, v_blkno);
    SmallerUnit(fs, v_blkno);
    DescendLookup(fs, root_el, 0, hi, c);
    LeavesSorted(fs, root_el, 0, hi);
    ret, p_blkno, contig_blocks, flags := ExtentMapGetBlocks(fs, root_el, i_blkno, v_blkno, hi);
    if Lookup(fs, recs, c).Some? {
      ExtentRun(fs, recs, hi, v_blkno, p_blkno, contig_blocks);
    } else {
      HoleRun(fs, recs, hi, v_blkno);
    }
  }

  lemma HoleRun(fs: Fs, recs: seq<ExtentRec>, hi: nat, b: nat)
    requires ClusterSize(fs.bpc) && Sorted(fs, 0, recs, 0, hi) && hi < TWO64 && b < TWO64
    requires Lookup(fs, recs, BlocksToClusters(fs, b)) == None && FineHole(fs, recs, b)
    ensures 0 < RunLength(fs, recs, b) && NoData(fs, recs, b, RunLength(fs, recs, b))
  {
    SmallerUnit(fs, b);
    HoleCountZero(fs, recs, b);
    HoleCountExact(fs, recs, hi, b);
  }

  lemma ExtentRun(fs: Fs, recs: seq<ExtentRec>, hi: nat, b: nat, p: nat, n: nat)
    requires ClusterSize(fs.bpc) && Sorted(fs, 0, recs, 0, hi) && b < TWO64
    requires forall i :: 0 <= i < |recs| ==> LeafRecOk(fs, recs[i])
    requires Lookup(fs, recs, BlocksToClusters(fs, b)).Some? && FineExtent(fs, recs, b)
    requires var rec := Lookup(fs, recs, BlocksToClusters(fs, b)).value;
      && Covers(fs, 0, rec, BlocksToClusters(fs, b)) && p == CutAddr(fs, rec, b)
        && n == Times(End(fs, 0, rec), fs.bpc) - b
    ensures 0 < n == RunLength(fs, recs, b) && 0 < p < TWO32
    ensures if Unwritten(Lookup(fs, recs, BlocksToClusters(fs, b)).value.e_flags) then NoData(fs, recs, b, n)
            else DataRow(fs, recs, b, p, n)
  {
    var rec := Lookup(fs, recs, BlocksToClusters(fs, b)).value;
    LookupSome(fs, recs, BlocksToClusters(fs, b));
    CutExact(fs, rec, b);
    AddrSplit(fs, rec, b);
    CoveredBlock(fs, rec, b);
    forall x | b <= x < b + n
      ensures Lookup(fs, recs, BlocksToClusters(fs, x)) == Some(rec) && PhysBlock(fs, recs, x) == p + (x - b)
    {
      SameExtent(fs, recs, hi, rec, b, x);
      LookupSome(fs, recs, BlocksToClusters(fs, x));
      CoveredBlock(fs, rec, x);
    }
  }

  // ---- the lookups of a read ----

  /** The block at which the loop of a read of the blocks from `start` to `end` stands after
      `k` rounds. */
  ghost function Position(fs: Fs, recs: seq<ExtentRec>, start: nat, end: nat, k: nat): (p: nat)
    requires 0 < fs.bpc && start <= end <= TWO64
    ensures start <= p <= end
  {
    if k == 0 then start
    else
      var p := Position(fs, recs, start, end, k - 1);
      if p == end then end else p + Least(RunLength(fs, recs, p), end - p)
  }

  function Least(a: nat, b: nat): nat {
    if a < b then a else b
  }

  ghost predicate AtEnd(fs: Fs, recs: seq<ExtentRec>, start: nat, end: nat, k: nat)
    requires 0 < fs.bpc && start <= end <= TWO64
  {
    Position(fs, recs, start, end, k) == end
  }

  /** The loop comes to a block from which it does not advance. */
  ghost predicate StallsAt(fs: Fs, recs: seq<ExtentRec>, start: nat, end: nat, k: nat)
    requires 0 < fs.bpc && start <= end <= TWO64
  {
    var p := Position(fs, recs, start, end, k);
    p < end && Lookup(fs, recs, BlocksToClusters(fs, p)) == None && p % fs.bpc == 0 && NoLength(fs, recs, p)
  }

  lemma {:induction false} StaysStalled(fs: Fs, recs: seq<ExtentRec>, start: nat, end: nat, k: nat, n: nat)
    requires ClusterSize(fs.bpc) && start <= end <= TWO64 && StallsAt(fs, recs, start, end, k)
    ensures !AtEnd(fs, recs, start, end, n)
    ensures k <= n ==> Position(fs, recs, start, end, n) == Position(fs, recs, start, end, k)
    decreases n + k
  {
    RunEmpty(fs, recs, Position(fs, recs, start, end, k));
    if k < n {
      StaysStalled(fs, recs, start, end, k, n - 1);
    } else if n < k {
      NotBefore(fs, recs, start, end, n, k);
    }
  }

  /** The end is not left again. */
  lemma {:induction false} NotBefore(fs: Fs, recs: seq<ExtentRec>, start: nat, end: nat, n: nat, k: nat)
    requires 0 < fs.bpc && start <= end <= TWO64 && n <= k
    ensures AtEnd(fs, recs, start, end, n) ==> AtEnd(fs, recs, start, end, k)
    decreases k
  {
    if n < k {
      NotBefore(fs, recs, start, end, n, k - 1);
    }
  }

  lemma {:induction false} Advances(fs: Fs, recs: seq<ExtentRec>, start: nat, end: nat, k: nat)
    requires ClusterSize(fs.bpc) && start <= end <= TWO64 && k <= end - start
    requires forall n: nat :: !StallsAt(fs, recs, start, end, n)
    ensures start + k <= Position(fs, recs, start, end, k)
  {
    if k > 0 {
      Advances(fs, recs, start, end, k - 1);
      var p := Position(fs, recs, start, end, k - 1);
      if p < end {
        assert !StallsAt(fs, recs, start, end, k - 1);
        RunEmpty(fs, recs, p);
      }
    }
  }

  /** The loop of a read ends if and only if it never comes to the start of a cluster that
      is a multiple of 2^32 blocks before the end of its hole. */
  lemma ReadEnds(fs: Fs, recs: seq<ExtentRec>, start: nat, end: nat)
    requires ClusterSize(fs.bpc) && start <= end <= TWO64
    ensures (exists k: nat :: AtEnd(fs, recs, start, end, k)) <==> forall k: nat :: !StallsAt(fs, recs, start, end, k)
  {
    if k: nat :| StallsAt(fs, recs, start, end, k) {
      forall n: nat ensures !AtEnd(fs, recs, start, end, n) {
        StaysStalled(fs, recs, start, end, k, n);
      }
    } else {
      Advances(fs, recs, start, end, end - start);
      assert AtEnd(fs, recs, start, end, end - start);
    }
  }

  /** Every lookup of a read of these blocks is right. */
  ghost predicate AllFine(fs: Fs, root_el: ExtentList, start: nat, end: nat)
    requires 0 < fs.bpc && start <= end <= TWO64
  {
    forall k: nat ::
      var p := Position(fs, Leaves(fs, root_el), start, end, k);
      p < end ==> Fine(fs, root_el, p)
  }

  /** So it is in a tree within 32 bits, for a read that ends below the last cluster of
      the range. */
  lemma FineWithin(fs: Fs, root_el: ExtentList, hi: nat, start: nat, end: nat)
    requires ClusterSize(fs.bpc) && FileTree(fs, root_el, hi) && Within32(fs, Leaves(fs, root_el), hi)
    requires start <= end && end + fs.bpc <= TWO32
    ensures AllFine(fs, root_el, start, end)
  {
    forall b | start <= b < end ensures Fine(fs, root_el, b) {
      FineBelow(fs, root_el, hi, b);
    }
  }

  lemma FineBelow(fs: Fs, root_el: ExtentList, hi: nat, b: nat)
    requires ClusterSize(fs.bpc) && FileTree(fs, root_el, hi) && Within32(fs, Leaves(fs, root_el), hi)
    requires b + fs.bpc < TWO32
    ensures Fine(fs, root_el, b)
  {
    var recs, c := Leaves(fs, root_el), BlocksToClusters(fs, b);
    SmallerUnit(fs, b);
    WholeTree(fs, root_el, hi, c);
    LeavesSorted(fs, root_el, 0, hi);
    LookupSome(fs, recs, c);
    if Lookup(fs, recs, c).Some? {
      AddrBelow(fs, Lookup(fs, recs, c).value, b);
    } else {
      HoleCount(fs, recs, hi, b);
      HoleCountZero(fs, recs, b);
      HoleCountExact(fs, recs, hi, b);
    }
  }

  // ---- cmfs_file_read ----

  /** `cmfs_read_blocks`, through the cache. */
  method ReadBlocks(ch: UnixIo.IoChannel, p_blkno: nat, count: nat, k: nat)
    returns (ret: Errcode, data: seq<byte>, k': nat)
    requires UnixIo.ChannelOk(ch) && 0 < count && p_blkno + count <= UINT64_MAX
    modifies ch.io_cache, ch.io_cache.Repr
    ensures UnixIo.ChannelOk(ch) && (ret == Ok || ret == Io)
    ensures ret == Ok ==> p_blkno + count <= |ch.blocks| && data == DiskImage.Flat(ch.blocks, p_blkno, count)
    ensures k <= k' && (ret == Ok <==> UnixIo.AllGood(ch.io_sys, k, k') && UnixIo.OnDisk(|ch.blocks|, p_blkno, count))
  {
    var err;
    ghost var done;
    err, data, done, k' := UnixIo.IoCacheReadBlock(ch, p_blkno, count, false, k);
    ret := if err == UnixIo.Ok then Ok else Io;
  }

  /** The blocks from `b` on that hold data have their device blocks on the device. */
  ghost predicate DataOnDevice(fs: Fs, recs: seq<ExtentRec>, size: nat, b: nat, n: nat)
    requires 0 < fs.bpc
  {
    forall x :: b <= x < b + n ==>
      var found := Lookup(fs, recs, BlocksToClusters(fs, x));
      found.Some? && !Unwritten(found.value.e_flags) ==> PhysBlock(fs, recs, x) < size
  }

  lemma RowOnDevice(fs: Fs, recs: seq<ExtentRec>, size: nat, b: nat, p: nat, n: nat)
    requires 0 < fs.bpc && DataRow(fs, recs, b, p, n) && 0 < n
    ensures DataOnDevice(fs, recs, size, b, n) <==> p + n <= size
  {
    assert b <= b + n - 1 < b + n;
    assert PhysBlock(fs, recs, b + n - 1) == p + (n - 1);
  }

  /** A read succeeds exactly if every call on the device moved something, and its data is
      on the device. */
  ghost predicate Delivers(sys: nat -> int, fs: Fs, recs: seq<ExtentRec>, size: nat, b: nat, n: nat, k: nat, k': nat,
                           ok: bool)
    requires 0 < fs.bpc
  {
    k <= k' && (ok <==> UnixIo.AllGood(sys, k, k') && DataOnDevice(fs, recs, size, b, n))
  }

  lemma DataParts(fs: Fs, recs: seq<ExtentRec>, size: nat, b: nat, m: nat, v: nat, n: nat, sum: nat)
    requires 0 < fs.bpc && v == b + m && m + n <= sum
    ensures DataOnDevice(fs, recs, size, b, sum) ==> DataOnDevice(fs, recs, size, v, n)
    ensures sum == m + n && DataOnDevice(fs, recs, size, b, m) && DataOnDevice(fs, recs, size, v, n) ==>
      DataOnDevice(fs, recs, size, b, sum)
  {
  }

  /** What a read delivers after another one; a failure is that of the whole. */
  lemma DeliversMore(sys: nat -> int, fs: Fs, recs: seq<ExtentRec>, size: nat, b: nat, m: nat, v: nat, n: nat, sum: nat,
                     k: nat, k1: nat, k2: nat, ok: bool)
    requires 0 < fs.bpc && v == b + m && (if ok then sum == m + n else m + n <= sum)
    requires Delivers(sys, fs, recs, size, b, m, k, k1, true) && Delivers(sys, fs, recs, size, v, n, k1, k2, ok)
    ensures Delivers(sys, fs, recs, size, b, sum, k, k2, ok)
  {
    DataParts(fs, recs, size, b, m, v, n, sum);
    assert UnixIo.AllGood(sys, k, k2) <==> UnixIo.AllGood(sys, k1, k2);
  }

  /** The channel is in order; see `OpenChannel`. */
  ghost predicate Ready(ch: UnixIo.IoChannel)
    reads ch, ch.io_cache, ch.io_cache.ic_lookup, RbShape.Nodes(ch.io_cache.ic_lookup.tree)
    reads ch.io_cache.ic_metadata_buffer, ch.io_cache.ic_lru, ch.io_cache.lru
  {
    forall n: nat {:trigger UnixIo.ChannelBut(ch, n, n)} :: n == 0 ==> UnixIo.Cut(ch) && UnixIo.ChannelBut(ch, n, n)
  }

  lemma OpenChannel(ch: UnixIo.IoChannel)
    requires Ready(ch)
    ensures UnixIo.ChannelOk(ch)
  {
    assert UnixIo.ChannelBut(ch, 0, 0);
  }

  /** All that is asked of the tree of a file; see `Open`. */
  ghost predicate SoundTree(fs: Fs, root_el: ExtentList, hi: nat) {
    && 0 < fs.bpc
    && forall h {:trigger FileTree(fs, root_el, h)} :: h == hi ==>
         ClusterSize(fs.bpc) && FileTree(fs, root_el, h) && GoodLinks(fs, root_el, h)
  }

  lemma Open(fs: Fs, root_el: ExtentList, hi: nat)
    requires SoundTree(fs, root_el, hi)
    ensures ClusterSize(fs.bpc) && FileTree(fs, root_el, hi) && GoodLinks(fs, root_el, hi)
  {
  }

  /** The body of the loop: at least one block, at most `wanted_blocks`. */
  method ReadRun(fs: Fs, ch: UnixIo.IoChannel, root_el: ExtentList, i_blkno: nat, v_blkno: uint64, wanted_blocks: nat,
                 k: nat, ghost hi: nat)
    returns (ret: Errcode, contig_blocks: nat, data: seq<byte>, k': nat)
    requires Ready(ch) && SoundTree(fs, root_el, hi) && Fine(fs, root_el, v_blkno) && 0 < wanted_blocks < TWO32
    modifies ch.io_cache, ch.io_cache.Repr
    ensures Ready(ch) && (ret == Ok || ret == Io)
    ensures 0 < contig_blocks == Least(RunLength(fs, Leaves(fs, root_el), v_blkno), wanted_blocks)
    ensures ch.blocks == old(ch.blocks)
    ensures Delivers(ch.io_sys, fs, Leaves(fs, root_el), |ch.blocks|, v_blkno, contig_blocks, k, k', ret == Ok)
    ensures ret == Ok ==> data == Contents(fs, ch.blocks, ch.io_blksize, Leaves(fs, root_el), v_blkno, contig_blocks)
  {
    Open(fs, root_el, hi);
    OpenChannel(ch);
    CacheOps.CacheOpen(ch.io_cache);
    ghost var recs := Leaves(fs, root_el);
    var p_blkno, flags;
    ret, p_blkno, contig_blocks, flags := NextRun(fs, root_el, i_blkno, v_blkno, hi);
    k' := k;
    if contig_blocks > wanted_blocks {
      contig_blocks := wanted_blocks;
    }
    if p_blkno == 0 || Unwritten(flags) {
      data := Zeros(Times(contig_blocks, ch.io_blksize));
      ZeroRun(fs, ch.blocks, ch.io_blksize, recs, v_blkno, contig_blocks);
    } else {
      RowOnDevice(fs, recs, |ch.blocks|, v_blkno, p_blkno, contig_blocks);
      ret, data, k' := ReadBlocks(ch, p_blkno, contig_blocks, k);
      if ret == Ok {
        DataRun(fs, ch.blocks, ch.io_blksize, recs, v_blkno, p_blkno, contig_blocks);
      }
    }
  }

  /** The number of blocks that hold `size` bytes. */
  function BlocksFor(size: nat, bs: nat): nat
    requires 0 < bs
  {
    (size + bs - 1) / bs
  }

  lemma BlocksForSize(size: nat, bs: nat, n: nat)
    requires 0 < bs
    ensures n < BlocksFor(size, bs) <==> Times(n, bs) < size
  {
    InCluster(bs, size + bs - 1, n + 1);
    Add(bs, n, 1);
    assert Times(1, bs) == bs;
  }

  /** What a read has done after `done` of `total` blocks: their bytes, and how many of them
      lie in the file, which is cut at its end with the last one. */
  ghost predicate SoFar(fs: Fs, blocks: seq<seq<byte>>, bs: nat, recs: seq<ExtentRec>, start: nat, total: nat,
                        offset: nat, i_size: nat, done: nat, buf: seq<byte>, got: nat)
    requires 0 < fs.bpc
  {
    && buf == Contents(fs, blocks, bs, recs, start, done)
    && got == GotSoFar(bs, total, offset, i_size, done)
  }

  function GotSoFar(bs: nat, total: nat, offset: nat, i_size: nat, done: nat): nat {
    if done == total then Clipped(Times(total, bs), offset, i_size) else Times(done, bs)
  }

  lemma NothingRead(fs: Fs, blocks: seq<seq<byte>>, bs: nat, recs: seq<ExtentRec>, start: nat, total: nat, offset: nat,
                    i_size: nat)
    requires 0 < fs.bpc && offset < i_size
    ensures SoFar(fs, blocks, bs, recs, start, total, offset, i_size, 0, [], 0)
  {
    assert Times(0, bs) == 0;
  }

  /** The bytes got after a round; after the last one they are cut at the end of the file. */
  function NextGot(got: nat, bytes: nat, last: bool, offset: nat, i_size: nat): nat
    requires offset < i_size
  {
    if last && got + bytes + offset > i_size then i_size - offset else got + bytes
  }

  lemma ReadMore(fs: Fs, blocks: seq<seq<byte>>, bs: nat, recs: seq<ExtentRec>, start: nat, total: nat,
                 offset: nat, i_size: nat, left: nat, left': nat, v: nat, buf: seq<byte>, got: nat,
                 n: nat, data: seq<byte>)
    requires 0 < fs.bpc && offset < i_size && left' < left <= total && v == start + total - left && n == left - left'
    requires SoFar(fs, blocks, bs, recs, start, total, offset, i_size, total - left, buf, got)
    requires data == Contents(fs, blocks, bs, recs, v, n)
    ensures SoFar(fs, blocks, bs, recs, start, total, offset, i_size, total - left', buf + data,
                  NextGot(got, Times(n, bs), left' == 0, offset, i_size))
  {
    ContentsSplit(fs, blocks, bs, recs, start, total - left, n);
    Add(bs, total - left, n);
  }

  // ---- the buffer, byte by byte ----

  /** File block `x` is in the extent `rec`. */
  predicate Holds(fs: Fs, rec: ExtentRec, x: nat) {
    rec.e_cpos * fs.bpc <= x < rec.e_cpos * fs.bpc + rec.e_leaf_blocks
  }

  /** Byte `k` of file block `x`: that of the device block behind it, if an extent maps the
      block that is not marked unwritten, and zero if there is none. */
  ghost predicate ByteAt(fs: Fs, recs: seq<ExtentRec>, disk: seq<byte>, bs: nat, x: nat, k: nat, value: byte) {
    && (forall rec :: rec in recs && Holds(fs, rec, x) && rec.e_flags % 2 == 0 ==>
          var at := Times(rec.e_blkno + (x - rec.e_cpos * fs.bpc), bs) + k;
          at < |disk| && value == disk[at])
    && ((forall rec :: rec in recs && Holds(fs, rec, x) ==> rec.e_flags % 2 == 1) ==> value == 0)
  }

  ghost predicate BlockBytes(fs: Fs, recs: seq<ExtentRec>, disk: seq<byte>, bs: nat, x: nat, block: seq<byte>) {
    |block| == bs && forall k :: 0 <= k < bs ==> ByteAt(fs, recs, disk, bs, x, k, block[k])
  }

  /** The place of block `x` in the buffer holds it. */
  ghost predicate Stretch(fs: Fs, recs: seq<ExtentRec>, disk: seq<byte>, bs: nat, start: nat, x: nat, buf: seq<byte>)
    requires start <= x
  {
    var at := Times(x - start, bs);
    at + bs <= |buf| && BlockBytes(fs, recs, disk, bs, x, buf[at..at + bs])
  }

  /** The buffer holds the `n` file blocks from `start` on. */
  ghost predicate FileBytes(fs: Fs, recs: seq<ExtentRec>, disk: seq<byte>, bs: nat, start: nat, n: nat,
                            buf: seq<byte>) {
    |buf| == Times(n, bs) && forall x :: start <= x < start + n ==> Stretch(fs, recs, disk, bs, start, x, buf)
  }

  lemma MapsBlock(fs: Fs, rec: ExtentRec, x: nat)
    requires 0 < fs.bpc && LeafRecOk(fs, rec)
    ensures Holds(fs, rec, x) <==> Covers(fs, 0, rec, BlocksToClusters(fs, x))
  {
    DivMod(rec.e_leaf_blocks, fs.bpc);
    Add(fs.bpc, rec.e_cpos, RecClusters(fs, 0, rec));
    InCluster(fs.bpc, x, rec.e_cpos);
    InCluster(fs.bpc, x, End(fs, 0, rec));
    assert Times(rec.e_cpos, fs.bpc) == rec.e_cpos * fs.bpc;
  }

  /** At most one extent maps a block. */
  lemma TheExtent(fs: Fs, recs: seq<ExtentRec>, hi: nat, x: nat, rec: ExtentRec)
    requires 0 < fs.bpc && Sorted(fs, 0, recs, 0, hi) && rec in recs && LeafRecOk(fs, rec) && Holds(fs, rec, x)
    ensures Lookup(fs, recs, BlocksToClusters(fs, x)) == Some(rec)
    ensures PhysBlock(fs, recs, x) == rec.e_blkno + (x - rec.e_cpos * fs.bpc)
  {
    MapsBlock(fs, rec, x);
    StillFound(fs, recs, hi, rec, BlocksToClusters(fs, x));
    assert Times(rec.e_cpos, fs.bpc) == rec.e_cpos * fs.bpc;
  }

  lemma BlockByte(disk: seq<byte>, bs: nat, p: nat, k: nat)
    requires 0 < bs && p < |DiskImage.Blocks(disk, bs)| && k < bs
    ensures |DiskImage.Blocks(disk, bs)[p]| == bs
    ensures Times(p, bs) + k < |disk| && DiskImage.Blocks(disk, bs)[p][k] == disk[Times(p, bs) + k]
  {
    assert DiskImage.Fits(disk, bs, p) && DiskImage.Blocks(disk, bs)[p] == DiskImage.BlockAt(disk, bs, p);
    SliceAt(disk, DiskImage.Pos(bs, p), bs, k);
  }

  lemma SliceAt(s: seq<byte>, at: nat, n: nat, k: nat)
    requires at + n <= |s| && k < n
    ensures s[at..at + n][k] == s[at + k]
  {
  }

  /** What a block of the abstract file holds. */
  lemma FileBlockBytes(fs: Fs, disk: seq<byte>, bs: nat, recs: seq<ExtentRec>, hi: nat, x: nat)
    requires 0 < fs.bpc && 0 < bs && Sorted(fs, 0, recs, 0, hi)
    requires forall i :: 0 <= i < |recs| ==> LeafRecOk(fs, recs[i])
    requires DataOnDevice(fs, recs, |DiskImage.Blocks(disk, bs)|, x, 1)
    ensures BlockBytes(fs, recs, disk, bs, x, FileBlock(fs, DiskImage.Blocks(disk, bs), bs, recs, x))
  {
    var found, block := Lookup(fs, recs, BlocksToClusters(fs, x)),
        FileBlock(fs, DiskImage.Blocks(disk, bs), bs, recs, x);
    assert x <= x < x + 1;
    forall rec | rec in recs && Holds(fs, rec, x)
      ensures found == Some(rec) && PhysBlock(fs, recs, x) == rec.e_blkno + (x - rec.e_cpos * fs.bpc)
    {
      TheExtent(fs, recs, hi, x, rec);
    }
    if found.Some? {
      LookupSome(fs, recs, BlocksToClusters(fs, x));
      MapsBlock(fs, found.value, x);
    }
    forall k | 0 <= k < bs ensures ByteAt(fs, recs, disk, bs, x, k, block[k]) {
      if found.Some? && !Unwritten(found.value.e_flags) {
        BlockByte(disk, bs, PhysBlock(fs, recs, x), k);
      }
    }
  }

  lemma FileBlockSize(fs: Fs, disk: seq<byte>, bs: nat, recs: seq<ExtentRec>, x: nat)
    requires 0 < fs.bpc && 0 < bs
    ensures |FileBlock(fs, DiskImage.Blocks(disk, bs), bs, recs, x)| == bs
  {
  }

  lemma {:induction false} ContentsSize(fs: Fs, disk: seq<byte>, bs: nat, recs: seq<ExtentRec>, b: nat, n: nat)
    requires 0 < fs.bpc && 0 < bs
    ensures |Contents(fs, DiskImage.Blocks(disk, bs), bs, recs, b, n)| == Times(n, bs)
    decreases n
  {
    if n == 0 {
      assert Times(0, bs) == 0;
    } else {
      FileBlockSize(fs, disk, bs, recs, b);
      ContentsSize(fs, disk, bs, recs, b + 1, n - 1);
      Add(bs, 1, n - 1);
      assert Times(1, bs) == bs;
    }
  }

  /** Where block `x` stands in the contents. */
  lemma {:induction false} ContentsAt(fs: Fs, disk: seq<byte>, bs: nat, recs: seq<ExtentRec>, b: nat, n: nat, x: nat)
    returns (before: seq<byte>, block: seq<byte>, after: seq<byte>)
    requires 0 < fs.bpc && 0 < bs && b <= x < b + n
    ensures |before| == Times(x - b, bs) && block == FileBlock(fs, DiskImage.Blocks(disk, bs), bs, recs, x)
    ensures Contents(fs, DiskImage.Blocks(disk, bs), bs, recs, b, n) == before + (block + after)
    decreases n
  {
    var blocks := DiskImage.Blocks(disk, bs);
    var first := FileBlock(fs, blocks, bs, recs, b);
    if x == b {
      before, block, after := [], first, Contents(fs, blocks, bs, recs, b + 1, n - 1);
      assert Times(0, bs) == 0;
      assert [] + (block + after) == block + after;
    } else {
      before, block, after := ContentsAt(fs, disk, bs, recs, b + 1, n - 1, x);
      FileBlockSize(fs, disk, bs, recs, b);
      OneMore(bs, x - b);
      assert first + (before + (block + after)) == first + before + (block + after);
      before := first + before;
    }
  }

  lemma OneMore(bs: nat, m: nat)
    requires 0 < m
    ensures Times(m, bs) == bs + Times(m - 1, bs)
  {
    Add(bs, 1, m - 1);
    assert Times(1, bs) == bs;
  }

  /** So its place holds it. */
  lemma StretchHolds(fs: Fs, disk: seq<byte>, bs: nat, recs: seq<ExtentRec>, hi: nat, b: nat, n: nat, x: nat)
    requires 0 < fs.bpc && 0 < bs && Sorted(fs, 0, recs, 0, hi) && b <= x < b + n
    requires forall i :: 0 <= i < |recs| ==> LeafRecOk(fs, recs[i])
    requires DataOnDevice(fs, recs, |DiskImage.Blocks(disk, bs)|, x, 1)
    ensures Stretch(fs, recs, disk, bs, b, x, Contents(fs, DiskImage.Blocks(disk, bs), bs, recs, b, n))
  {
    var before, block, after := ContentsAt(fs, disk, bs, recs, b, n, x);
    FileBlockBytes(fs, disk, bs, recs, hi, x);
    StretchIs(fs, disk, bs, recs, b, x, before, block, after);
  }

  lemma StretchIs(fs: Fs, disk: seq<byte>, bs: nat, recs: seq<ExtentRec>, b: nat, x: nat,
                  before: seq<byte>, block: seq<byte>, after: seq<byte>)
    requires b <= x && |before| == Times(x - b, bs) && BlockBytes(fs, recs, disk, bs, x, block)
    ensures Stretch(fs, recs, disk, bs, b, x, before + (block + after))
  {
    Middle(before, block, after);
  }

  lemma Middle(a: seq<byte>, b: seq<byte>, c: seq<byte>)
    ensures (a + (b + c))[|a|..|a| + |b|] == b
  {
  }

  /** The contents are the bytes of the file. */
  lemma ContentsBytes(fs: Fs, disk: seq<byte>, bs: nat, recs: seq<ExtentRec>, hi: nat, b: nat, n: nat)
    requires 0 < fs.bpc && 0 < bs && Sorted(fs, 0, recs, 0, hi)
    requires forall i :: 0 <= i < |recs| ==> LeafRecOk(fs, recs[i])
    requires DataOnDevice(fs, recs, |DiskImage.Blocks(disk, bs)|, b, n)
    ensures FileBytes(fs, recs, disk, bs, b, n, Contents(fs, DiskImage.Blocks(disk, bs), bs, recs, b, n))
  {
    var buf := Contents(fs, DiskImage.Blocks(disk, bs), bs, recs, b, n);
    ContentsSize(fs, disk, bs, recs, b, n);
    forall x | b <= x < b + n ensures Stretch(fs, recs, disk, bs, b, x, buf) {
      StretchHolds(fs, disk, bs, recs, hi, b, n, x);
    }
  }

  /** `cmfs_file_read`: the abstract file block by block, and the number of bytes
      of it that lie in the file. As long as the lookups are right the only failures are
      a misaligned request and the device. The size in blocks is computed in 64 bits. */
  method CmfsFileRead(fs: Fs, ch: UnixIo.IoChannel, root_el: ExtentList, i_blkno: nat, i_size: uint64,
                      aligned: bool, count: uint32, offset: uint64, t: nat, ghost hi: nat)
    returns (ret: Errcode, buf: seq<byte>, got: nat, t': nat)
    requires UnixIo.ChannelOk(ch) && ClusterSize(fs.bpc) && FileTree(fs, root_el, hi) && GoodLinks(fs, root_el, hi)
    requires var start := BlocksToFile(offset, ch.io_blksize);
      var end := start + WantedBlocks(count, offset, i_size, ch.io_blksize);
      end <= TWO64 && AllFine(fs, root_el, start, end)
    modifies ch.io_cache, ch.io_cache.Repr
    ensures UnixIo.ChannelOk(ch)
    ensures ret == InvalidArgument <==> !aligned || count % ch.io_blksize != 0 || offset % ch.io_blksize != 0
    ensures ret == Ok || ret == InvalidArgument || ret == Io
    ensures ret != InvalidArgument ==>
      Delivers(ch.io_sys, fs, Leaves(fs, root_el), |ch.blocks|, BlocksToFile(offset, ch.io_blksize),
               WantedBlocks(count, offset, i_size, ch.io_blksize), t, t', ret == Ok)
    ensures ret == Ok ==>
      FileBytes(fs, Leaves(fs, root_el), ch.disk, ch.io_blksize, BlocksToFile(offset, ch.io_blksize),
                WantedBlocks(count, offset, i_size, ch.io_blksize), buf)
    ensures ret == Ok ==>
      && got == (if offset >= i_size || i_size + ch.io_blksize > TWO64 then 0
                 else if count < i_size - offset then count else i_size - offset)
      && buf == Contents(fs, ch.blocks, ch.io_blksize, Leaves(fs, root_el), BlocksToFile(offset, ch.io_blksize),
                         WantedBlocks(count, offset, i_size, ch.io_blksize))
  {
    buf, got, ret, t' := [], 0, Ok, t;
    var bs := ch.io_blksize;
    if !aligned || count % bs != 0 || offset % bs != 0 {
      return InvalidArgument, [], 0, t;
    }
    var wanted_blocks, v_blkno := BlocksToFile(count, bs), BlocksToFile(offset, bs);
    var num_blocks := NumBlocks(i_size, bs);
    GotBytes(count, offset, i_size, bs);
    WantedFits(count, offset, i_size, bs);
    if v_blkno >= num_blocks {
      LeavesSorted(fs, root_el, 0, hi);
      ContentsBytes(fs, ch.disk, bs, Leaves(fs, root_el), hi, v_blkno, 0);
      return;
    }
    if v_blkno + wanted_blocks > num_blocks {
      wanted_blocks := num_blocks - v_blkno;
    }
    ret, buf, got, t' := ReadWanted(fs, ch, root_el, i_blkno, i_size, v_blkno, wanted_blocks, offset, t, hi);
  }

  /** The loop of `cmfs_file_read`, and what the buffer holds after it. */
  method ReadWanted(fs: Fs, ch: UnixIo.IoChannel, root_el: ExtentList, i_blkno: nat, i_size: nat, start: nat,
                    total: nat, offset: nat, t: nat, ghost hi: nat)
    returns (ret: Errcode, buf: seq<byte>, got: nat, t': nat)
    requires UnixIo.ChannelOk(ch) && SoundTree(fs, root_el, hi) && offset < i_size && total < TWO32
    requires start + total <= TWO64 && AllFine(fs, root_el, start, start + total)
    modifies ch.io_cache, ch.io_cache.Repr
    ensures UnixIo.ChannelOk(ch) && (ret == Ok || ret == Io)
    ensures Delivers(ch.io_sys, fs, Leaves(fs, root_el), |ch.blocks|, start, total, t, t', ret == Ok)
    ensures ret == Ok ==>
      && buf == Contents(fs, ch.blocks, ch.io_blksize, Leaves(fs, root_el), start, total)
      && FileBytes(fs, Leaves(fs, root_el), ch.disk, ch.io_blksize, start, total, buf)
      && got == Clipped(Times(total, ch.io_blksize), offset, i_size)
  {
    ret, buf, got, t' := ReadRuns(fs, ch, root_el, i_blkno, i_size, start, total, offset, t, hi);
    OpenChannel(ch);
    if ret == Ok {
      Open(fs, root_el, hi);
      LeavesSorted(fs, root_el, 0, hi);
      ContentsBytes(fs, ch.disk, ch.io_blksize, Leaves(fs, root_el), hi, start, total);
    }
  }

  lemma NextPosition(fs: Fs, recs: seq<ExtentRec>, start: nat, end: nat, k: nat)
    requires 0 < fs.bpc && start <= end <= TWO64
    ensures var p := Position(fs, recs, start, end, k);
      p < end ==> Position(fs, recs, start, end, k + 1) == p + Least(RunLength(fs, recs, p), end - p)
  {
  }

  /** One round of the loop of `cmfs_file_read`. */
  method ReadRound(fs: Fs, ch: UnixIo.IoChannel, root_el: ExtentList, i_blkno: nat, i_size: nat, offset: nat,
                   buf: seq<byte>, got: nat, wanted_blocks: nat, v_blkno: nat, t: nat,
                   ghost hi: nat, ghost blocks: seq<seq<byte>>, ghost bs: nat, ghost recs: seq<ExtentRec>,
                   ghost start: nat, ghost total: nat, ghost k: nat)
    returns (ret: Errcode, buf': seq<byte>, got': nat, wanted_blocks': nat, v_blkno': nat, t': nat, ghost n: nat)
    requires Ready(ch) && SoundTree(fs, root_el, hi) && recs == Leaves(fs, root_el)
    requires offset < i_size && total < TWO32 && start + total <= TWO64 && AllFine(fs, root_el, start, start + total)
    requires 0 < wanted_blocks <= total && v_blkno == start + total - wanted_blocks
    requires v_blkno == Position(fs, recs, start, start + total, k)
    requires ch.blocks == blocks && ch.io_blksize == bs
    requires SoFar(fs, blocks, bs, recs, start, total, offset, i_size, total - wanted_blocks, buf, got)
    modifies ch.io_cache, ch.io_cache.Repr
    ensures Ready(ch) && ch.blocks == blocks && (ret == Ok || ret == Io)
    ensures ret == Ok ==>
      && wanted_blocks' < wanted_blocks && v_blkno' == start + total - wanted_blocks'
      && v_blkno' == Position(fs, recs, start, start + total, k + 1)
      && SoFar(fs, blocks, bs, recs, start, total, offset, i_size, total - wanted_blocks', buf', got')
    ensures n <= wanted_blocks && Delivers(ch.io_sys, fs, recs, |blocks|, v_blkno, n, t, t', ret == Ok)
    ensures ret == Ok ==> n == wanted_blocks - wanted_blocks'
  {
    buf', got', wanted_blocks', v_blkno' := buf, got, wanted_blocks, v_blkno;
    var contig_blocks, data;
    ret, contig_blocks, data, t' := ReadRun(fs, ch, root_el, i_blkno, v_blkno, wanted_blocks, t, hi);
    n := contig_blocks;
    if ret != Ok {
      return;
    }
    NextPosition(fs, recs, start, start + total, k);
    wanted_blocks', v_blkno' := wanted_blocks - contig_blocks, v_blkno + contig_blocks;
    buf', got' := buf + data, NextGot(got, Times(contig_blocks, ch.io_blksize), wanted_blocks' == 0, offset, i_size);
    ReadMore(fs, blocks, bs, recs, start, total, offset, i_size, wanted_blocks, wanted_blocks', v_blkno,
             buf, got, contig_blocks, data);
  }

  /** The loop of `cmfs_file_read`. */
  method ReadRuns(fs: Fs, ch: UnixIo.IoChannel, root_el: ExtentList, i_blkno: nat, i_size: nat, start: nat, total: nat,
                  offset: nat, t: nat, ghost hi: nat)
    returns (ret: Errcode, buf: seq<byte>, got: nat, t': nat)
    requires Ready(ch) && SoundTree(fs, root_el, hi) && offset < i_size && total < TWO32
    requires start + total <= TWO64 && AllFine(fs, root_el, start, start + total)
    modifies ch.io_cache, ch.io_cache.Repr
    ensures Ready(ch) && (ret == Ok || ret == Io)
    ensures Delivers(ch.io_sys, fs, Leaves(fs, root_el), |ch.blocks|, start, total, t, t', ret == Ok)
    ensures ret == Ok ==>
      && buf == Contents(fs, ch.blocks, ch.io_blksize, Leaves(fs, root_el), start, total)
      && got == Clipped(Times(total, ch.io_blksize), offset, i_size)
  {
    ghost var recs, blocks, k := Leaves(fs, root_el), ch.blocks, 0;
    var wanted_blocks, v_blkno := total, start;
    buf, got, ret, t' := [], 0, Ok, t;
    NothingRead(fs, blocks, ch.io_blksize, recs, start, total, offset, i_size);
    while wanted_blocks > 0
      invariant ret == Ok && wanted_blocks <= total && v_blkno == start + total - wanted_blocks
      invariant v_blkno == Position(fs, recs, start, start + total, k)
      invariant Ready(ch) && ch.blocks == blocks
      invariant Delivers(ch.io_sys, fs, recs, |blocks|, start, total - wanted_blocks, t, t', true)
      invariant SoFar(fs, blocks, ch.io_blksize, recs, start, total, offset, i_size, total - wanted_blocks, buf, got)
    {
      ghost var n, sofar, at, from := 0, total - wanted_blocks, v_blkno, t';
      ret, buf, got, wanted_blocks, v_blkno, t', n := ReadRound(fs, ch, root_el, i_blkno, i_size, offset, buf, got,
                                                                wanted_blocks, v_blkno, t', hi, blocks, ch.io_blksize,
                                                                recs, start, total, k);
      DeliversMore(ch.io_sys, fs, recs, |blocks|, start, sofar, at, n, if ret == Ok then total - wanted_blocks
        else total,
                   t, from, t', ret == Ok);
      if ret != Ok {
        return;
      }
      k := k + 1;
    }
    ReadDone(fs, blocks, ch.io_blksize, recs, start, total, offset, i_size, buf, got);
  }

  lemma ReadDone(fs: Fs, blocks: seq<seq<byte>>, bs: nat, recs: seq<ExtentRec>, start: nat, total: nat,
                 offset: nat, i_size: nat, buf: seq<byte>, got: nat)
    requires 0 < fs.bpc && SoFar(fs, blocks, bs, recs, start, total, offset, i_size, total, buf, got)
    ensures buf == Contents(fs, blocks, bs, recs, start, total) && got == Clipped(Times(total, bs), offset, i_size)
  {
  }

  function BlocksToFile(bytes: nat, bs: nat): nat
    requires 0 < bs
  {
    bytes / bs
  }

  /** The number of blocks of a file, computed in 64 bits. */
  function NumBlocks(i_size: nat, bs: nat): nat
    requires 0 < bs
  {
    ((i_size + bs - 1) % TWO64) / bs
  }

  lemma SizeFits(i_size: uint64, bs: nat)
    requires 0 < bs
    ensures NumBlocks(i_size, bs) == if i_size + bs > TWO64 then 0 else BlocksFor(i_size, bs)
  {
    if i_size + bs > TWO64 {
      var rest := (i_size + bs - 1) % TWO64;
      assert bs <= TWO64 ==> rest == i_size + bs - 1 - TWO64;
      DivOf(bs, 0, rest);
    }
  }

  /** How many blocks a read wants: what was asked for, up to the end of the file. */
  function WantedBlocks(count: nat, offset: nat, i_size: nat, bs: nat): nat
    requires 0 < bs
  {
    var v, n := BlocksToFile(offset, bs), BlocksToFile(count, bs);
    if v >= NumBlocks(i_size, bs) then 0
    else if v + n > NumBlocks(i_size, bs) then NumBlocks(i_size, bs) - v
    else n
  }

  /** The bytes read, cut at the end of the file. */
  function Clipped(bytes: nat, offset: nat, i_size: nat): nat {
    if bytes + offset > i_size && offset <= i_size then i_size - offset else bytes
  }

  lemma GotBytes(count: nat, offset: nat, i_size: uint64, bs: nat)
    requires 0 < bs && count % bs == 0 && offset % bs == 0
    ensures offset < i_size && i_size + bs <= TWO64 <==> BlocksToFile(offset, bs) < NumBlocks(i_size, bs)
    ensures offset < i_size && i_size + bs <= TWO64 ==>
      Clipped(Times(WantedBlocks(count, offset, i_size, bs), bs), offset, i_size)
      == if count < i_size - offset then count else i_size - offset
  {
    SizeFits(i_size, bs);
    if i_size + bs <= TWO64 {
      GotWhole(count, offset, i_size, bs);
    }
  }

  lemma GotWhole(count: nat, offset: nat, i_size: nat, bs: nat)
    requires 0 < bs && count % bs == 0 && offset % bs == 0 && NumBlocks(i_size, bs) == BlocksFor(i_size, bs)
    ensures offset < i_size <==> BlocksToFile(offset, bs) < NumBlocks(i_size, bs)
    ensures offset < i_size ==>
      Clipped(Times(WantedBlocks(count, offset, i_size, bs), bs), offset, i_size)
      == if count < i_size - offset then count else i_size - offset
  {
    var v, n := BlocksToFile(offset, bs), BlocksToFile(count, bs);
    DivMod(offset, bs);
    DivMod(count, bs);
    BlocksForSize(i_size, bs, v);
    Add(bs, v, n);
    if v < BlocksFor(i_size, bs) {
      var w := WantedBlocks(count, offset, i_size, bs);
      Add(bs, v, w);
      BlocksForSize(i_size, bs, v + w);
      if w < n {
        Order(bs, w, n);
      }
    }
  }

  lemma WantedFits(count: uint32, offset: nat, i_size: nat, bs: nat)
    requires 0 < bs
    ensures WantedBlocks(count, offset, i_size, bs) <= BlocksToFile(count, bs) < TWO32
  {
    DivMod(count, bs);
    Order(bs, BlocksToFile(count, bs), BlocksToFile(count, bs));
  }
}
