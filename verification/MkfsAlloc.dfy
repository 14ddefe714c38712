/** mkfs.c: the cluster bitmap and the inode group of a new volume. */
module MkfsAlloc {
  import opened Common
  import opened BlockCache
  import opened BitOps
  import opened FirstFit
  import opened Units

  /** `cmfs_group_bitmap_size` for the one block size that is accepted, 4096. */
  const GROUP_BITMAP_SIZE := 4032

  const BLOCK_SIZE := 4096

  // ---- how the volume is cut into groups ----

  datatype ClusterGroupSizes = ClusterGroupSizes(cpg: nat, tail_group_bits: nat, cluster_groups: nat)

  /** The bits of group `i`. */
  function GroupBits(cgs: ClusterGroupSizes, i: nat): nat {
    if i == cgs.cluster_groups - 1 then cgs.tail_group_bits else cgs.cpg
  }

  function BitsSum(cgs: ClusterGroupSizes, k: nat): nat {
    if k == 0 then 0 else BitsSum(cgs, k - 1) + GroupBits(cgs, k - 1)
  }

  /** The groups cover the clusters exactly, and each has room for its bits. */
  predicate Partition(cgs: ClusterGroupSizes, clusters: nat) {
    && 0 < cgs.cluster_groups
    && 0 < cgs.tail_group_bits <= cgs.cpg <= 8 * GROUP_BITMAP_SIZE
    && BitsSum(cgs, cgs.cluster_groups) == clusters
    && (cgs.cluster_groups == 1 ==> cgs.tail_group_bits == cgs.cpg)
  }

  lemma {:induction false} BitsSumEven(cgs: ClusterGroupSizes, k: nat)
    requires k < cgs.cluster_groups
    ensures BitsSum(cgs, k) == k * cgs.cpg
    decreases k
  {
    if k > 0 {
      BitsSumEven(cgs, k - 1);
      assert k * cgs.cpg == (k - 1) * cgs.cpg + cgs.cpg;
    }
  }

  lemma RoundUp(a: nat, b: nat)
    requires 0 < a && 0 < b
    ensures var n, r := (a + b - 1) / b, a % b;
      0 < n && a == (n - 1) * b + (if r == 0 then b else r) && r < b
  {
    var q, r := a / b, a % b;
    assert a == q * b + r;
    if r == 0 {
      assert (q * b + (b - 1)) / b == q by { DivOf(b, q, b - 1); }
    } else {
      assert a + b - 1 == (q + 1) * b + (r - 1) by { assert (q + 1) * b == q * b + b; }
      DivOf(b, q + 1, r - 1);
    }
  }

  /** `cmfs_calc_cluster_groups` */
  method CalcClusterGroups(clusters: nat) returns (cgs: ClusterGroupSizes)
    requires 0 < clusters
    ensures Partition(cgs, clusters)
    ensures cgs.cpg == 8 * GROUP_BITMAP_SIZE || (cgs.cpg == clusters < 8 * GROUP_BITMAP_SIZE && cgs.cluster_groups == 1)
  {
    var cpg := 8 * GROUP_BITMAP_SIZE;
    if cpg > clusters {
      cpg := clusters;
    }
    var cluster_groups := (clusters + cpg - 1) / cpg;
    var tail := clusters % cpg;
    RoundUp(clusters, cpg);
    if tail == 0 {
      tail := cpg;
    }
    cgs := ClusterGroupSizes(cpg, tail, cluster_groups);
    BitsSumEven(cgs, cluster_groups - 1);
    if cpg == clusters {
      DivOf(cpg, 1, cpg - 1);
      DivOf(cpg, 1, 0);
    }
  }

  // ---- groups ----

  /** `struct BitInfo` of a system file. */
  class BitInfo {
    var used_bits: nat
    var total_bits: nat

    constructor ()
      ensures used_bits == 0 && total_bits == 0
    {
      used_bits, total_bits := 0, 0;
    }
  }

  /** `AllocGroup` with its group descriptor. */
  class AllocGroup {
    const bg_bitmap: array<byte>
    const bg_bits: nat
    const bg_chain: nat
    const bg_blkno: nat
    var bg_free_bits_count: nat
    var chain_free: nat
    var chain_total: nat
    var next: AllocGroup?
    /** The bits of the group. */
    ghost var bits: seq<bool>

    /** The bitmap holds the bits `s`, and none behind them. */
    ghost predicate Holds(s: seq<bool>)
      reads bg_bitmap
    {
      && bg_bitmap.Length == GROUP_BITMAP_SIZE && bg_bits <= 8 * GROUP_BITMAP_SIZE
      && s == Bits(bg_bitmap[..])[..bg_bits] && NoneIn(Bits(bg_bitmap[..]), true, bg_bits, 8 * GROUP_BITMAP_SIZE)
    }

    /** The bitmap holds the bits of the group, and the clear ones are counted; see `Open`. */
    ghost predicate Ok()
      reads this`bits, this`bg_free_bits_count, bg_bitmap
    {
      forall s {:trigger Holds(s)} :: s == bits ==> Holds(s) && bg_free_bits_count == Clear(s)
    }

    lemma Open()
      requires Ok()
      ensures Holds(bits) && bg_free_bits_count == Clear(bits) <= bg_bits == |bits|
    {
    }

    /** `initialize_alloc_group` */
    constructor (nbits: nat, blkno: nat, chain: nat, bi: BitInfo)
      requires 0 < nbits <= 8 * GROUP_BITMAP_SIZE
      modifies bi
      ensures Ok() && fresh(bg_bitmap) && next == null && chain_free == 0 && chain_total == 0
      ensures bg_bits == nbits && bg_blkno == blkno && bg_chain == chain
      ensures bits == Fresh(nbits) && Packed(bits) && bg_free_bits_count == nbits - 1
      ensures bi.total_bits == old(bi.total_bits) + nbits && bi.used_bits == old(bi.used_bits) + 1
    {
      var bitmap := new byte[GROUP_BITMAP_SIZE](_ => 0);
      bg_bitmap, bg_bits, bg_blkno, bg_chain := bitmap, nbits, blkno, chain;
      chain_free, chain_total, next := 0, 0, null;
      bits := Fresh(nbits);
      bg_free_bits_count := nbits - 1;
      new;
      ZeroMap(bitmap[..]);
      var was := SetBit(0, bg_bitmap);
      bi.total_bits := bi.total_bits + nbits;
      bi.used_bits := bi.used_bits + 1;
      FreshClear(nbits);
    }

    /** Take `n` bits from `start` on: first the count, then each bit. */
    method Take(start: nat, n: nat)
      requires Ok() && RunAt(bits, start, n)
      modifies this`bits, this`bg_free_bits_count, bg_bitmap
      ensures Ok() && bits == Marked(old(bits), start, n) && bg_free_bits_count == old(bg_free_bits_count) - n
    {
      Open();
      MarkedClear(bits, start, n);
      bg_free_bits_count := bg_free_bits_count - n;
      var k := 0;
      while k < n
        invariant k <= n && Holds(bits) && bits == Marked(old(bits), start, k)
        invariant bg_free_bits_count == old(bg_free_bits_count) - n
      {
        var was := SetBit(start + k, bg_bitmap);
        bits := bits[start + k := true];
        k := k + 1;
      }
    }

    /** `alloc_from_group`; the program exits when `ok` is false. */
    method AllocFromGroup(count: nat, bi: BitInfo) returns (ok: bool, start_blkno: nat, num_bits: nat)
      requires Ok() && 0 < count && Settles(bits, count)
      modifies this`bits, this`bg_free_bits_count, bg_bitmap, bi`used_bits
      ensures Ok() && ok == (FirstRun(old(bits), count, 0) != -1)
      ensures !ok ==> bits == old(bits) && bi.used_bits == old(bi.used_bits)
      ensures ok ==>
        && num_bits == count && start_blkno == bg_blkno + FirstRun(old(bits), count, 0)
        && bits == Marked(old(bits), FirstRun(old(bits), count, 0), count) && bi.used_bits == old(bi.used_bits) + count
      ensures Packed(old(bits)) ==> Packed(bits)
    {
      Open();
      ok, start_blkno, num_bits := false, 0, 0;
      var start_bit := FindNextBitClear(bg_bitmap, bg_bits, 0);
      NextSlice(Bits(bg_bitmap[..]), false, bg_bits, 0, start_bit);
      ghost var s := bits;
      if start_bit >= bg_bits {
        AllSet(s, count, 0, 0, 0);
      }
      while start_bit < bg_bits
        invariant Ok() && bits == s && !ok && bi.used_bits == old(bi.used_bits)
        invariant Next(s, false, |s|, 0, start_bit) || FirstRun(s, count, 0) == -1
        invariant start_bit < bg_bits ==> Next(s, false, |s|, 0, start_bit)
        invariant start_bit >= bg_bits ==> FirstRun(s, count, 0) == -1
        decreases bg_bits - start_bit
      {
        Open();
        var end_bit := FindNextBitSet(bg_bitmap, bg_bits, start_bit);
        NextSlice(Bits(bg_bitmap[..]), true, bg_bits, start_bit, end_bit);
        if end_bit - start_bit >= count {
          FirstFits(s, count, start_bit, end_bit);
          if Packed(s) {
            PackedMarked(s, count);
          }
          Take(start_bit, count);
          num_bits := count;
          bi.used_bits := bi.used_bits + num_bits;
          start_blkno := bg_blkno + start_bit;
          ok := true;
          return;
        }
        NoneFits(s, count, start_bit, end_bit);
        start_bit := end_bit;
      }
    }

    /** `alloc_inode` */
    method AllocInode(bi: BitInfo) returns (ok: bool, fe_off: nat, suballoc_bit: nat)
      requires Ok()
      modifies this`bits, this`bg_free_bits_count, bg_bitmap, bi`used_bits
      ensures Ok() && ok == (FirstRun(old(bits), 1, 0) != -1)
      ensures !ok ==> bits == old(bits) && bi.used_bits == old(bi.used_bits)
      ensures ok ==>
        && suballoc_bit == FirstRun(old(bits), 1, 0) && fe_off == (bg_blkno + suballoc_bit) * 4096
        && bits == Marked(old(bits), suballoc_bit, 1) && bi.used_bits == old(bi.used_bits) + 1
      ensures Packed(old(bits)) ==> Packed(bits)
    {
      OneSettles(bits);
      var ret, num;
      ok, ret, num := AllocFromGroup(1, bi);
      fe_off, suballoc_bit := 0, 0;
      if ok {
        suballoc_bit := ret - bg_blkno;
        fe_off := ret * BLOCK_SIZE;
      }
    }
  }

  /** The clear bits at the front are `n` in a row, or the last ones of the group; see
      `EndsExactly`. */
  ghost predicate Settles(s: seq<bool>, n: nat) {
    forall a: nat, b: nat :: a < b < |s| && Next(s, false, |s|, 0, a) && Next(s, true, |s|, a, b) ==> n <= b - a
  }

  lemma OneSettles(s: seq<bool>)
    ensures Settles(s, 1)
  {
  }

  /** A group without gaps, as every group is that only had the lowest bits taken. */
  lemma PackedSettles(s: seq<bool>, n: nat)
    requires Packed(s)
    ensures Settles(s, n)
  {
  }

  // ---- when the search of alloc_from_group ends ----

  datatype Search = At(start: nat) | Found(start: nat) | Full

  /** One round of its loop. */
  function Round(s: seq<bool>, n: nat, w: Search): Search {
    if !w.At? then w
    else if w.start >= |s| then Full
    else
      var end := Scan(s, true, |s|, w.start);
      if end - w.start >= n then Found(w.start) else At(end)
  }

  function Rounds(s: seq<bool>, n: nat, k: nat): Search {
    if k == 0 then At(Scan(s, false, |s|, 0)) else Round(s, n, Rounds(s, n, k - 1))
  }

  predicate Over(s: seq<bool>, n: nat, k: nat) {
    !Rounds(s, n, k).At?
  }

  /** Standing on a set bit, the search goes round for ever. */
  lemma {:induction false} Stuck(s: seq<bool>, n: nat, b: nat, k: nat)
    requires 0 < n && b < |s| && s[b] && Rounds(s, n, 1) == At(b)
    ensures Rounds(s, n, k + 1) == At(b)
  {
    if k > 0 {
      Stuck(s, n, b, k - 1);
    }
  }

  /** The search ends if and only if the first gap is long enough or the last. */
  lemma EndsExactly(s: seq<bool>, n: nat)
    requires 0 < n
    ensures Settles(s, n) <==> exists k: nat :: Over(s, n, k)
  {
    var a := Scan(s, false, |s|, 0);
    NextIsScan(s, false, |s|, 0, a);
    var b := Scan(s, true, |s|, a);
    NextIsScan(s, true, |s|, a, b);
    assert Rounds(s, n, 0) == At(a);
    assert Rounds(s, n, 1) == Round(s, n, At(a));
    if a < b < |s| && b - a < n {
      assert !Settles(s, n);
      forall k: nat ensures !Over(s, n, k) {
        if k > 0 {
          Stuck(s, n, b, k - 1);
        }
      }
    } else {
      SettlesAt(s, n, a, b);
      ScanPast(s, a);
      assert Rounds(s, n, 2) == Round(s, n, Rounds(s, n, 1));
      assert Over(s, n, 2);
    }
  }

  lemma SettlesAt(s: seq<bool>, n: nat, a: nat, b: nat)
    requires a == Scan(s, false, |s|, 0) && b == Scan(s, true, |s|, a) && !(a < b < |s| && b - a < n)
    ensures Settles(s, n)
  {
    forall a': nat, b': nat | a' < b' < |s| && Next(s, false, |s|, 0, a') && Next(s, true, |s|, a', b')
      ensures n <= b' - a'
    {
      NextIsScan(s, false, |s|, 0, a');
      NextIsScan(s, true, |s|, a', b');
    }
  }

  lemma ScanPast(s: seq<bool>, a: nat)
    requires a == Scan(s, false, |s|, 0)
    ensures a <= |s| && a <= Scan(s, true, |s|, a) <= |s| && (a < |s| ==> a < Scan(s, true, |s|, a))
  {
    ScanEnds(s, false, 0);
    ScanEnds(s, true, a);
    NextIsScan(s, false, |s|, 0, a);
    if a < |s| {
      ScanEnds(s, true, a + 1);
    }
  }

  lemma {:induction false} ScanEnds(s: seq<bool>, v: bool, from: nat)
    requires from <= |s|
    ensures from <= Scan(s, v, |s|, from) <= |s|
    decreases |s| - from
  {
    if from < |s| {
      ScanEnds(s, v, from + 1);
    }
  }

  lemma FirstFits(s: seq<bool>, n: nat, start: nat, end: nat)
    requires 0 < n && start < |s| && Next(s, false, |s|, 0, start) && Next(s, true, |s|, start, end) && n <= end - start
    requires end <= |s|
    ensures FirstRun(s, n, 0) == start && RunAt(s, start, n)
  {
    forall k | 0 <= k < start ensures !RunAt(s, k, n) {
      assert s[k];
    }
    FirstRunLeast(s, n, 0, start);
  }

  lemma NoneFits(s: seq<bool>, n: nat, start: nat, end: nat)
    requires 0 < n && start < |s| && Next(s, false, |s|, 0, start) && Next(s, true, |s|, start, end) && end - start < n
    requires Settles(s, n)
    ensures end >= |s| && FirstRun(s, n, 0) == -1
  {
    assert !s[start];
    forall k | 0 <= k < |s| ensures !RunAt(s, k, n) {
      assert k < start ==> s[k];
    }
    FirstRunLeast(s, n, 0, |s|);
  }

  /** The inodes of a new group are handed out one after the other, until it is full. */
  lemma InodesInOrder(nbits: nat, k: nat)
    requires k < nbits
    ensures FirstRun(Marked(Fresh(nbits), 1, k), 1, 0) == if k + 1 < nbits then k + 1 else -1
  {
    var s := Marked(Fresh(nbits), 1, k);
    forall j | 0 <= j < k + 1 ensures !RunAt(s, j, 1) {
      assert s[j];
    }
    FirstRunLeast(s, 1, 0, k + 1);
  }

  /** A group in which only the bit of the descriptor is set. */
  function Fresh(bits: nat): (s: seq<bool>)
    requires 0 < bits
    ensures |s| == bits && forall k :: 0 <= k < bits ==> s[k] == (k == 0)
  {
    seq(bits, k => k == 0)
  }

  lemma FreshClear(bits: nat)
    requires 0 < bits
    ensures Clear(Fresh(bits)) == bits - 1
  {
    AllClear(Fresh(bits), 1);
  }

  lemma {:induction false} SumFront(maps: seq<seq<bool>>, m: seq<bool>, k: nat)
    requires k <= |maps|
    ensures FreeSum(maps + [m], k) == FreeSum(maps, k)
    decreases k
  {
    if k > 0 {
      SumFront(maps, m, k - 1);
    }
  }

  /** What a new group adds to the bits of the groups before it. */
  lemma WithFresh(front: seq<seq<bool>>, nbits: nat)
    requires 0 < nbits && AllPacked(front)
    ensures var maps := front + [Fresh(nbits)];
      AllPacked(maps) && FreeSum(maps, |maps|) == FreeSum(front, |front|) + nbits - 1
  {
    FreshClear(nbits);
    SumFront(front, Fresh(nbits), |front|);
  }

  lemma ZeroMap(b: seq<byte>)
    requires forall i :: 0 <= i < |b| ==> b[i] == 0
    ensures NoneIn(Bits(b), true, 0, |Bits(b)|)
  {
    forall i | 0 <= i < 8 * |b| ensures !Bits(b)[i] {
      ZeroBits(i % 8);
    }
  }

  // ---- the cluster bitmap ----

  function ToUint32(x: int): nat {
    x % 0x1_0000_0000
  }

  lemma LessNothing(x: nat, d: nat)
    ensures ToUint32(x - d) == ToUint32(x) <==> d % 0x1_0000_0000 == 0
  {
  }

  lemma LessTwice(x: int, n: nat)
    ensures ToUint32(ToUint32(x) - n) == ToUint32(x - n)
  {
  }

  /** A group has the bits `m`, and counts them. */
  ghost predicate Counted(g: AllocGroup, m: seq<bool>)
    reads g`bits, g`bg_free_bits_count, g.bg_bitmap
  {
    g.Ok() && g.bits == m
  }

  /** The place of `g`, the `i`-th of the first `n` groups, in its chain, of which there
      are at most `recs`. */
  ghost predicate Linked(g: AllocGroup, groups: seq<AllocGroup>, n: nat, recs: nat, i: nat)
    requires n <= |groups|
    reads g`next
  {
    && g.next == (if i + recs < n then groups[i + recs] else null)
    && 0 < recs && g.bg_chain == ChainHead(i, recs)
  }

  /** The counts of the chain of its first group `g`, the `i`-th, over the groups `ms`: all
      the bits, and the clear ones but for the `debt` that was never counted. */
  ghost predicate ChainCounted(g: AllocGroup, ms: seq<seq<bool>>, recs: nat, i: nat, debt: int)
    requires 0 < recs
    reads g`chain_free, g`chain_total
  {
    i < recs ==>
      g.chain_free == ToUint32(ChainClear(ms, recs, i, |ms|) - debt) && g.chain_total == ChainBits(ms, recs, i, |ms|)
  }

  /** The last group adds all its bits to its chain. */
  lemma LastCounts(front: seq<seq<bool>>, m: seq<bool>, recs: nat, c: nat)
    requires 0 < recs && c == ChainHead(|front|, recs)
    ensures ChainClear(front + [m], recs, c, |front| + 1) == ChainClear(front, recs, c, |front|) + Clear(m)
    ensures ChainBits(front + [m], recs, c, |front| + 1) == ChainBits(front, recs, c, |front|) + |m|
    ensures c == |front| ==> ChainBits(front, recs, c, |front|) == 0
    ensures Clear(m) < 0x1_0000_0000 ==>
      ToUint32(ChainClear(front + [m], recs, c, |front| + 1) - ChainClear(front, recs, c, |front|)) == Clear(m)
  {
    ChainFront(front, recs, m, c, |front|);
    if c == |front| {
      NoneYet(front, recs, c, |front|);
    }
  }

  /** And nothing to any other. */
  lemma OtherCounted(g: AllocGroup, front: seq<seq<bool>>, m: seq<bool>, recs: nat, c: nat, i: nat, debt: int)
    requires 0 < recs && c == ChainHead(|front|, recs) && i != c && i <= |front|
    requires i < |front| ==> ChainCounted(g, front, recs, i, debt)
    ensures ChainCounted(g, front + [m], recs, i, debt)
  {
    ChainFront(front, recs, m, i, |front|);
  }

  /** A range costs its chain as many clear bits, and no other chain any. */
  lemma ChainGrant(maps: seq<seq<bool>>, recs: nat, g: Grant, c: nat)
    requires 0 < recs && Fits(maps, g)
    ensures ChainClear(Apply(maps, g), recs, c, |maps|)
      == ChainClear(maps, recs, c, |maps|) - if ChainHead(g.group, recs) == c then g.count else 0
    ensures ChainBits(Apply(maps, g), recs, c, |maps|) == ChainBits(maps, recs, c, |maps|)
  {
    MarkedClear(maps[g.group], g.start, g.count);
    ChainUpdate(maps, recs, g.group, Marked(maps[g.group], g.start, g.count), c, |maps|);
  }

  /** `AllocBitmap` with its system file record. */
  class AllocBitmap {
    var groups: seq<AllocGroup>
    const bi: BitInfo
    var num_chains: nat
    const unit: nat
    /** `cmfs_chain_recs_per_inode` */
    const recs: nat
    /** The bits of each group. */
    ghost var maps: seq<seq<bool>>

    ghost var Repr: set<object>
    /** Of each chain, the clear bits that its free count was made without. */
    ghost var debt: seq<nat>
    /** The group to which each bitmap belongs. */
    ghost var owner: map<array<byte>, nat>

    /** Groups and their bitmaps are distinct objects. */
    ghost predicate Apart()
      reads this
    {
      && this !in Repr && bi in Repr
      && forall i {:trigger groups[i]} :: 0 <= i < |groups| ==>
           && groups[i] in Repr && groups[i].bg_bitmap in Repr
           && groups[i].bg_bitmap in owner && owner[groups[i].bg_bitmap] == i
    }

    /** Every group holds its bits and counts the clear ones. */
    ghost predicate AllCounted()
      reads this, Repr
    {
      && Apart() && |maps| == |groups|
      && forall i {:trigger Counted(groups[i], maps[i])} :: 0 <= i < |groups| ==> Counted(groups[i], maps[i])
    }

    /** The chains of the first `n` groups. */
    ghost predicate LinkedUpTo(n: nat)
      reads this, Repr
    {
      Apart() && n <= |groups| && forall i {:trigger Linked(groups[i], groups, n, recs, i)} :: 0 <= i < n ==>
        Linked(groups[i], groups, n, recs, i)
    }

    ghost predicate AllLinked()
      reads this, Repr
    {
      Apart() && 0 < recs && LinkedUpTo(|groups|)
    }

    /** The chain counts are those of the groups `ms`, the first ones. */
    ghost predicate ChainsFor(ms: seq<seq<bool>>)
      reads this, Repr
    {
      && Apart() && 0 < recs && |ms| <= |groups| == |debt|
      && forall i {:trigger ChainCounted(groups[i], ms, recs, i, debt[i])} :: 0 <= i < |ms| ==>
           ChainCounted(groups[i], ms, recs, i, debt[i])
    }

    /** Each count is the number of clear bits, there are no gaps, and used and free bits
        make up the total. */
    ghost predicate Balanced()
      reads this, Repr
    {
      && AllCounted() && AllLinked() && ChainsFor(maps) && AllPacked(maps)
      && bi.used_bits + FreeSum(maps, |maps|) == bi.total_bits
    }

    /** `Balanced`, to be opened. */
    ghost predicate Built()
      reads this, Repr
    {
      && this !in Repr && bi in Repr && 0 < recs && |maps| == |groups|
      && forall n {:trigger LinkedUpTo(n)} :: n == |groups| ==> Balanced()
    }

    lemma OpenBuilt()
      requires Built()
      ensures Balanced()
    {
      assert LinkedUpTo(|groups|) || !LinkedUpTo(|groups|);
    }

    ghost predicate Valid()
      reads this, Repr
    {
      Built() && num_chains == if |groups| < recs then |groups| else recs
    }

    constructor (bi: BitInfo, unit: nat, recs: nat)
      requires 0 < recs && bi.used_bits == bi.total_bits
      ensures this.bi == bi && this.unit == unit && this.recs == recs && groups == [] && Repr == {bi} && debt == []
        && Built()
    {
      this.groups, this.bi, this.num_chains, this.unit, this.recs := [], bi, 0, unit, recs;
      this.maps, this.Repr, this.owner, this.debt := [], {bi}, map[], [];
      new;
      assert Balanced();
    }

    /** A new group is put last in the array. */
    method Append(group: AllocGroup, ghost m: seq<bool>)
      requires AllCounted() && LinkedUpTo(|groups|) && ChainsFor(maps) && Counted(group, m)
      requires group !in Repr && group.bg_bitmap !in Repr && this !in {group, group.bg_bitmap}
      modifies this
      ensures groups == old(groups) + [group] && maps == old(maps) + [m] && Repr == old(Repr) + {group, group.bg_bitmap}
      ensures num_chains == old(num_chains) && debt == old(debt) + [0]
      ensures AllCounted() && LinkedUpTo(|groups| - 1) && ChainsFor(old(maps))
    {
      owner := owner[group.bg_bitmap := |groups|];
      groups, maps, Repr, debt := groups + [group], maps + [m], Repr + {group, group.bg_bitmap}, debt + [0];
      forall i | 0 <= i < |groups| - 1 ensures Linked(groups[i], groups, |groups| - 1, recs, i) {
        assert old(Linked(groups[i], groups, |groups|, recs, i));
      }
      forall i | 0 <= i < |groups| - 1 ensures ChainCounted(groups[i], old(maps), recs, i, debt[i]) {
        assert old(ChainCounted(groups[i], maps, recs, i, debt[i]));
      }
    }

    /** A chain that has come round goes on with the last group. */
    method LinkLast(group: AllocGroup, wrapped: bool, ghost front: seq<seq<bool>>)
      requires AllCounted() && 0 < recs && 1 < |groups| && group == groups[|groups| - 1]
      requires LinkedUpTo(|groups| - 1) && ChainsFor(front)
      requires group.next == null && wrapped == (recs <= |groups| - 1)
        && group.bg_chain == ChainHead(|groups| - 1, recs)
      modifies Repr
      ensures AllCounted() && AllLinked() && ChainsFor(front)
      ensures unchanged(bi) && group.chain_free == old(group.chain_free) && group.chain_total == old(group.chain_total)
    {
      if wrapped {
        groups[|groups| - 1 - recs].next := group;
      }
      forall i | 0 <= i < |groups| ensures Linked(groups[i], groups, |groups|, recs, i) {
        assert i < |groups| - 1 ==> old(Linked(groups[i], groups, |groups| - 1, recs, i));
      }
    }

    /** The counts of a chain after a group is added: the free count becomes the group's own. */
    method Credit(group: AllocGroup, head: AllocGroup, ghost c: nat, ghost front: seq<seq<bool>>)
      requires AllCounted() && AllLinked() && ChainsFor(front) && c < |groups| && head == groups[c]
      modifies head`chain_free, head`chain_total
      ensures AllCounted() && AllLinked()
      ensures head.chain_total == old(head.chain_total) + group.bg_bits && head.chain_free == group.bg_free_bits_count
      ensures forall i {:trigger ChainCounted(groups[i], front, recs, i, debt[i])} :: 0 <= i < |front| && i != c ==>
        ChainCounted(groups[i], front, recs, i, debt[i])
    {
      head.chain_total := head.chain_total + group.bg_bits;
      head.chain_free := group.bg_free_bits_count;
      forall i | 0 <= i < |groups| ensures Counted(groups[i], maps[i]) && Linked(groups[i], groups, |groups|, recs, i) {
        assert old(Counted(groups[i], maps[i])) && old(Linked(groups[i], groups, |groups|, recs, i));
      }
      forall i | 0 <= i < |front| && i != c ensures ChainCounted(groups[i], front, recs, i, debt[i]) {
        assert old(ChainCounted(groups[i], front, recs, i, debt[i]));
      }
    }

    /** The last group adds to the counts of its chain. */
    method CountLast(group: AllocGroup, head: AllocGroup, ghost front: seq<seq<bool>>, ghost m: seq<bool>)
      requires AllCounted() && AllLinked() && maps == front + [m] && group == groups[|front|] && ChainsFor(front)
      requires group.bg_chain < |groups| && head == groups[group.bg_chain]
      requires head == group ==> group.chain_total == 0
      modifies this`debt, head`chain_free, head`chain_total
      ensures AllCounted() && AllLinked() && ChainsFor(maps)
      ensures debt == old(debt)[group.bg_chain := ChainClear(front, recs, group.bg_chain, |front|)]
    {
      ghost var c := group.bg_chain;
      assert Linked(groups[|front|], groups, |groups|, recs, |front|) && Counted(groups[|front|], maps[|front|]);
      group.Open();
      LastCounts(front, m, recs, c);
      assert c < |front| ==> ChainCounted(head, front, recs, c, debt[c]);
      Credit(group, head, c, front);
      debt := debt[c := ChainClear(front, recs, c, |front|)];
      assert ChainCounted(head, maps, recs, c, debt[c]);
      forall i | 0 <= i < |groups| && i != c ensures ChainCounted(groups[i], maps, recs, i, debt[i]) {
        OtherCounted(groups[i], front, m, recs, c, i, debt[i]);
      }
    }

    /** The next group: its descriptor, its link from the group `recs` before it, and
        the counts of its chain. */
    method AddGroup(nbits: nat, blkno: nat, chain: nat, wrapped: bool) returns (group: AllocGroup)
      requires Built() && 0 < nbits <= 8 * GROUP_BITMAP_SIZE && groups != []
      requires wrapped == (recs <= |groups|) && chain == ChainHead(|groups|, recs)
      modifies this, Repr
      ensures Built() && fresh(Repr - old(Repr))
      ensures groups == old(groups) + [group] && maps == old(maps) + [Fresh(nbits)]
      ensures chain < |groups| == |old(debt)| + 1 && |old(maps)| == |old(debt)|
      ensures debt == (old(debt) + [0])[chain := ChainClear(old(maps), recs, chain, |old(maps)|)]
      ensures group.bg_blkno == blkno && group.bg_bits == nbits
      ensures bi.total_bits == old(bi.total_bits) + nbits && bi.used_bits == old(bi.used_bits) + 1
    {
      OpenBuilt();
      group := new AllocGroup(nbits, blkno, chain, bi);
      ghost var front := maps;
      Append(group, Fresh(nbits));
      LinkLast(group, wrapped, front);
      assert Linked(group, groups, |groups|, recs, |groups| - 1);
      CountLast(group, groups[chain], front, Fresh(nbits));
      WithFresh(front, nbits);
      assert Balanced();
    }

    /** The first group: besides bit 0, the bits up to the cluster of its descriptor are set. */
    method FirstGroup(nbits: nat, blkno: nat, first_cluster_group: nat) returns (group: AllocGroup)
      requires Built() && groups == [] && first_cluster_group < nbits <= 8 * GROUP_BITMAP_SIZE
      modifies this, Repr
      ensures Built() && fresh(Repr - old(Repr))
      ensures groups == [group] && maps == [Marked(Fresh(nbits), 1, first_cluster_group)] && debt == [0]
      ensures group.bg_blkno == blkno && group.bg_bits == nbits
      ensures bi.total_bits == old(bi.total_bits) + nbits && bi.used_bits == old(bi.used_bits) + 1 + first_cluster_group
    {
      OpenBuilt();
      group := new AllocGroup(nbits, blkno, 0, bi);
      Reserve(group, first_cluster_group);
      Append(group, Marked(Fresh(nbits), 1, first_cluster_group));
      assert Linked(group, groups, 1, recs, 0);
      CountLast(group, group, [], Marked(Fresh(nbits), 1, first_cluster_group));
      FreshClear(nbits);
      MarkedClear(Fresh(nbits), 1, first_cluster_group);
      assert Balanced();
    }

    /** The bits of the first group that are set by hand. */
    method Reserve(group: AllocGroup, n: nat)
      requires group.Ok() && n < group.bg_bits && group.bits == Fresh(group.bg_bits)
      modifies group`bits, group`bg_free_bits_count, group.bg_bitmap, bi`used_bits
      ensures group.Ok() && group.bits == Marked(Fresh(group.bg_bits), 1, n) && bi.used_bits == old(bi.used_bits) + n
    {
      var i := 1;
      while i <= n
        invariant 1 <= i <= n + 1 && group.Ok() && group.bits == Marked(Fresh(group.bg_bits), 1, i - 1)
        invariant bi.used_bits == old(bi.used_bits) + (i - 1)
      {
        group.Take(i, 1);
        bi.used_bits := bi.used_bits + 1;
        i := i + 1;
      }
    }

    /** The cluster at which group `g` starts. */
    function Base(g: nat, s: State): nat
      reads this
      requires g < |groups| && 0 < s.bpc
    {
      if groups[g].bg_blkno == s.first_cluster_group_blkno then 0 else groups[g].bg_blkno / s.bpc
    }

    /** Down one chain, to the first group with enough clear bits. */
    method WalkChain(i: nat, num_bits: nat) returns (group: AllocGroup?, g: nat)
      requires Balanced() && i < |groups|
      ensures if group == null then Candidate(maps, recs, i, num_bits) == -1
        else g == Candidate(maps, recs, i, num_bits) && group == groups[g]
    {
      group, g := groups[i], i;
      while group != null
        invariant group != null ==> g < |groups| && group == groups[g]
        invariant group == null ==> g >= |groups|
        invariant Candidate(maps, recs, g, num_bits) == Candidate(maps, recs, i, num_bits)
        decreases |groups| - g
      {
        assert Counted(groups[g], maps[g]) && Linked(groups[g], groups, |groups|, recs, g);
        group.Open();
        if group.bg_free_bits_count >= num_bits {
          break;
        }
        group := group.next;
        g := g + recs;
      }
    }

    /** The search of `alloc_from_bitmap`: the group found, and where in it. */
    method FindBits(num_bits: nat) returns (found: bool, g: nat, start_bit: nat)
      requires Valid()
      ensures Choose(maps, recs, 0, num_chains, num_bits) ==
        if found then Chosen(Grant(g, start_bit, num_bits)) else Nothing
    {
      OpenBuilt();
      found, g, start_bit := false, 0, 0;
      var i := 0;
      while i < num_chains && !found
        invariant i <= num_chains
        invariant Choose(maps, recs, 0, num_chains, num_bits) ==
          if found then Chosen(Grant(g, start_bit, num_bits)) else Choose(maps, recs, i, num_chains, num_bits)
      {
        var group;
        group, g := WalkChain(i, num_bits);
        if group != null {
          assert Counted(groups[g], maps[g]);
          group.Open();
          var at := FindClearBits(group.bg_bitmap, group.bg_bits, num_bits, 0);
          if at != -1 {
            found, start_bit := true, at;
          }
        }
        i := i + 1;
      }
    }

    /** The bits of a range are taken from its group. */
    method Mark(gd: AllocGroup, g: nat, start_bit: nat, num_bits: nat)
      requires Balanced() && Fits(maps, Grant(g, start_bit, num_bits)) && gd == groups[g]
      modifies this`maps, gd`bits, gd`bg_free_bits_count, gd.bg_bitmap
      ensures AllCounted() && AllLinked() && maps == Apply(old(maps), Grant(g, start_bit, num_bits))
      ensures ChainsFor(old(maps)) && debt == old(debt)
    {
      assert Counted(gd, maps[g]);
      gd.Take(start_bit, num_bits);
      maps := Apply(maps, Grant(g, start_bit, num_bits));
      forall i | 0 <= i < |groups| ensures Counted(groups[i], maps[i]) {
        assert old(Counted(groups[i], maps[i]));
      }
      forall i | 0 <= i < |groups| ensures ChainCounted(groups[i], old(maps), recs, i, debt[i]) {
        assert old(ChainCounted(groups[i], maps, recs, i, debt[i]));
      }
    }

    /** The bits of a range are taken from the free count of its chain. */
    method Charge(head: AllocGroup, num_bits: nat, ghost before: seq<seq<bool>>, ghost g: nat, ghost start_bit: nat)
      requires AllCounted() && AllLinked() && ChainsFor(before) && |before| == |groups|
      requires Fits(before, Grant(g, start_bit, num_bits)) && maps == Apply(before, Grant(g, start_bit, num_bits))
      requires groups[g].bg_chain < |groups| && head == groups[groups[g].bg_chain]
      modifies head`chain_free
      ensures AllCounted() && AllLinked() && ChainsFor(maps) && debt == old(debt)
      ensures head.chain_free == ToUint32(old(head.chain_free) - num_bits)
    {
      ghost var c := groups[g].bg_chain;
      assert Linked(groups[g], groups, |groups|, recs, g);
      assert ChainCounted(head, before, recs, c, debt[c]);
      head.chain_free := ToUint32(head.chain_free - num_bits);
      LessTwice(ChainClear(before, recs, c, |before|) - debt[c], num_bits);
      forall i | 0 <= i < |groups| ensures ChainCounted(groups[i], maps, recs, i, debt[i]) {
        assert old(ChainCounted(groups[i], before, recs, i, debt[i]));
        ChainGrant(before, recs, Grant(g, start_bit, num_bits), i);
      }
    }

    /** What a range costs. */
    lemma Cost(g: nat, start_bit: nat, num_bits: nat)
      requires Fits(maps, Grant(g, start_bit, num_bits))
      ensures FreeSum(Apply(maps, Grant(g, start_bit, num_bits)), |maps|) == FreeSum(maps, |maps|) - num_bits
    {
      MarkedClear(maps[g], start_bit, num_bits);
      FreeSumUpdate(maps, g, Marked(maps[g], start_bit, num_bits), |maps|);
    }

    /** The end of `alloc_from_bitmap`: the counts and the bits of the range. */
    method Commit(g: nat, start_bit: nat, num_bits: nat)
      requires Valid() && Fits(maps, Grant(g, start_bit, num_bits))
        && AllPacked(Apply(maps, Grant(g, start_bit, num_bits)))
      modifies this`maps, Repr
      ensures Valid() && maps == Apply(old(maps), Grant(g, start_bit, num_bits))
      ensures bi.total_bits == old(bi.total_bits) && bi.used_bits == old(bi.used_bits) + num_bits && debt == old(debt)
    {
      OpenBuilt();
      var gd := groups[g];
      assert Linked(gd, groups, |groups|, recs, g);
      Cost(g, start_bit, num_bits);
      Mark(gd, g, start_bit, num_bits);
      Charge(groups[gd.bg_chain], num_bits, old(maps), g, start_bit);
      bi.used_bits := bi.used_bits + num_bits;
      assert Balanced();
    }

    /** The address of a bit. */
    method Start(gd: AllocGroup, ghost g: nat, start_bit: nat, s: State) returns (start: nat)
      requires g < |groups| && gd == groups[g] && 0 < s.bpc
      ensures start == (Base(g, s) + start_bit) * unit
    {
      if gd.bg_blkno == s.first_cluster_group_blkno {
        start := start_bit;
      } else {
        start := start_bit + gd.bg_blkno / s.bpc;
      }
      start := start * unit;
    }

    /** An allocation fails only if no group has as many clear bits. */
    lemma Complete(num_bits: nat)
      requires Valid()
      ensures AllPacked(maps) && num_chains == Chains(maps, recs)
      ensures Choose(maps, recs, 0, num_chains, num_bits).Chosen?
        <==> 0 < num_bits && exists g :: 0 <= g < |maps| && num_bits <= Clear(maps[g])
    {
      OpenBuilt();
      ChosenComplete(maps, recs, num_bits);
      AvailablePacked(maps, num_bits);
    }

    /** The free count of a chain, always: the clear bits of its groups, less the debt. */
    lemma ChainFree(c: nat)
      requires Valid() && c < num_chains
      ensures |maps| == |groups| == |debt| && groups[c] in Repr
      ensures groups[c].chain_free == ToUint32(ChainClear(maps, recs, c, |maps|) - debt[c])
      ensures groups[c].chain_free == ToUint32(ChainClear(maps, recs, c, |maps|)) <==> debt[c] % 0x1_0000_0000 == 0
      ensures groups[c].chain_total == ChainBits(maps, recs, c, |maps|)
    {
      OpenBuilt();
      assert ChainCounted(groups[c], maps, recs, c, debt[c]);
      LessNothing(ChainClear(maps, recs, c, |maps|), debt[c]);
    }

    /** `alloc_from_bitmap`; the program exits when `ok` is false. */
    method AllocFromBitmap(num_bits: nat, s: State) returns (ok: bool, start: nat, num: nat)
      requires Valid() && 0 < s.bpc
      modifies this`maps, Repr
      ensures Valid()
      ensures ok == old(Choose(maps, recs, 0, num_chains, num_bits)).Chosen?
      ensures ok <==> 0 < num_bits && exists g :: 0 <= g < |maps| && num_bits <= Clear(old(maps)[g])
      ensures |maps| == |old(maps)| && debt == old(debt)
      ensures !ok ==> maps == old(maps) && bi.used_bits == old(bi.used_bits)
      ensures bi.total_bits == old(bi.total_bits)
      ensures ok ==>
        var grant := old(Choose(maps, recs, 0, num_chains, num_bits)).grant;
        && Fits(old(maps), grant) && maps == Apply(old(maps), grant) && bi.used_bits == old(bi.used_bits) + num_bits
        && start == (Base(grant.group, s) + grant.start) * unit && num == num_bits * unit
    {
      start, num := 0, 0;
      var g, start_bit;
      ok, g, start_bit := FindBits(num_bits);
      Complete(num_bits);
      if !ok {
        return;
      }
      ChosenPacked(maps, recs, 0, num_chains, num_bits);
      start := Start(groups[g], g, start_bit, s);
      num := num_bits * unit;
      Commit(g, start_bit, num_bits);
    }
  }

  /** What mkfs knows of the volume. */
  datatype State = State(bpc: nat, first_cluster_group_blkno: nat)

  // ---- initialize_bitmap ----

  /** The cluster of the first group descriptor, behind the superblock. */
  function FirstClusterGroup(bpc: nat): nat
    requires 0 < bpc
  {
    (CMFS_SUPER_BLOCK_BLKNO + 1 + (bpc - 1)) / bpc
  }

  /** The descriptor of the first group lies behind the superblock, block 2, at the next
      start of a cluster. */
  lemma BehindSuperblock(bpc: nat)
    requires 0 < bpc
    ensures var blkno := FirstClusterGroup(bpc) * bpc; 2 < blkno <= 2 + bpc && blkno % bpc == 0
    ensures (FirstClusterGroup(bpc) * bpc) / bpc == FirstClusterGroup(bpc)
  {
    var d := FirstClusterGroup(bpc);
    DivMod(2 + bpc, bpc);
    DivOf(bpc, d, 0);
    assert Times(d, bpc) == d * bpc;
  }

  /** Where the descriptor of group `i` is put. */
  function GroupBlkno(cgs: ClusterGroupSizes, bpc: nat, i: nat): nat
    requires 0 < bpc
  {
    if i == 0 then FirstClusterGroup(bpc) * bpc else cgs.cpg * bpc
  }

  /** The first group has room for the clusters up to that of its descriptor. */
  predicate WellCut(cgs: ClusterGroupSizes, reserved: nat) {
    && 0 < cgs.cluster_groups && 0 < cgs.tail_group_bits <= cgs.cpg && 0 < reserved < cgs.cpg
    && (cgs.cluster_groups == 1 ==> cgs.tail_group_bits == cgs.cpg)
  }

  /** The bits of group `i` of a new volume: the descriptor's, and in the first group those
      up to the cluster of its descriptor. */
  function InitialMap(cgs: ClusterGroupSizes, reserved: nat, i: nat): (m: seq<bool>)
    requires WellCut(cgs, reserved)
    ensures Packed(m) && |m| == if i == 0 then cgs.cpg else GroupBits(cgs, i)
  {
    if i == 0 then Marked(Fresh(cgs.cpg), 1, reserved) else Fresh(GroupBits(cgs, i))
  }

  function InitialMaps(cgs: ClusterGroupSizes, reserved: nat): (maps: seq<seq<bool>>)
    requires WellCut(cgs, reserved)
    ensures |maps| == cgs.cluster_groups && AllPacked(maps)
  {
    seq(cgs.cluster_groups, i requires 0 <= i < cgs.cluster_groups => InitialMap(cgs, reserved, i))
  }

  /** The first groups of a new volume are laid out and counted as they should be, and so
      are the counts of the bitmap's inode. */
  ghost predicate Progress(bitmap: AllocBitmap, cgs: ClusterGroupSizes, bpc: nat)
    requires 0 < bpc
    reads bitmap, bitmap.Repr
  {
    && WellCut(cgs, FirstClusterGroup(bpc))
    && bitmap.Built() && 0 < |bitmap.groups| == |bitmap.maps| == |bitmap.debt| <= cgs.cluster_groups
    && bitmap.maps == InitialMaps(cgs, FirstClusterGroup(bpc))[..|bitmap.maps|]
    && (forall i :: 0 <= i < |bitmap.groups| ==> bitmap.groups[i].bg_blkno == GroupBlkno(cgs, bpc, i))
    && (forall i {:trigger bitmap.debt[i]} :: 0 <= i < |bitmap.debt| && i < bitmap.recs ==>
          bitmap.debt[i] == Debt(bitmap.maps, bitmap.recs, i, |bitmap.maps|))
    && bitmap.bi.total_bits == BitsSum(cgs, |bitmap.groups|)
    && bitmap.bi.used_bits == FirstClusterGroup(bpc) + |bitmap.groups|
  }

  method NextGroup(bitmap: AllocBitmap, cgs: ClusterGroupSizes, bpc: nat, nbits: nat, chain: nat, wrapped: bool)
    requires 0 < bpc && Progress(bitmap, cgs, bpc) && |bitmap.groups| < cgs.cluster_groups
    requires nbits == GroupBits(cgs, |bitmap.groups|) && 0 < nbits <= 8 * GROUP_BITMAP_SIZE
    requires wrapped == (bitmap.recs <= |bitmap.groups|) && chain == ChainHead(|bitmap.groups|, bitmap.recs)
    modifies bitmap, bitmap.Repr
    ensures Progress(bitmap, cgs, bpc) && fresh(bitmap.Repr - old(bitmap.Repr))
    ensures |bitmap.groups| == old(|bitmap.groups|) + 1
  {
    ghost var front, debt := bitmap.maps, bitmap.debt;
    var group := bitmap.AddGroup(nbits, cgs.cpg * bpc, chain, wrapped);
    DebtStep(front, debt, Fresh(nbits), bitmap.recs, bitmap.debt);
    MapsStep(InitialMaps(cgs, FirstClusterGroup(bpc)), |front|, Fresh(nbits));
  }

  lemma MapsStep(all: seq<seq<bool>>, n: nat, m: seq<bool>)
    requires n < |all| && all[n] == m
    ensures all[..n] + [m] == all[..n + 1]
  {
  }

  /** With the next group its chain owes all the clear bits before it. */
  lemma DebtStep(front: seq<seq<bool>>, debt: seq<nat>, m: seq<bool>, recs: nat, debt': seq<nat>)
    requires 0 < recs && |front| == |debt|
    requires forall i :: 0 <= i < |debt| && i < recs ==> debt[i] == Debt(front, recs, i, |front|)
    requires var c := ChainHead(|front|, recs); debt' == (debt + [0])[c := ChainClear(front, recs, c, |front|)]
    ensures forall i :: 0 <= i < |debt'| && i < recs ==> debt'[i] == Debt(front + [m], recs, i, |front| + 1)
  {
    var c := ChainHead(|front|, recs);
    forall i | 0 <= i < |debt'| && i < recs ensures debt'[i] == Debt(front + [m], recs, i, |front| + 1) {
      if i == c {
        ChainFront(front, recs, m, c, |front|);
      } else {
        DebtAndLast(front, recs, i, |front|);
        ChainFront(front, recs, m, i, LastOf(recs, i, |front|));
      }
    }
  }

  lemma ShortHead(i: nat, recs: nat)
    requires 0 < recs
    ensures i < recs ==> ChainHead(i, recs) == i
  {
  }

  /** The number of chains, set at the end. */
  method CountChains(bitmap: AllocBitmap, cgs: ClusterGroupSizes, bpc: nat, n: nat)
    requires 0 < bpc && Progress(bitmap, cgs, bpc)
    requires n == if |bitmap.groups| < bitmap.recs then |bitmap.groups| else bitmap.recs
    modifies bitmap`num_chains
    ensures Progress(bitmap, cgs, bpc) && bitmap.Valid()
  {
    bitmap.OpenBuilt();
    bitmap.num_chains := n;
    assert bitmap.Balanced();
  }

  /** The loop of `initialize_bitmap`. */
  method OtherGroups(bitmap: AllocBitmap, cgs: ClusterGroupSizes, bpc: nat)
    requires 0 < bpc && Progress(bitmap, cgs, bpc) && |bitmap.groups| == 1 && 2 <= bitmap.recs
    requires 0 < cgs.tail_group_bits <= cgs.cpg <= 8 * GROUP_BITMAP_SIZE
    modifies bitmap, bitmap.Repr
    ensures Progress(bitmap, cgs, bpc) && bitmap.Valid() && fresh(bitmap.Repr - old(bitmap.Repr))
    ensures |bitmap.groups| == cgs.cluster_groups
  {
    var chain, wrapped, cpg := 1, false, cgs.cpg;
    var i := 1;
    while i < cgs.cluster_groups
      invariant 1 <= i <= cgs.cluster_groups && |bitmap.groups| == i
      invariant Progress(bitmap, cgs, bpc) && fresh(bitmap.Repr - old(bitmap.Repr))
      invariant wrapped == (bitmap.recs <= i) && chain == ChainHead(i, bitmap.recs)
      invariant cpg == cgs.cpg || i == cgs.cluster_groups
    {
      if i == cgs.cluster_groups - 1 {
        cpg := cgs.tail_group_bits;
      }
      NextGroup(bitmap, cgs, bpc, cpg, chain, wrapped);
      NextHead(i, bitmap.recs);
      ShortHead(i, bitmap.recs);
      chain := chain + 1;
      if chain >= bitmap.recs {
        chain := 0;
        wrapped := true;
      }
      i := i + 1;
    }
    CountChains(bitmap, cgs, bpc, if !wrapped then chain else bitmap.recs);
  }

  /** `initialize_bitmap`; that the total is the number of clusters is what it checks
      before it returns. The free count of a chain is that of its last group. */
  method InitializeBitmap(clusters: nat, bpc: nat, unit: nat, recs: nat)
    returns (bitmap: AllocBitmap, s: State, cgs: ClusterGroupSizes)
    requires 0 < clusters && 0 < bpc && 2 <= recs && FirstClusterGroup(bpc) < clusters
    ensures Partition(cgs, clusters) && WellCut(cgs, FirstClusterGroup(bpc))
    ensures cgs.cpg == 8 * GROUP_BITMAP_SIZE || (cgs.cpg == clusters < 8 * GROUP_BITMAP_SIZE && cgs.cluster_groups == 1)
    ensures bitmap.Valid() && fresh(bitmap) && fresh(bitmap.Repr)
    ensures bitmap.recs == recs && bitmap.unit == unit && s == State(bpc, GroupBlkno(cgs, bpc, 0))
    ensures bitmap.maps == InitialMaps(cgs, FirstClusterGroup(bpc))
      && |bitmap.groups| == |bitmap.debt| == cgs.cluster_groups
    ensures forall i :: 0 <= i < |bitmap.groups| ==> bitmap.groups[i].bg_blkno == GroupBlkno(cgs, bpc, i)
    ensures bitmap.groups[0].bg_blkno % bpc == 0 && 2 < bitmap.groups[0].bg_blkno <= 2 + bpc
    ensures bitmap.bi.total_bits == clusters
    ensures bitmap.bi.used_bits == FirstClusterGroup(bpc) + cgs.cluster_groups
    ensures forall c :: 0 <= c < bitmap.num_chains ==> bitmap.debt[c] == Debt(bitmap.maps, recs, c, |bitmap.maps|)
  {
    cgs := CalcClusterGroups(clusters);
    var bi := new BitInfo();
    bitmap := new AllocBitmap(bi, unit, recs);
    var first_cluster_group := FirstClusterGroup(bpc);
    FewClusters(bpc);
    BehindSuperblock(bpc);
    s := State(bpc, first_cluster_group * bpc);
    var group := bitmap.FirstGroup(cgs.cpg, s.first_cluster_group_blkno, first_cluster_group);
    FirstProgress(bitmap, cgs, bpc);
    OtherGroups(bitmap, cgs, bpc);
    assert bitmap.maps[..|bitmap.maps|] == bitmap.maps;
  }

  lemma FirstProgress(bitmap: AllocBitmap, cgs: ClusterGroupSizes, bpc: nat)
    requires 0 < bpc && WellCut(cgs, FirstClusterGroup(bpc))
    requires bitmap.Built() && |bitmap.groups| == 1 && bitmap.debt == [0]
    requires bitmap.maps == [Marked(Fresh(cgs.cpg), 1, FirstClusterGroup(bpc))]
    requires bitmap.groups[0].bg_blkno == GroupBlkno(cgs, bpc, 0)
    requires bitmap.bi.total_bits == cgs.cpg && bitmap.bi.used_bits == 1 + FirstClusterGroup(bpc)
    ensures Progress(bitmap, cgs, bpc)
  {
    assert BitsSum(cgs, 1) == BitsSum(cgs, 0) + GroupBits(cgs, 0);
    assert LastOf(bitmap.recs, 0, 1) == 0 && Debt(bitmap.maps, bitmap.recs, 0, 1) == 0;
    assert bitmap.maps == InitialMaps(cgs, FirstClusterGroup(bpc))[..1];
  }

  // ---- the free counts of the chains ----

  /** The free count of a chain of a new volume is the clear bits of its last group, and so
      that of the whole chain exactly if its other groups have none. Allocations keep the
      difference; see `AllocBitmap.ChainFree`. */
  lemma InitialChainFree(maps: seq<seq<bool>>, recs: nat, c: nat)
    requires c < recs && c < |maps| && forall i :: 0 <= i < |maps| ==> |maps[i]| < 0x1_0000_0000
    ensures var last := LastOf(recs, c, |maps|);
      && last != -1 && ToUint32(ChainClear(maps, recs, c, |maps|) - Debt(maps, recs, c, |maps|)) == Clear(maps[last])
      && (Clear(maps[last]) == ChainClear(maps, recs, c, |maps|) <==>
            forall i :: 0 <= i < |maps| && ChainHead(i, recs) == c && i != last ==> Clear(maps[i]) == 0)
  {
    DebtAndLast(maps, recs, c, |maps|);
    DebtZero(maps, recs, c, |maps|);
  }

  /** With one group more than there are chains the first chain has two groups. When the last
      group has two bits, its free count is 1, and after an allocation of two bits, which
      the first group serves, it has passed zero. */
  lemma ShortChainFree(recs: nat, reserved: nat)
    requires 2 <= recs && 1 <= reserved <= 3
    ensures var cgs := ClusterGroupSizes(8 * GROUP_BITMAP_SIZE, 2, recs + 1);
      var maps := InitialMaps(cgs, reserved);
      && Partition(cgs, recs * (8 * GROUP_BITMAP_SIZE) + 2)
      && ChainClear(maps, recs, 0, recs + 1) == 8 * GROUP_BITMAP_SIZE - reserved
      && ToUint32(ChainClear(maps, recs, 0, recs + 1) - Debt(maps, recs, 0, recs + 1)) == 1
      && Choose(maps, recs, 0, recs, 2) == Chosen(Grant(0, reserved + 1, 2))
      && ToUint32(1 - 2) == 0xFFFF_FFFF
  {
    var cgs := ClusterGroupSizes(8 * GROUP_BITMAP_SIZE, 2, recs + 1);
    var maps := InitialMaps(cgs, reserved);
    BitsSumEven(cgs, recs);
    FreshClear(cgs.cpg);
    FreshClear(2);
    MarkedClear(Fresh(cgs.cpg), 1, reserved);
    assert ChainHead(recs, recs) == ChainHead(0, recs) == 0;
    OneInChain(maps, recs, recs);
    PackedRun(maps[0], 2);
  }

  /** In the first round of the chains the first one has only the first group. */
  lemma {:induction false} OneInChain(maps: seq<seq<bool>>, recs: nat, k: nat)
    requires 0 < k <= recs && k <= |maps|
    ensures ChainClear(maps, recs, 0, k) == Clear(maps[0]) && LastOf(recs, 0, k) == 0
    decreases k
  {
    if k > 1 {
      OneInChain(maps, recs, k - 1);
    }
  }

  lemma FewClusters(bpc: nat)
    requires 0 < bpc
    ensures 1 <= FirstClusterGroup(bpc) <= 3
  {
  }

  // ---- where the groups lie ----

  /** The clusters at which the groups of a new volume start. */
  function InitialBases(cgs: ClusterGroupSizes): (b: seq<nat>)
    ensures |b| == cgs.cluster_groups
  {
    seq(cgs.cluster_groups, i => if i == 0 then 0 else cgs.cpg)
  }

  lemma BaseIs(bitmap: AllocBitmap, s: State, cgs: ClusterGroupSizes, bpc: nat, i: nat)
    requires 0 < bpc && FirstClusterGroup(bpc) < cgs.cpg && s == State(bpc, GroupBlkno(cgs, bpc, 0))
    requires |bitmap.groups| == cgs.cluster_groups && i < |bitmap.groups|
    requires bitmap.groups[i].bg_blkno == GroupBlkno(cgs, bpc, i)
    ensures bitmap.Base(i, s) == InitialBases(cgs)[i]
  {
    if i > 0 {
      DivOf(bpc, cgs.cpg, 0);
      Order(bpc, FirstClusterGroup(bpc), cgs.cpg);
    }
  }

  /** Two groups other than the first have a bit to give. */
  predicate Crowded(cgs: ClusterGroupSizes) {
    cgs.cluster_groups > 3 || (cgs.cluster_groups == 3 && cgs.tail_group_bits > 1)
  }

  lemma InitialBits(cgs: ClusterGroupSizes, reserved: nat, i: nat)
    requires WellCut(cgs, reserved) && 0 < i < cgs.cluster_groups
    ensures var m := InitialMap(cgs, reserved, i);
      && (false in m <==> |m| > 1) && (|m| > 1 ==> !m[1]) && (i < cgs.cluster_groups - 1 ==> |m| > 1)
  {
    var m := InitialMap(cgs, reserved, i);
    if |m| > 1 {
      assert m[1] == false;
    }
  }

  /** Every group but the first is put at the same place, so the groups with clear bits
      are disjoint exactly when there is at most one such group besides the first. */
  lemma InitialDisjoint(cgs: ClusterGroupSizes, reserved: nat)
    requires WellCut(cgs, reserved)
    ensures Disjoint(InitialBases(cgs), InitialMaps(cgs, reserved)) <==> !Crowded(cgs)
  {
    var b, maps := InitialBases(cgs), InitialMaps(cgs, reserved);
    if Crowded(cgs) {
      InitialBits(cgs, reserved, 1);
      InitialBits(cgs, reserved, 2);
      assert b[1] == b[2] && false in maps[1] && false in maps[2];
    } else if cgs.cluster_groups == 3 {
      InitialBits(cgs, reserved, 2);
    }
  }
}
