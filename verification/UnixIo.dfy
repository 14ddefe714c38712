/** unix_io.c: the write-through block cache in front of a device. */
module UnixIo {
  import opened BlockCache
  import opened RbShape
  import opened LruPolicy
  import opened CacheOps
  import opened DiskImage

  datatype Errcode = Ok | Io

  /** `struct _io_channel`; `disk` is the content of the open device. */
  class IoChannel {
    const io_blksize: nat
    const io_cache: IoCache
    /** What the system says to the `k`-th call on the device: how many bytes it is ready to
        move, or that there are none (0), or that the call failed (below 0). */
    const io_sys: nat -> int
    var disk: seq<byte>
    /** The same device, cut into blocks. */
    ghost var blocks: seq<seq<byte>>

    constructor (blksize: nat, nr_blocks: nat, disk: seq<byte>, sys: nat -> int)
      requires 0 < blksize && 0 < nr_blocks && |disk| <= UINT64_MAX
      ensures ChannelOk(this) && this.disk == disk && io_blksize == blksize && io_sys == sys
      ensures Recency(io_cache) == FreeSlots(nr_blocks) && fresh(io_cache) && fresh(io_cache.Repr)
    {
      io_blksize, io_sys := blksize, sys;
      io_cache := new IoCache(nr_blocks);
      this.disk, blocks := disk, Blocks(disk, blksize);
      new;
      FreshLive(io_cache.keys);
      OrderFree(io_cache.lru, io_cache.keys);
    }
  }

  lemma FreshLive(keys: seq<nat>)
    requires forall i :: 0 <= i < |keys| ==> keys[i] == UINT64_MAX
    ensures Live(keys) == {}
  {
  }

  /** The cache is consistent, and agrees with the device but for blocks `lo..hi`. */
  ghost predicate ChannelBut(ch: IoChannel, lo: nat, hi: nat)
    reads ch`blocks, ch.io_cache, ch.io_cache.ic_lookup, Nodes(ch.io_cache.ic_lookup.tree),
        ch.io_cache.ic_metadata_buffer
    reads ch.io_cache.ic_lru, ch.io_cache.lru
  {
    && |ch.blocks| <= UINT64_MAX && ch !in ch.io_cache.Repr
    && CacheValid(ch.io_cache)
    && Coherent(ch.io_cache.keys, ch.io_cache.data, ch.blocks, lo, hi)
  }

  /** `blocks` is the device cut into blocks. */
  ghost predicate Cut(ch: IoChannel)
    reads ch
  {
    0 < ch.io_blksize && |ch.disk| <= UINT64_MAX && ch.blocks == Blocks(ch.disk, ch.io_blksize)
  }

  ghost predicate ChannelOk(ch: IoChannel)
    reads ch, ch.io_cache, ch.io_cache.ic_lookup, Nodes(ch.io_cache.ic_lookup.tree), ch.io_cache.ic_metadata_buffer
    reads ch.io_cache.ic_lru, ch.io_cache.lru
  {
    Cut(ch) && ChannelBut(ch, 0, 0)
  }

  // ---- the device ----

  /** All calls from the `k`-th up to the `n`-th moved something. */
  ghost predicate AllGood(sys: nat -> int, k: nat, n: nat) {
    k <= n && forall i :: k <= i < n ==> sys(i) > 0
  }

  /** The range of the device is empty or lies on it. */
  predicate OnDisk(size: nat, location: nat, len: nat) {
    len == 0 || location + len <= size
  }

  /** The outcome of a call that could move `len` bytes at `location`: no more than are asked
      for, and no more than there are up to the end of the device. */
  function Moved(sys: int, len: nat, location: nat, size: nat): (n: int)
    ensures n <= len && (0 < n ==> location + n <= size)
    ensures 0 < n <==> sys > 0 && 0 < len && location < size
  {
    if sys <= 0 || location >= size then if sys < 0 then sys else 0
    else if sys <= len && location + sys <= size then sys
    else if location + len <= size then len
    else size - location
  }

  /** `pwrite64`, the `k`-th call: fails, writes nothing, or writes a first part of the bytes. */
  method Pwrite(ch: IoChannel, bytes: seq<byte>, location: nat, k: nat) returns (wr: int)
    requires 0 < |bytes|
    modifies ch`disk
    ensures wr == Moved(ch.io_sys(k), |bytes|, location, |old(ch.disk)|)
    ensures ch.disk == if 0 < wr then Written(old(ch.disk), location, bytes[..wr]) else old(ch.disk)
  {
    wr := Moved(ch.io_sys(k), |bytes|, location, |ch.disk|);
    if wr > 0 {
      ch.disk := ch.disk[..location] + bytes[..wr] + ch.disk[location + wr..];
    }
  }

  lemma WroteMore(img: seq<byte>, location: nat, data: seq<byte>, done: nat, wr: nat)
    requires done + wr <= |data| && location + done + wr <= |img|
    ensures Written(Written(img, location, data[..done]), location + done, data[done..][..wr])
      == Written(img, location, data[..done + wr])
  {
    WrittenTwice(img, location, data[..done], data[done..][..wr]);
    assert data[..done] + data[done..][..wr] == data[..done + wr];
  }

  /** `unix_io_write_block_full`: `tot` bytes reached the device; all of them exactly if
      every call wrote something and they fit. */
  method UnixIoWriteBlockFull(ch: IoChannel, blkno: nat, count: nat, data: seq<byte>, k: nat)
    returns (ret: Errcode, completed: nat, ghost tot: nat, k': nat)
    requires 0 < ch.io_blksize && |data| == Pos(ch.io_blksize, count)
    modifies ch`disk
    ensures tot <= |data| && completed == Whole(tot, ch.io_blksize) && (ret == Ok <==> tot == |data|)
    ensures tot == 0 || Pos(ch.io_blksize, blkno) + tot <= |old(ch.disk)|
    ensures ch.disk == Written(old(ch.disk), Pos(ch.io_blksize, blkno), data[..tot])
    ensures k <= k' && (ret == Ok <==>
      AllGood(ch.io_sys, k, k') && OnDisk(|old(ch.disk)|, Pos(ch.io_blksize, blkno), |data|))
  {
    var size, location := Pos(ch.io_blksize, count), Pos(ch.io_blksize, blkno);
    var done := 0;
    ret, k' := Ok, k;
    while done < size
      invariant 0 <= done <= size && (done == 0 || location + done <= |ch.disk|) && |ch.disk| == old(|ch.disk|)
      invariant ch.disk == Written(old(ch.disk), location, data[..done])
      invariant AllGood(ch.io_sys, k, k') && ret == Ok
    {
      var wr := Pwrite(ch, data[done..], location + done, k');
      k' := k' + 1;
      if wr <= 0 {
        ret := Io;
        break;
      }
      WroteMore(old(ch.disk), location, data, done, wr);
      done := done + wr;
    }
    completed := Whole(done, ch.io_blksize);
    tot := done;
  }

  // ---- writing through the cache ----

  /** Block `b` of the device has just been given these bytes: bring the cache up to date. */
  method Refresh(ch: IoChannel, b: nat, bytes: seq<byte>, nocache: bool, ghost hi: nat)
    requires ChannelBut(ch, b, hi) && b < |ch.blocks| && bytes == ch.blocks[b]
    modifies ch.io_cache, ch.io_cache.Repr
    ensures ChannelBut(ch, b + 1, hi)
    ensures Recency(ch.io_cache) == Touched(old(Recency(ch.io_cache)), b, nocache)
  {
    var ic := ch.io_cache;
    ghost var keys, data := ic.keys, ic.data;
    StoreIn(ic, b, bytes, nocache);
    CoherentStep(keys, data, ic.keys, ic.data, ch.blocks, b, hi, bytes);
  }

  /** The loop that brings the cache up to date with `n` blocks that a write or
      a vectored read has just moved. */
  method RefreshBlocks(ch: IoChannel, blkno: nat, n: nat, data: seq<byte>, nocache: bool, ghost hi: nat)
    requires ChannelBut(ch, blkno, hi) && Matches(ch.blocks, ch.io_blksize, blkno, n, data)
    modifies ch.io_cache, ch.io_cache.Repr
    ensures ChannelBut(ch, blkno + n, hi)
    ensures Recency(ch.io_cache) == TouchedRun(old(Recency(ch.io_cache)), blkno, n, nocache)
  {
    ghost var order, blocks, left := Recency(ch.io_cache), ch.blocks, n;
    ghost var last := TouchedRun(order, blkno, n, nocache);
    var i, b, buf := 0, blkno, data;
    while i < n
      invariant i + left == n && ch.blocks == blocks && b == blkno + i
      invariant ChannelBut(ch, b, hi) && Recency(ch.io_cache) == order
      invariant Matches(blocks, ch.io_blksize, b, left, buf)
      invariant TouchedRun(order, b, left, nocache) == last
    {
      MatchesStep(blocks, ch.io_blksize, b, left, buf);
      Refresh(ch, b, buf[..ch.io_blksize], nocache, hi);
      ghost var was, at, togo := order, b, left;
      order, left := Touched(order, b, nocache), left - 1;
      i, b, buf := i + 1, b + 1, buf[ch.io_blksize..];
      TouchedStep(was, at, togo, order, b, left, nocache, last);
    }
  }

  /** The device half of a write: only the blocks it reached can be stale. */
  method WriteDevice(ch: IoChannel, blkno: nat, count: nat, data: seq<byte>, k: nat)
    returns (ret: Errcode, completed: nat, ghost tot: nat, k': nat)
    requires ChannelOk(ch) && |data| == Pos(ch.io_blksize, count)
    modifies ch
    ensures tot <= |data| && completed == Whole(tot, ch.io_blksize) && (ret == Ok <==> tot == |data|)
    ensures tot == 0 || Pos(ch.io_blksize, blkno) + tot <= |old(ch.disk)|
    ensures ch.disk == Written(old(ch.disk), Pos(ch.io_blksize, blkno), data[..tot])
    ensures Cut(ch) && ChannelBut(ch, blkno, blkno + completed + Torn(tot, ch.io_blksize))
    ensures Matches(ch.blocks, ch.io_blksize, blkno, completed, data)
    ensures k <= k' && (ret == Ok <==>
      AllGood(ch.io_sys, k, k') && OnDisk(|old(ch.disk)|, Pos(ch.io_blksize, blkno), |data|))
  {
    ghost var img, bs := ch.disk, ch.io_blksize;
    CacheOpen(ch.io_cache);
    ret, completed, tot, k' := UnixIoWriteBlockFull(ch, blkno, count, data, k);
    ghost var hi := blkno + completed + Torn(tot, bs);
    WholeBlocks(tot, bs);
    Distribute(bs, blkno, completed + Torn(tot, bs));
    WriteCoherent(ch.io_cache.keys, ch.io_cache.data, img, bs, blkno, data[..tot], hi);
    WrittenMatches(img, bs, blkno, data, tot);
    ch.blocks := Blocks(ch.disk, bs);
  }

  /** `io_cache_write_blocks`.  Whatever reached the device, the cache agrees with
      it but for at most one half-written block; on success it agrees everywhere
      and the device holds all the bytes. */
  method IoCacheWriteBlocks(ch: IoChannel, blkno: nat, count: nat, data: seq<byte>, nocache: bool, k: nat)
    returns (ret: Errcode, ghost tot: nat, k': nat)
    requires ChannelOk(ch) && |data| == Pos(ch.io_blksize, count)
    modifies ch, ch.io_cache, ch.io_cache.Repr
    ensures tot <= |data| && (tot == 0 || Pos(ch.io_blksize, blkno) + tot <= |old(ch.disk)|)
    ensures ch.disk == Written(old(ch.disk), Pos(ch.io_blksize, blkno), data[..tot])
    ensures ret == Ok <==> tot == |data|
    ensures Cut(ch)
    ensures var at := blkno + Whole(tot, ch.io_blksize); ChannelBut(ch, at, at + Torn(tot, ch.io_blksize))
    ensures Recency(ch.io_cache) == TouchedRun(old(Recency(ch.io_cache)), blkno, Whole(tot, ch.io_blksize), nocache)
    ensures ret == Ok ==> ChannelOk(ch)
    ensures k <= k' && (ret == Ok <==>
      AllGood(ch.io_sys, k, k') && OnDisk(|old(ch.disk)|, Pos(ch.io_blksize, blkno), |data|))
  {
    var completed;
    WholePos(ch.io_blksize, count);
    ret, completed, tot, k' := WriteDevice(ch, blkno, count, data, k);
    RefreshBlocks(ch, blkno, completed, data, nocache, blkno + completed + Torn(tot, ch.io_blksize));
  }

  // ---- reading through the cache ----

  /** `pread64`, the `k`-th call: fails, finds nothing, or delivers a first part of the bytes. */
  method Pread(ch: IoChannel, len: nat, location: nat, k: nat) returns (rd: int, bytes: seq<byte>)
    requires 0 < len
    ensures rd == Moved(ch.io_sys(k), len, location, |ch.disk|)
    ensures bytes == if 0 < rd then ch.disk[location..location + rd] else []
  {
    rd := Moved(ch.io_sys(k), len, location, |ch.disk|);
    bytes := if rd > 0 then ch.disk[location..location + rd] else [];
  }

  /** `unix_io_read_block`: the bytes of the device; all of them exactly if every call
      delivered something and they lie on the device. */
  method UnixIoReadBlock(ch: IoChannel, blkno: nat, count: nat, k: nat)
    returns (ret: Errcode, data: seq<byte>, k': nat)
    requires 0 < ch.io_blksize
    ensures ret == Ok ==> |data| == Pos(ch.io_blksize, count)
    ensures data != [] ==>
      var location := Pos(ch.io_blksize, blkno);
        && location + |data| <= |ch.disk|
        && data == ch.disk[location..location + |data|]
    ensures k <= k' && (ret == Ok <==>
      AllGood(ch.io_sys, k, k') && OnDisk(|ch.disk|, Pos(ch.io_blksize, blkno), Pos(ch.io_blksize, count)))
    ensures ret == Ok || ret == Io
  {
    var size, location := Pos(ch.io_blksize, count), Pos(ch.io_blksize, blkno);
    data, ret, k' := [], Ok, k;
    while |data| < size
      invariant |data| <= size && ret == Ok
      invariant data != [] ==> location + |data| <= |ch.disk| && data == ch.disk[location..location + |data|]
      invariant AllGood(ch.io_sys, k, k')
      decreases size - |data|
    {
      var rd, bytes := Pread(ch, size - |data|, location + |data|, k');
      k' := k' + 1;
      if rd <= 0 {
        ret := Io;
        break;
      }
      data := data + bytes;
    }
  }

  /** The first loop of `io_cache_read_blocks`: how many leading blocks are cached. */
  method CachedPrefix(ch: IoChannel, blkno: nat, count: nat) returns (good_blocks: nat)
    requires ChannelBut(ch, 0, 0) && blkno + count <= UINT64_MAX
    ensures ChannelBut(ch, 0, 0) && Recency(ch.io_cache) == old(Recency(ch.io_cache))
    ensures good_blocks <= count && AllCached(Recency(ch.io_cache), blkno, blkno + good_blocks)
    ensures good_blocks < count ==> !Has(Recency(ch.io_cache), blkno + good_blocks)
  {
    ghost var order := Recency(ch.io_cache);
    good_blocks := 0;
    while good_blocks < count
      invariant good_blocks <= count && AllCached(order, blkno, blkno + good_blocks)
      invariant ChannelBut(ch, 0, 0) && Recency(ch.io_cache) == order
    {
      var found;
      ghost var steps;
      found, steps := Cached(ch.io_cache, blkno + good_blocks);
      if !found {
        return;
      }
      good_blocks := good_blocks + 1;
    }
  }

  /** At `b`, with `left` blocks to go, `buf` holds those from `from` on. */
  ghost predicate UnreadMatches(blocks: seq<seq<byte>>, bs: nat, b: nat, left: nat, from: nat, buf: seq<byte>) {
    if b < from then from - b <= left && Matches(blocks, bs, from, left - (from - b), buf)
      else Matches(blocks, bs, b, left, buf)
  }

  lemma UnreadPiece(blocks: seq<seq<byte>>, bs: nat, b: nat, left: nat, from: nat, buf: seq<byte>)
    requires 0 < left && UnreadMatches(blocks, bs, b, left, from, buf) && from <= b
    ensures b < |blocks| && bs <= |buf| && buf[..bs] == blocks[b]
  {
  }

  lemma UnreadStep(blocks: seq<seq<byte>>, bs: nat, b: nat, left: nat, from: nat, buf: seq<byte>, b': nat, left': nat,
                   buf': seq<byte>)
    requires 0 < left && UnreadMatches(blocks, bs, b, left, from, buf) && b' == b + 1 && left' == left - 1
    requires if b < from then buf' == buf else bs <= |buf| && buf' == buf[bs..]
    ensures UnreadMatches(blocks, bs, b', left', from, buf')
  {
  }

  /** The body of the second loop. */
  method SyncBlock(ch: IoChannel, b: nat, skipped: bool, buf: seq<byte>, nocache: bool) returns (out: seq<byte>)
    requires ChannelBut(ch, 0, 0) && b < |ch.blocks|
    requires if skipped then Has(Recency(ch.io_cache), b) else buf == ch.blocks[b]
    modifies ch.io_cache, ch.io_cache.Repr
    ensures ChannelBut(ch, 0, 0) && out == ch.blocks[b]
    ensures Recency(ch.io_cache) == Touched(old(Recency(ch.io_cache)), b, nocache)
  {
    var ic := ch.io_cache;
    ghost var keys, data := ic.keys, ic.data;
    out := FetchIn(ic, b, skipped, buf, nocache, ch.blocks[b]);
    CoherentStep(keys, data, ic.keys, ic.data, ch.blocks, b, 0, ch.blocks[b]);
  }

  /** The second loop: copy what was skipped out of the cache, and bring the
      cache up to date with what was read into `rest`. */
  method SyncBlocks(ch: IoChannel, blkno: nat, good_blocks: nat, count: nat, rest: seq<byte>, nocache: bool)
    returns (data: seq<byte>)
    requires ChannelBut(ch, 0, 0) && good_blocks <= count && blkno + count <= |ch.blocks|
    requires AllCached(Recency(ch.io_cache), blkno, blkno + good_blocks)
    requires Matches(ch.blocks, ch.io_blksize, blkno + good_blocks, count - good_blocks, rest)
    modifies ch.io_cache, ch.io_cache.Repr
    ensures ChannelBut(ch, 0, 0) && data == Flat(ch.blocks, blkno, count)
    ensures Recency(ch.io_cache) == TouchedRun(old(Recency(ch.io_cache)), blkno, count, nocache)
  {
    ghost var order, blocks, left := Recency(ch.io_cache), ch.blocks, count;
    ghost var last, all, from := TouchedRun(order, blkno, count, nocache), Flat(blocks, blkno, count), blkno
      + good_blocks;
    var i, b, buf := 0, blkno, rest;
    data := [];
    while i < count
      invariant i + left == count && ch.blocks == blocks && b == blkno + i
      invariant ChannelBut(ch, 0, 0) && Recency(ch.io_cache) == order
      invariant AllCached(order, b, from) && UnreadMatches(blocks, ch.io_blksize, b, left, from, buf)
      invariant TouchedRun(order, b, left, nocache) == last && data + Flat(blocks, b, left) == all
    {
      ghost var was, at, togo, sofar, unread := order, b, left, data, buf;
      var piece := [];
      if i >= good_blocks {
        UnreadPiece(blocks, ch.io_blksize, b, left, from, buf);
        piece, buf := buf[..ch.io_blksize], buf[ch.io_blksize..];
      }
      var out := SyncBlock(ch, b, i < good_blocks, piece, nocache);
      order, left := Touched(order, b, nocache), left - 1;
      i, b, data := i + 1, b + 1, data + out;
      AllCachedStep(was, at, order, b, from, nocache);
      UnreadStep(blocks, ch.io_blksize, at, togo, from, unread, b, left, buf);
      TouchedStep(was, at, togo, order, b, left, nocache, last);
      FlatStep(blocks, at, togo, b, left, sofar, data, all);
    }
  }

  lemma CachedFits(ch: IoChannel, b: nat)
    requires ChannelBut(ch, 0, 0) && b < UINT64_MAX && Has(Recency(ch.io_cache), b)
    ensures b < |ch.blocks|
  {
    CacheOpen(ch.io_cache);
    OrderHas(ch.io_cache.lru, ch.io_cache.keys, b);
  }

  /** Blocks that were skipped or read lie on the device. */
  lemma ReadFits(ch: IoChannel, blkno: nat, good_blocks: nat, count: nat, rest: seq<byte>)
    requires ChannelBut(ch, 0, 0) && good_blocks <= count && blkno + count <= UINT64_MAX
    requires AllCached(Recency(ch.io_cache), blkno, blkno + good_blocks)
    requires Matches(ch.blocks, ch.io_blksize, blkno + good_blocks, count - good_blocks, rest)
    ensures 0 < count ==> blkno + count <= |ch.blocks|
  {
    if good_blocks < count {
      MatchesFits(ch.blocks, ch.io_blksize, blkno + good_blocks, count - good_blocks, rest);
    } else if 0 < count {
      CachedFits(ch, blkno + count - 1);
    }
  }

  /** The same in blocks. */
  lemma OnDiskBlocks(img: seq<byte>, bs: nat, blkno: nat, count: nat)
    requires 0 < bs
    ensures OnDisk(|img|, Pos(bs, blkno), Pos(bs, count)) <==> OnDisk(|Blocks(img, bs)|, blkno, count)
  {
    FewBlocks(|img|, bs);
    Distribute(bs, blkno, count);
    WholeBlocks(|img|, bs);
    if blkno + count <= |img| / bs {
      Distribute(bs, blkno + count, |img| / bs - (blkno + count));
    } else {
      Distribute(bs, |img| / bs + 1, blkno + count - (|img| / bs + 1));
      Distribute(bs, |img| / bs, 1);
    }
  }

  /** `unix_io_read_block` delivers blocks. */
  method ReadDevice(ch: IoChannel, blkno: nat, count: nat, k: nat) returns (ret: Errcode, data: seq<byte>, k': nat)
    requires ChannelOk(ch)
    ensures ChannelOk(ch) && Recency(ch.io_cache) == old(Recency(ch.io_cache))
    ensures ret == Ok ==> Matches(ch.blocks, ch.io_blksize, blkno, count, data)
    ensures k <= k' && (ret == Ok <==> AllGood(ch.io_sys, k, k') && OnDisk(|ch.blocks|, blkno, count))
  {
    CacheOpen(ch.io_cache);
    ret, data, k' := UnixIoReadBlock(ch, blkno, count, k);
    OnDiskBlocks(ch.disk, ch.io_blksize, blkno, count);
    if ret == Ok {
      assert count > 0 ==> data != [] by {
        assert count > 0 ==> Pos(ch.io_blksize, count) > 0;
      }
      StretchMatches(ch.disk, ch.io_blksize, blkno, count, data);
    }
  }

  /** `io_cache_read_blocks`: on success the bytes on the device, the blocks
      touched in order; on failure nothing has changed. It fails exactly if a call on the
      device failed or the blocks are not on it, and makes no call when every block is cached. */
  method IoCacheReadBlocks(ch: IoChannel, blkno: nat, count: nat, nocache: bool, k: nat)
    returns (ret: Errcode, data: seq<byte>, k': nat)
    requires ChannelOk(ch) && blkno + count <= UINT64_MAX && 0 < count
    modifies ch.io_cache, ch.io_cache.Repr
    ensures ChannelOk(ch)
    ensures old(AllCached(Recency(ch.io_cache), blkno, blkno + count)) ==> ret == Ok && k' == k
    ensures k <= k' && (ret == Ok <==> AllGood(ch.io_sys, k, k') && OnDisk(|ch.blocks|, blkno, count))
    ensures ret == Ok ==> blkno + count <= |ch.blocks| && data == Flat(ch.blocks, blkno, count)
    ensures Recency(ch.io_cache)
      == TouchedRun(old(Recency(ch.io_cache)), blkno, if ret == Ok then count else 0, nocache)
  {
    var good_blocks := CachedPrefix(ch, blkno, count);
    ret, data, k' := Ok, [], k;
    var rest := [];
    if good_blocks < count {
      ret, rest, k' := ReadDevice(ch, blkno + good_blocks, count - good_blocks, k);
      if ret != Ok {
        return;
      }
    }
    ReadFits(ch, blkno, good_blocks, count, rest);
    data := SyncBlocks(ch, blkno, good_blocks, count, rest, nocache);
  }

  /** The first `n` blocks from `b` on have been read into `data`. */
  ghost predicate ReadSoFar(blocks: seq<seq<byte>>, b: nat, n: nat, data: seq<byte>) {
    if n == 0 then data == [] else b + n <= |blocks| && data == Flat(blocks, b, n)
  }

  lemma ReadMore(blocks: seq<seq<byte>>, blkno: nat, done: nat, b: nat, todo: nat, done': nat,
                 data: seq<byte>, hunk: seq<byte>, data': seq<byte>)
    requires b == blkno + done && done' == done + todo && data' == data + hunk
    requires ReadSoFar(blocks, blkno, done, data) && ReadSoFar(blocks, b, todo, hunk)
    ensures ReadSoFar(blocks, blkno, done', data')
  {
    if done == 0 {
      assert [] + hunk == hunk;
    } else if todo == 0 {
      assert data + [] == data;
    } else {
      FlatSplit(blocks, blkno, done, todo);
    }
  }

  lemma TouchedMore(order: Lru, blkno: nat, done: nat, b: nat, todo: nat, done': nat, nocache: bool)
    requires order.Entry? && b == blkno + done && done' == done + todo
    ensures TouchedRun(TouchedRun(order, blkno, done, nocache), b, todo, nocache)
      == TouchedRun(order, blkno, done', nocache)
  {
    TouchedTwice(order, blkno, done, todo, nocache);
  }

  const ONE_MEGABYTE := 1024 * 1024

  /** `one_meg_of_blocks`. */
  function OneMegOfBlocks(bs: nat): (todo: nat)
    requires 0 < bs
    ensures 0 < todo
  {
    HunkPositive(bs);
    (ONE_MEGABYTE + bs - 1) / bs
  }

  lemma HunkPositive(bs: nat)
    requires 0 < bs
    ensures 0 < (ONE_MEGABYTE + bs - 1) / bs
  {
  }

  /** The least number of blocks that make a megabyte. */
  lemma OneMegIs(bs: nat)
    requires 0 < bs
    ensures Pos(bs, OneMegOfBlocks(bs) - 1) < 1048576 <= Pos(bs, OneMegOfBlocks(bs))
  {
    var n := OneMegOfBlocks(bs);
    assert 1048576 + bs - 1 == n * bs + (1048576 + bs - 1) % bs;
    Distribute(bs, n - 1, 1);
  }

  /** `done` blocks are a number of whole hunks. */
  ghost predicate Hunks(bs: nat, done: nat, hunks: nat)
    requires 0 < bs
  {
    done == Pos(OneMegOfBlocks(bs), hunks)
  }

  lemma HunkMore(bs: nat, done: nat, hunks: nat)
    requires 0 < bs && Hunks(bs, done, hunks)
    ensures Hunks(bs, done + OneMegOfBlocks(bs), hunks + 1)
  {
    Distribute(OneMegOfBlocks(bs), hunks, 1);
  }

  /** `io_cache_read_block`: a read of any size, in hunks of one megabyte. When it fails, the
      hunks before have been read. */
  method IoCacheReadBlock(ch: IoChannel, blkno: nat, count: nat, nocache: bool, k: nat)
    returns (ret: Errcode, data: seq<byte>, ghost done: nat, k': nat)
    requires ChannelOk(ch) && blkno + count <= UINT64_MAX
    modifies ch.io_cache, ch.io_cache.Repr
    ensures ChannelOk(ch) && done <= count && (ret == Ok <==> done == count)
    ensures ReadSoFar(ch.blocks, blkno, done, data)
    ensures ret != Ok ==> exists hunks: nat :: Hunks(ch.io_blksize, done, hunks)
    ensures Recency(ch.io_cache) == TouchedRun(old(Recency(ch.io_cache)), blkno, done, nocache)
    ensures k <= k' && (ret == Ok <==> AllGood(ch.io_sys, k, k') && OnDisk(|ch.blocks|, blkno, count))
  {
    ghost var order, blocks := Recency(ch.io_cache), ch.blocks;
    k' := k;
    var todo, b, left := OneMegOfBlocks(ch.io_blksize), blkno, count;
    ret, data, done := Ok, [], 0;
    ghost var hunks := 0;
    while left > 0
      invariant done + left == count && b == blkno + done && ret == Ok && 0 < todo
      invariant left > 0 ==> todo == OneMegOfBlocks(ch.io_blksize) && Hunks(ch.io_blksize, done, hunks)
      invariant ChannelOk(ch) && ch.blocks == blocks && ReadSoFar(blocks, blkno, done, data)
      invariant Recency(ch.io_cache) == TouchedRun(order, blkno, done, nocache)
      invariant AllGood(ch.io_sys, k, k')
    {
      if todo > left {
        todo := left;
      }
      var hunk;
      ret, hunk, k' := IoCacheReadBlocks(ch, b, todo, nocache, k');
      if ret != Ok {
        break;
      }
      HunkMore(ch.io_blksize, done, hunks);
      ghost var was, at, before := done, b, data;
      hunks := hunks + 1;
      b, left, data, done := b + todo, left - todo, data + hunk, done + todo;
      ReadMore(blocks, blkno, was, at, todo, done, before, hunk, data);
      TouchedMore(order, blkno, was, at, todo, done, nocache);
    }
  }

  /** A successful read returns exactly the bytes of the device. */
  lemma ReadIsDisk(ch: IoChannel, blkno: nat, count: nat, data: seq<byte>)
    requires ChannelOk(ch) && 0 < count && ReadSoFar(ch.blocks, blkno, count, data)
    ensures var location, size := Pos(ch.io_blksize, blkno), Pos(ch.io_blksize, count);
      location + size <= |ch.disk| && data == ch.disk[location..location + size]
  {
    FlatStretch(ch.disk, ch.io_blksize, blkno, count);
  }

  // ---- vectored reads ----

  /** `struct io_vec_unit`, without the buffer. */
  datatype IoVecUnit = IoVecUnit(ivu_blkno: nat, ivu_buflen: nat)

  ghost predicate InDevice(ch: IoChannel, ivu: IoVecUnit)
    reads ch
  {
    Pos(ch.io_blksize, ivu.ivu_blkno) + ivu.ivu_buflen <= |ch.disk|
  }

  /** The bytes of the device that belong in the buffer of a unit. */
  function UnitBytes(ch: IoChannel, ivu: IoVecUnit): seq<byte>
    requires InDevice(ch, ivu)
    reads ch
  {
    ch.disk[Pos(ch.io_blksize, ivu.ivu_blkno)..Pos(ch.io_blksize, ivu.ivu_blkno) + ivu.ivu_buflen]
  }

  /** The order after the units have been touched block by block. */
  ghost function TouchedUnits(order: Lru, ivus: seq<IoVecUnit>, bs: nat, nocache: bool): (r: Lru)
    requires order.Entry? && 0 < bs
    ensures r.Entry?
  {
    if ivus == [] then order
    else
      var before := TouchedUnits(order, ivus[..|ivus| - 1], bs, nocache);
      var ivu := ivus[|ivus| - 1];
      TouchedRun(before, ivu.ivu_blkno, Whole(ivu.ivu_buflen, bs), nocache)
  }

  /** `unix_vec_read_blocks`: fails, or fills every buffer; its submission and its events are
      one call. */
  method UnixVecReadBlocks(ch: IoChannel, ivus: seq<IoVecUnit>, k: nat)
    returns (ret: Errcode, bufs: seq<seq<byte>>, k': nat)
    requires 0 < ch.io_blksize && forall ivu :: ivu in ivus ==> InDevice(ch, ivu)
    ensures ret == Ok ==> |bufs| == |ivus| && forall i :: 0 <= i < |ivus| ==> bufs[i] == UnitBytes(ch, ivus[i])
    ensures k <= k' && (ret == Ok <==> AllGood(ch.io_sys, k, k'))
  {
    bufs := [];
    while |bufs| < |ivus|
      invariant |bufs| <= |ivus| && forall i :: 0 <= i < |bufs| ==> bufs[i] == UnitBytes(ch, ivus[i])
      decreases |ivus| - |bufs|
    {
      bufs := bufs + [UnitBytes(ch, ivus[|bufs|])];
    }
    ret, k' := if ch.io_sys(k) > 0 then Ok else Io, k + 1;
  }

  lemma UnitMatches(ch: IoChannel, ivu: IoVecUnit)
    requires Cut(ch) && InDevice(ch, ivu)
    ensures Matches(ch.blocks, ch.io_blksize, ivu.ivu_blkno, Whole(ivu.ivu_buflen, ch.io_blksize), UnitBytes(ch, ivu))
  {
    WholeBlocks(ivu.ivu_buflen, ch.io_blksize);
    StretchMatches(ch.disk, ch.io_blksize, ivu.ivu_blkno, Whole(ivu.ivu_buflen, ch.io_blksize), UnitBytes(ch, ivu));
  }

  lemma NothingStale(ch: IoChannel, lo: nat, hi: nat)
    ensures hi <= lo ==> (ChannelBut(ch, lo, hi) <==> ChannelBut(ch, 0, 0))
  {
  }

  /** The refresh of the cache with one unit. */
  method RefreshUnit(ch: IoChannel, ivu: IoVecUnit, buf: seq<byte>, nocache: bool)
    requires ChannelOk(ch) && InDevice(ch, ivu) && buf == UnitBytes(ch, ivu)
    modifies ch.io_cache, ch.io_cache.Repr
    ensures ChannelOk(ch)
    ensures Recency(ch.io_cache)
      == TouchedRun(old(Recency(ch.io_cache)), ivu.ivu_blkno, Whole(ivu.ivu_buflen, ch.io_blksize), nocache)
  {
    var numblks := Whole(ivu.ivu_buflen, ch.io_blksize);
    UnitMatches(ch, ivu);
    NothingStale(ch, ivu.ivu_blkno, 0);
    RefreshBlocks(ch, ivu.ivu_blkno, numblks, buf, nocache, 0);
    NothingStale(ch, ivu.ivu_blkno + numblks, 0);
  }

  /** `io_cache_vec_read_blocks`. */
  method IoCacheVecReadBlocks(ch: IoChannel, ivus: seq<IoVecUnit>, nocache: bool, k: nat)
    returns (ret: Errcode, bufs: seq<seq<byte>>, k': nat)
    requires ChannelOk(ch) && forall ivu :: ivu in ivus ==> InDevice(ch, ivu)
    modifies ch.io_cache, ch.io_cache.Repr
    ensures ChannelOk(ch)
    ensures ret == Ok ==> |bufs| == |ivus| && forall i :: 0 <= i < |ivus| ==> bufs[i] == UnitBytes(ch, ivus[i])
    ensures Recency(ch.io_cache)
      == TouchedUnits(old(Recency(ch.io_cache)), if ret == Ok then ivus else [], ch.io_blksize, nocache)
    ensures k <= k' && (ret == Ok <==> AllGood(ch.io_sys, k, k'))
  {
    CacheOpen(ch.io_cache);
    ghost var order := Recency(ch.io_cache);
    ret, bufs, k' := UnixVecReadBlocks(ch, ivus, k);
    if ret != Ok {
      return;
    }
    var i := 0;
    while i < |ivus|
      invariant i <= |ivus| && ChannelOk(ch)
      invariant Recency(ch.io_cache) == TouchedUnits(order, ivus[..i], ch.io_blksize, nocache)
    {
      RefreshUnit(ch, ivus[i], bufs[i], nocache);
      assert ivus[..i + 1][..i] == ivus[..i];
      i := i + 1;
    }
    assert ivus[..i] == ivus;
  }
}
