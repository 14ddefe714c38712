/** The bytes of the device, and the blocks the cache cuts them into. */
module DiskImage {
  import opened BlockCache
  import opened CacheOps

  /** Where block `b` starts. */
  function Pos(bs: nat, b: nat): nat {
    b * bs
  }

  ghost predicate Fits(img: seq<byte>, bs: nat, b: nat) {
    Pos(bs, b) + bs <= |img|
  }

  ghost function BlockAt(img: seq<byte>, bs: nat, b: nat): (r: seq<byte>)
    requires Fits(img, bs, b)
    ensures |r| == bs
  {
    img[Pos(bs, b)..Pos(bs, b) + bs]
  }

  lemma BlockApart(bs: nat, a: nat, b: nat)
    requires a < b
    ensures Pos(bs, a) + bs <= Pos(bs, b)
  {
    assert (a + 1) * bs <= b * bs;
  }

  lemma Distribute(bs: nat, a: nat, b: nat)
    ensures Pos(bs, a + b) == Pos(bs, a) + Pos(bs, b)
  {
  }

  lemma BlockFits(img: seq<byte>, bs: nat, b: nat)
    requires 0 < bs
    ensures Fits(img, bs, b) <==> b < |img| / bs
  {
    var n := |img| / bs;
    assert Pos(bs, n) <= |img| < Pos(bs, n) + bs;
    if b < n {
      BlockApart(bs, b, n);
    } else if n < b {
      BlockApart(bs, n, b);
    }
  }

  lemma Grows(bs: nat, b: nat)
    requires 0 < bs
    ensures b <= Pos(bs, b)
  {
  }

  lemma FewBlocks(tot: nat, bs: nat)
    requires 0 < bs
    ensures tot / bs <= tot
  {
    WholeBlocks(tot, bs);
    Grows(bs, Whole(tot, bs));
  }

  lemma BlockCount(img: seq<byte>, bs: nat)
    requires 0 < bs
    ensures forall b: nat :: Fits(img, bs, b) <==> b < |img| / bs
  {
    forall b: nat
      ensures Fits(img, bs, b) <==> b < |img| / bs
    {
      BlockFits(img, bs, b);
    }
  }

  /** The device as a sequence of blocks. */
  ghost function Blocks(img: seq<byte>, bs: nat): (r: seq<seq<byte>>)
    requires 0 < bs
    ensures |r| <= |img|
    ensures forall b :: 0 <= b < |r| ==> Fits(img, bs, b) && r[b] == BlockAt(img, bs, b)
    ensures forall b: nat :: Fits(img, bs, b) ==> b < |r|
  {
    BlockCount(img, bs);
    FewBlocks(|img|, bs);
    seq(|img| / bs, b requires 0 <= b < |img| / bs => BlockAt(img, bs, b))
  }

  /** Every descriptor that names a block outside `lo..hi` holds the bytes of that block. */
  ghost predicate Coherent(keys: seq<nat>, data: seq<seq<byte>>, blocks: seq<seq<byte>>, lo: nat, hi: nat) {
    |keys| == |data| && forall i :: 0 <= i < |keys| && keys[i] != UINT64_MAX && !(lo <= keys[i] < hi) ==>
      keys[i] < |blocks| && data[i] == blocks[keys[i]]
  }

  /** The device after `bytes` were written at `location`. */
  ghost function Written(img: seq<byte>, location: nat, bytes: seq<byte>): (r: seq<byte>)
    requires bytes == [] || location + |bytes| <= |img|
    ensures |r| == |img|
  {
    if bytes == [] then img else img[..location] + bytes + img[location + |bytes|..]
  }

  lemma WrittenAt(img: seq<byte>, location: nat, bytes: seq<byte>, k: nat)
    requires bytes == [] || location + |bytes| <= |img|
    requires k < |img|
    ensures Written(img, location, bytes)[k] == if location <= k < location + |bytes| then bytes[k - location]
      else img[k]
  {
  }

  /** Two writes one after the other are one write. */
  lemma WrittenTwice(img: seq<byte>, location: nat, a: seq<byte>, b: seq<byte>)
    requires a + b == [] || location + |a| + |b| <= |img|
    ensures Written(Written(img, location, a), location + |a|, b) == Written(img, location, a + b)
  {
  }

  /** How many whole blocks there are in `tot` bytes, and whether part of one is left. */
  function Whole(tot: nat, bs: nat): nat
    requires 0 < bs
  {
    tot / bs
  }

  ghost function Torn(tot: nat, bs: nat): (t: nat)
    requires 0 < bs
    ensures t <= 1
  {
    if tot % bs == 0 then 0 else 1
  }

  lemma WholeBlocks(tot: nat, bs: nat)
    requires 0 < bs
    ensures Pos(bs, Whole(tot, bs)) <= tot <= Pos(bs, Whole(tot, bs) + Torn(tot, bs))
  {
  }

  lemma WholePos(bs: nat, n: nat)
    requires 0 < bs
    ensures Whole(Pos(bs, n), bs) == n && Torn(Pos(bs, n), bs) == 0
  {
    var q, r := Pos(bs, n) / bs, Pos(bs, n) % bs;
    assert Pos(bs, q) + r == Pos(bs, n);
    if q < n {
      BlockApart(bs, q, n);
    } else if n < q {
      BlockApart(bs, n, q);
    }
  }

  /** A block apart from the bytes written keeps its contents. */
  lemma BlockKept(img: seq<byte>, bs: nat, location: nat, bytes: seq<byte>, b: nat)
    requires bytes == [] || location + |bytes| <= |img|
    requires Fits(img, bs, b) && (Pos(bs, b) + bs <= location || location + |bytes| <= Pos(bs, b))
    ensures Fits(Written(img, location, bytes), bs, b)
    ensures BlockAt(Written(img, location, bytes), bs, b) == BlockAt(img, bs, b)
  {
  }

  /** A write of `tot` bytes can only make the blocks it reaches stale. */
  lemma WriteCoherent(keys: seq<nat>, data: seq<seq<byte>>, img: seq<byte>, bs: nat, blkno: nat, bytes: seq<byte>,
                      hi: nat)
    requires 0 < bs && Coherent(keys, data, Blocks(img, bs), 0, 0)
    requires bytes == [] || Pos(bs, blkno) + |bytes| <= |img|
    requires Pos(bs, blkno) + |bytes| <= Pos(bs, hi)
    ensures Coherent(keys, data, Blocks(Written(img, Pos(bs, blkno), bytes), bs), blkno, hi)
  {
    var img' := Written(img, Pos(bs, blkno), bytes);
    forall i | 0 <= i < |keys| && keys[i] != UINT64_MAX && !(blkno <= keys[i] < hi)
      ensures keys[i] < |Blocks(img', bs)| && data[i] == Blocks(img', bs)[keys[i]]
    {
      if keys[i] < blkno {
        BlockApart(bs, keys[i], blkno);
      } else if hi < keys[i] {
        BlockApart(bs, hi, keys[i]);
      }
      BlockKept(img, bs, Pos(bs, blkno), bytes, keys[i]);
    }
  }

  /** `data` starts with the bytes of the `n` blocks from `b` on. */
  ghost predicate Matches(blocks: seq<seq<byte>>, bs: nat, b: nat, n: nat, data: seq<byte>)
    decreases n
  {
    n == 0 || (b < |blocks| && bs <= |data| && data[..bs] == blocks[b] && Matches(blocks, bs, b + 1, n - 1, data[bs..]))
  }

  lemma MatchesStep(blocks: seq<seq<byte>>, bs: nat, b: nat, n: nat, data: seq<byte>)
    requires 0 < n && Matches(blocks, bs, b, n, data)
    ensures b < |blocks| && bs <= |data| && data[..bs] == blocks[b] && Matches(blocks, bs, b + 1, n - 1, data[bs..])
  {
  }

  /** Bytes equal to a stretch of the device match its blocks. */
  lemma {:induction false} StretchMatches(img: seq<byte>, bs: nat, b: nat, n: nat, data: seq<byte>)
    requires 0 < bs && Pos(bs, n) <= |data| && (n == 0 || Pos(bs, b) + Pos(bs, n) <= |img|)
    requires forall k :: 0 <= k < Pos(bs, n) ==> data[k] == img[Pos(bs, b) + k]
    ensures Matches(Blocks(img, bs), bs, b, n, data)
    decreases n
  {
    if n > 0 {
      Distribute(bs, 1, n - 1);
      Distribute(bs, b, 1);
      assert Fits(img, bs, b) && data[..bs] == BlockAt(img, bs, b);
      StretchMatches(img, bs, b + 1, n - 1, data[bs..]);
    }
  }

  /** The whole blocks a write moved are on the device. */
  lemma WrittenMatches(img: seq<byte>, bs: nat, blkno: nat, data: seq<byte>, tot: nat)
    requires 0 < bs && tot <= |data| && (tot == 0 || Pos(bs, blkno) + tot <= |img|)
    ensures Matches(Blocks(Written(img, Pos(bs, blkno), data[..tot]), bs), bs, blkno, Whole(tot, bs), data)
  {
    var img', n := Written(img, Pos(bs, blkno), data[..tot]), Whole(tot, bs);
    WholeBlocks(tot, bs);
    forall k | 0 <= k < Pos(bs, n)
      ensures data[k] == img'[Pos(bs, blkno) + k]
    {
      WrittenAt(img, Pos(bs, blkno), data[..tot], Pos(bs, blkno) + k);
    }
    StretchMatches(img', bs, blkno, n, data);
  }

  /** Once the descriptor of `b` holds the bytes of `b`, that block is not stale any more. */
  lemma CoherentStep(keys: seq<nat>, data: seq<seq<byte>>, keys': seq<nat>, data': seq<seq<byte>>,
                     blocks: seq<seq<byte>>, b: nat, hi: nat, bytes: seq<byte>)
    requires Coherent(keys, data, blocks, b, hi) && OnlyChanged(keys, data, keys', data', b, bytes)
    requires b < |blocks| && bytes == blocks[b]
    ensures Coherent(keys', data', blocks, b + 1, hi)
  {
  }

  /** The bytes of the `n` blocks from `b` on. */
  ghost function Flat(blocks: seq<seq<byte>>, b: nat, n: nat): seq<byte>
    requires b + n <= |blocks|
    decreases n
  {
    if n == 0 then [] else blocks[b] + Flat(blocks, b + 1, n - 1)
  }

  lemma FlatStep(blocks: seq<seq<byte>>, b: nat, n: nat, b': nat, n': nat, out: seq<byte>, out': seq<byte>,
                 all: seq<byte>)
    requires 0 < n && b + n <= |blocks| && out + Flat(blocks, b, n) == all
    requires b' == b + 1 && n' == n - 1 && out' == out + blocks[b]
    ensures b' + n' <= |blocks| && out' + Flat(blocks, b', n') == all
  {
  }

  lemma {:induction false} FlatStretch(img: seq<byte>, bs: nat, b: nat, n: nat)
    requires 0 < bs && b + n <= |Blocks(img, bs)|
    ensures 0 < n ==>
      && Pos(bs, b) + Pos(bs, n) <= |img|
      && Flat(Blocks(img, bs), b, n) == img[Pos(bs, b)..Pos(bs, b) + Pos(bs, n)]
    decreases n
  {
    if n > 0 {
      Distribute(bs, 1, n - 1);
      Distribute(bs, b, 1);
      FlatStretch(img, bs, b + 1, n - 1);
      assert Fits(img, bs, b);
    }
  }

  lemma {:induction false} FlatSplit(blocks: seq<seq<byte>>, b: nat, m: nat, n: nat)
    requires b + m + n <= |blocks|
    ensures Flat(blocks, b, m) + Flat(blocks, b + m, n) == Flat(blocks, b, m + n)
    decreases m
  {
    if m > 0 {
      FlatSplit(blocks, b + 1, m - 1, n);
      assert blocks[b] + Flat(blocks, b + 1, m - 1) + Flat(blocks, b + m, n)
        == blocks[b] + (Flat(blocks, b + 1, m - 1) + Flat(blocks, b + 1 + (m - 1), n));
    }
  }

  lemma {:induction false} MatchesFits(blocks: seq<seq<byte>>, bs: nat, b: nat, n: nat, data: seq<byte>)
    requires Matches(blocks, bs, b, n, data)
    ensures 0 < n ==> b + n <= |blocks|
    decreases n
  {
    if n > 1 {
      MatchesFits(blocks, bs, b + 1, n - 1, data[bs..]);
    }
  }
}
