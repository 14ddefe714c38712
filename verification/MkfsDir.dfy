/** mkfs.c: laying out the records of a new directory. */
module MkfsDir {
  import opened Common
  import opened BlockCache
  import opened DirBlock
  import opened Lookup

  const CMFS_FT_DIR := 2

  /** `b` with `s` written at `at`. */
  function Spliced(b: seq<byte>, at: nat, s: seq<byte>): (r: seq<byte>)
    requires at + |s| <= |b|
    ensures |r| == |b|
  {
    b[..at] + s + b[at + |s|..]
  }

  lemma SplicedAt(b: seq<byte>, at: nat, s: seq<byte>, k: nat)
    requires at + |s| <= |b| && k < |b|
    ensures Spliced(b, at, s)[k] == if at <= k < at + |s| then s[k - at] else b[k]
  {
  }

  lemma SplicedIn(front: seq<byte>, b: seq<byte>, at: nat, s: seq<byte>)
    requires at + |s| <= |b|
    ensures Spliced(front + b, |front| + at, s) == front + Spliced(b, at, s)
  {
  }

  method Put(buf: array<byte>, at: nat, s: seq<byte>)
    requires at + |s| <= buf.Length
    modifies buf
    ensures buf[..] == Spliced(old(buf[..]), at, s)
  {
    var i := 0;
    while i < |s|
      invariant i <= |s|
      invariant forall k :: 0 <= k < buf.Length ==> buf[k] == if at <= k < at + i then s[k - at] else old(buf[k])
    {
      buf[at + i] := s[i];
      i := i + 1;
    }
  }

  /** `Put`, seen from the start of the last block. */
  method PutLast(buf: array<byte>, at: nat, s: seq<byte>, ghost front: seq<byte>, ghost b: seq<byte>, ghost o: nat)
    returns (ghost b': seq<byte>)
    requires buf[..] == front + b && at == |front| + o && o + |s| <= |b|
    modifies buf
    ensures b' == Spliced(b, o, s) && buf[..] == front + b'
  {
    b' := Spliced(b, o, s);
    SplicedIn(front, b, o, s);
    Put(buf, at, s);
  }

  // ---- one block ----

  /** A record with this length field. */
  function WithRecLen(b: seq<byte>, o: nat, len: nat): seq<byte>
    requires o + 12 <= |b|
  {
    Spliced(b, o + 8, ToBytes(len, 2))
  }

  lemma WithRecLenAt(b: seq<byte>, o: nat, len: nat, k: nat)
    requires o + 12 <= |b| && len < 65536 && k < |b|
    ensures RecLen(WithRecLen(b, o, len), o) == len
    ensures k != o + 8 && k != o + 9 ==> WithRecLen(b, o, len)[k] == b[k]
  {
    assert ToBytes(len, 2) == [len % 256, len / 256 % 256] by {
      assert ToBytes(len / 256, 1) == [len / 256 % 256] + ToBytes(len / 256 / 256, 0);
    }
    SplicedAt(b, o + 8, ToBytes(len, 2), k);
  }

  /** The record at `o` filled in, its length kept. */
  function Filled(b: seq<byte>, o: nat, d: Dirent): seq<byte>
    requires o + 12 + |d.name| <= |b| && |d.name| < 256 && d.file_type < 256
  {
    Spliced(Spliced(Spliced(Spliced(b, o + 10, [|d.name|]), o, ToBytes(d.inode, 8)), o + 11, [d.file_type]),
            o + 12, d.name)
  }

  lemma FilledAt(b: seq<byte>, o: nat, d: Dirent, k: nat)
    requires o + 12 + |d.name| <= |b| && |d.name| < 256 && d.file_type < 256 && k < |b|
    ensures Filled(b, o, d)[k] ==
      if k < o || k >= o + 12 + |d.name| || k == o + 8 || k == o + 9 then b[k]
      else if k < o + 8 then ToBytes(d.inode, 8)[k - o]
      else if k == o + 10 then |d.name|
      else if k == o + 11 then d.file_type
      else d.name[k - o - 12]
  {
    var b1 := Spliced(b, o + 10, [|d.name|]);
    var b2 := Spliced(b1, o, ToBytes(d.inode, 8));
    var b3 := Spliced(b2, o + 11, [d.file_type]);
    SplicedAt(b, o + 10, [|d.name|], k);
    SplicedAt(b1, o, ToBytes(d.inode, 8), k);
    SplicedAt(b2, o + 11, [d.file_type], k);
    SplicedAt(b3, o + 12, d.name, k);
  }

  /** `f` is `b` with the record at `o` filled in, its length kept. */
  ghost predicate FilledIn(b: seq<byte>, f: seq<byte>, o: nat, d: Dirent) {
    && o + 12 <= |f| == |b| && f[..o] == b[..o] && RecLen(f, o) == RecLen(b, o)
    && GoodRecord(f, 12, o) && Inode(f, o) == d.inode && DirentAt(f, o) == d
  }

  lemma FilledRecord(b: seq<byte>, f: seq<byte>, o: nat, d: Dirent)
    requires o + 12 + |d.name| <= |b| && |d.name| < 256 && d.file_type < 256 && d.inode < Power256(8)
      && f == Filled(b, o, d)
    requires DirRecLen(|d.name|) <= RecLen(b, o) && RecLen(b, o) % 4 == 0
    ensures FilledIn(b, f, o, d)
  {
    forall k | 0 <= k < |b| {
      FilledAt(b, o, d, k);
    }
    assert f[..o] == b[..o];
    assert f[o..o + 8] == ToBytes(d.inode, 8);
    BytesRoundTrip(f, o, d.inode, 8);
    BytesAtSlice(f, o + 12, |d.name|);
    assert f[o + 12..o + 12 + |d.name|] == d.name;
  }

  /** The block ends with the record at `lo`. */
  predicate LastRecord(b: seq<byte>, lo: nat) {
    Chain(b, 12, 0, lo) && GoodRecord(b, 12, lo) && lo + RecLen(b, lo) == |b|
  }

  /** A chain and one more record. */
  lemma EndsAt(b: seq<byte>, lo: nat, end: nat)
    requires Chain(b, 12, 0, lo) && GoodRecord(b, 12, lo) && end == lo + RecLen(b, lo)
    ensures Chain(b, 12, 0, end) && Chain(b, 8, 0, end) && Chain(b, 8, 0, lo)
    ensures Entries(b, 0, end) == Entries(b, 0, lo) + [DirentAt(b, lo)]
  {
    assert Chain(b, 12, end, end) && Chain(b, 12, lo, end);
    ChainJoin(b, 12, 0, lo, end);
    ChainSmaller(b, 0, end);
    ChainSmaller(b, 0, lo);
    ChainSmaller(b, lo, end);
    EntriesJoin(b, 0, lo, end);
    assert Entries(b, end, end) == [];
    assert Entries(b, lo, end) == [DirentAt(b, lo)];
  }

  /** The last record cut to what its name needs; a record with the rest follows it. */
  function Split(b: seq<byte>, lo: nat): seq<byte>
    requires lo + 12 <= |b| && lo + DirRecLen(NameLen(b, lo)) + 12 <= |b| && DirRecLen(NameLen(b, lo)) <= RecLen(b, lo)
  {
    var used := DirRecLen(NameLen(b, lo));
    WithRecLen(WithRecLen(b, lo + used, RecLen(b, lo) - used), lo, used)
  }

  lemma {:induction false} SplitBytes(b: seq<byte>, lo: nat, at: nat)
    requires lo + 12 <= |b| && at == lo + DirRecLen(NameLen(b, lo)) && at + 12 <= |b| && |b| < 65536
    requires DirRecLen(NameLen(b, lo)) <= RecLen(b, lo) <= |b|
    ensures var s := Split(b, lo);
      && |s| == |b| && s[..lo] == b[..lo] && RecLen(s, lo) == at - lo && RecLen(s, at) == lo + RecLen(b, lo) - at
      && NameLen(s, lo) == NameLen(b, lo) && DirentAt'(s, lo) == DirentAt'(b, lo)
  {
    var used, rest := at - lo, lo + RecLen(b, lo) - at;
    var b1, s := WithRecLen(b, at, rest), Split(b, lo);
    forall k | 0 <= k < |b|
      ensures k !in {lo + 8, lo + 9, at + 8, at + 9} ==> s[k] == b[k]
    {
      WithRecLenAt(b, at, rest, k);
      WithRecLenAt(b1, lo, used, k);
    }
    WithRecLenAt(b, at, rest, 0);
    WithRecLenAt(b1, lo, used, at + 8);
    WithRecLenAt(b1, lo, used, at + 9);
    assert s[..lo] == b[..lo];
    assert s[lo..lo + 8] == b[lo..lo + 8];
    SameNumber(s, lo, b, lo, 8);
    BytesAtSlice(s, lo + 12, NameLen(b, lo));
    BytesAtSlice(b, lo + 12, NameLen(b, lo));
    assert s[lo + 12..lo + 12 + NameLen(b, lo)] == b[lo + 12..lo + 12 + NameLen(b, lo)];
  }

  /** The entry at `o`, whatever its length field says. */
  function DirentAt'(b: seq<byte>, o: nat): Dirent
    requires o + 12 <= |b| && o + 12 + NameLen(b, o) <= |b|
  {
    Dirent(Inode(b, o), FileType(b, o), Name(b, o))
  }

  lemma DirRecLenWhole(n: nat)
    ensures DirRecLen(n) % 4 == 0 && n + 12 <= DirRecLen(n) <= n + 15
  {
  }

  lemma GoodSplit(s: seq<byte>, lo: nat, at: nat)
    requires lo + 12 <= |s| && at == lo + DirRecLen(NameLen(s, lo)) && RecLen(s, lo) == at - lo
    ensures GoodRecord(s, 12, lo)
  {
  }

  lemma SplitRecord(b: seq<byte>, lo: nat, at: nat)
    requires LastRecord(b, lo) && |b| < 65536 && at == lo + DirRecLen(NameLen(b, lo))
    requires DirRecLen(NameLen(b, lo)) + 12 <= RecLen(b, lo)
    ensures var s := Split(b, lo);
      && |s| == |b| && Chain(s, 12, 0, at) && Chain(s, 8, 0, at) && Chain(b, 8, 0, |b|)
      && Entries(s, 0, at) == Entries(b, 0, |b|) && RecLen(s, at) == |b| - at
  {
    var s := Split(b, lo);
    SplitBytes(b, lo, at);
    GoodSplit(s, lo, at);
    ChainFrame(b, s, 0, lo);
    EndsAt(b, lo, |b|);
    EndsAt(s, lo, at);
  }

  /** The rest that is split off is whole words. */
  lemma SplitRest(b: seq<byte>, lo: nat, at: nat)
    requires LastRecord(b, lo) && at == lo + DirRecLen(NameLen(b, lo)) <= |b|
    ensures (|b| - at) % 4 == 0
  {
  }

  /** A block whose free last record is filled in has one more entry. */
  lemma FilledBlock(b: seq<byte>, f: seq<byte>, at: nat, d: Dirent)
    requires FilledIn(b, f, at, d) && Chain(b, 12, 0, at) && Chain(b, 8, 0, at) && at + RecLen(b, at) == |b|
    ensures LastRecord(f, at) && Chain(f, 8, 0, |f|) && Chain(f, 12, 0, |f|)
      && Entries(f, 0, |f|) == Entries(b, 0, at) + [d]
  {
    ChainFrame(b, f, 0, at);
    EndsAt(f, at, |f|);
  }

  // ---- the directory ----

  ghost function Join(blocks: seq<seq<byte>>): seq<byte> {
    if blocks == [] then [] else Join(blocks[..|blocks| - 1]) + blocks[|blocks| - 1]
  }

  lemma JoinMore(blocks: seq<seq<byte>>, b: seq<byte>)
    ensures Join(blocks + [b]) == Join(blocks) + b
  {
  }

  /** The block ends with a record that is in use.  Here and in `RoomAt` the
      quantifier keeps the verifier from looking inside until it is opened. */
  ghost predicate LastInUse(b: seq<byte>, lo: nat) {
    forall o {:trigger LastRecord(b, o)} :: o == lo ==> LastRecord(b, o) && Inode(b, o) != 0
  }

  lemma LastOpen(b: seq<byte>, lo: nat)
    requires LastInUse(b, lo)
    ensures LastRecord(b, lo) && Inode(b, lo) != 0
  {
  }

  /** Blocks of one size, tiled by records. */
  ghost predicate Full(blocks: seq<seq<byte>>, bs: nat) {
    Tiled(blocks) && forall k :: 0 <= k < |blocks| ==> |blocks[k]| == bs
  }

  lemma EntriesMore(front: seq<seq<byte>>, b: seq<byte>)
    requires Tiled(front) && Chain(b, 12, 0, |b|)
    ensures Tiled(front + [b]) && Chain(b, 8, 0, |b|)
      && AllEntries(front + [b]) == AllEntries(front) + Entries(b, 0, |b|)
  {
    ChainSmaller(b, 0, |b|);
    assert (front + [b])[..|front|] == front;
  }

  /** `DirData`, with the size and the link count of its record. */
  class DirData {
    const blocksize: nat
    var buf: array?<byte>
    var last_off: nat
    var file_size: nat
    var links: nat
    /** The bytes of all blocks but the last, and of the last. */
    ghost var front: seq<seq<byte>>
    ghost var last: seq<byte>

    constructor (blocksize: nat)
      requires 268 <= blocksize < 65536 && blocksize % 4 == 0
      ensures Valid() && Held() == [] && links == 0 && this.blocksize == blocksize && buf == null
    {
      this.blocksize := blocksize;
      buf, last_off, file_size, links, front, last := null, 0, 0, 0, [], [];
    }

    /** Where the last block starts. */
    ghost function Base(): nat
      reads this
    {
      |Join(front)|
    }

    /** The buffer holds the blocks. */
    ghost predicate Stored()
      reads this, buf
    {
      && 268 <= blocksize < 65536 && blocksize % 4 == 0 && Full(front, blocksize)
      && if buf == null then front == [] && file_size == 0
         else |last| == blocksize && buf.Length == file_size == Base() + blocksize && buf[..] == Join(front) + last
    }

    ghost predicate Valid()
      reads this, buf
    {
      && Stored() && Tiled(Blocks())
      && (buf != null ==> Base() <= last_off && LastInUse(last, last_off - Base()))
    }

    ghost function Blocks(): seq<seq<byte>>
      reads this
    {
      if buf == null then [] else front + [last]
    }

    /** The entries of the directory. */
    ghost function Held(): seq<Dirent>
      requires Tiled(Blocks())
      reads this
    {
      AllEntries(Blocks())
    }

    lemma BlocksFull()
      requires Valid()
      ensures Full(Blocks(), blocksize) && file_size == |Join(Blocks())|
      ensures buf != null ==> buf[..] == Join(Blocks())
    {
    }
  }

  /** The old bytes, and zeros after them. */
  method Enlarged(buf: array?<byte>, size: nat, new_size: nat) returns (new_buf: array<byte>)
    requires size <= new_size && if buf == null then size == 0 else buf.Length == size
    ensures fresh(new_buf) && new_buf.Length == new_size
    ensures new_buf[..size] == if buf == null then [] else buf[..]
  {
    new_buf := new byte[new_size](i => 0);
    if buf != null {
      var i := 0;
      while i < size
        invariant i <= size && forall k :: 0 <= k < i ==> new_buf[k] == buf[k]
        modifies new_buf
      {
        new_buf[i] := buf[i];
        i := i + 1;
      }
      assert new_buf[..size] == buf[..];
    }
  }

  /** A record of at least `len` bytes is free at `at`, at the end of the block. */
  ghost predicate FreeAt(b: seq<byte>, at: nat, len: nat) {
    && at + 12 <= |b| && Chain(b, 12, 0, at) && Chain(b, 8, 0, at) && at + RecLen(b, at) == |b|
    && RecLen(b, at) % 4 == 0 && len <= RecLen(b, at)
  }

  lemma FreshBlock(zeros: seq<byte>, bs: nat)
    requires |zeros| == bs && 268 <= bs < 65536 && bs % 4 == 0
    ensures FreeAt(WithRecLen(zeros, 0, bs), 0, bs) && Entries(WithRecLen(zeros, 0, bs), 0, 0) == []
  {
    WithRecLenAt(zeros, 0, bs, 0);
  }

  /** There is room for a record of `len` bytes at `de`, after the entries `sofar`. */
  ghost predicate Room(d: DirData, de: nat, len: nat, sofar: seq<Dirent>)
    reads d, d.buf
  {
    d.buf != null && d.Stored() && d.Base() <= de && RoomAt(d.front, d.last, de - d.Base(), len, sofar)
  }

  ghost predicate RoomAt(front: seq<seq<byte>>, last: seq<byte>, at: nat, len: nat, sofar: seq<Dirent>) {
    forall o {:trigger FreeAt(last, o, len)} :: o == at ==>
      Tiled(front) && FreeAt(last, o, len) && sofar == AllEntries(front) + Entries(last, 0, o)
  }

  lemma RoomOpen(front: seq<seq<byte>>, last: seq<byte>, at: nat, len: nat, sofar: seq<Dirent>)
    requires RoomAt(front, last, at, len, sofar)
    ensures Tiled(front) && FreeAt(last, at, len) && sofar == AllEntries(front) + Entries(last, 0, at)
  {
  }

  /** The room in a new block. */
  lemma RoomInNew(blocks: seq<seq<byte>>, zeros: seq<byte>, b: seq<byte>, bs: nat, len: nat)
    requires Tiled(blocks) && |zeros| == bs && 268 <= bs < 65536 && bs % 4 == 0 && len <= bs
    requires b == WithRecLen(zeros, 0, bs)
    ensures RoomAt(blocks, b, 0, len, AllEntries(blocks))
  {
    FreshBlock(zeros, bs);
    assert AllEntries(blocks) + [] == AllEntries(blocks);
  }

  /** The room split off the last record. */
  lemma RoomSplitOff(front: seq<seq<byte>>, last: seq<byte>, b: seq<byte>, lo: nat, at: nat, len: nat)
    requires Tiled(front) && Tiled(front + [last]) && LastRecord(last, lo) && |last| < 65536
    requires at == lo + DirRecLen(NameLen(last, lo)) && 12 <= len
      && DirRecLen(NameLen(last, lo)) + len <= RecLen(last, lo)
    requires b == Split(last, lo)
    ensures RoomAt(front, b, at, len, AllEntries(front + [last]))
  {
    SplitRecord(last, lo, at);
    SplitFree(last, lo, at, len, |last| - at);
    EndsAt(last, lo, |last|);
    EntriesMore(front, last);
  }

  lemma SplitFree(last: seq<byte>, lo: nat, at: nat, len: nat, rest: nat)
    requires LastRecord(last, lo) && |last| < 65536 && at == lo + DirRecLen(NameLen(last, lo)) && at + rest == |last|
    requires 12 <= len <= rest
    ensures DirRecLen(NameLen(last, lo)) + 12 <= RecLen(last, lo) && FreeAt(Split(last, lo), at, len)
  {
    SplitRest(last, lo, at);
    assert rest % 4 == 0;
    SplitRecord(last, lo, at);
    FreeNow(Split(last, lo), at, len, rest);
  }

  lemma FreeNow(b: seq<byte>, at: nat, len: nat, rest: nat)
    requires at + 12 <= |b| && Chain(b, 12, 0, at) && Chain(b, 8, 0, at) && RecLen(b, at) == rest
    requires at + rest == |b| && rest % 4 == 0 && len <= rest
    ensures FreeAt(b, at, len)
  {
  }

  /** `dir->buf` grown by a block that is one free record. */
  method Grow(d: DirData, len: nat) returns (de: nat)
    requires d.Valid() && len <= d.blocksize
    modifies d
    ensures Room(d, de, len, old(d.Held())) && fresh(d.buf) && d.links == old(d.links)
  {
    ghost var blocks := d.Blocks();
    d.BlocksFull();
    var new_size := d.file_size + d.blocksize;
    var new_buf := Enlarged(d.buf, d.file_size, new_size);
    de := d.file_size;
    ghost var zeros := new_buf[de..];
    assert new_buf[..] == Join(blocks) + zeros;
    ghost var b := PutLast(new_buf, de + 8, ToBytes(d.blocksize, 2), Join(blocks), zeros, 8);
    RoomInNew(blocks, zeros, b, d.blocksize, len);
    d.buf, d.file_size, d.front, d.last := new_buf, new_size, blocks, b;
  }

  /** The last record cut to size, the rest of it free. */
  method SplitLast(buf: array<byte>, last_off: nat, used: nat, rec_len: nat, ghost front: seq<byte>,
                   ghost last: seq<byte>, ghost lo: nat)
    returns (ghost b: seq<byte>)
    requires buf[..] == front + last && last_off == |front| + lo && lo + 12 <= |last|
    requires used == DirRecLen(NameLen(last, lo)) && rec_len == RecLen(last, lo) && used <= rec_len
      && lo + used + 12 <= |last|
    modifies buf
    ensures buf[..] == front + b && b == Split(last, lo)
  {
    ghost var b1 := PutLast(buf, last_off + used + 8, ToBytes(rec_len - used, 2), front, last, lo + used + 8);
    b := PutLast(buf, last_off + 8, ToBytes(used, 2), front, b1, lo + 8);
  }

  /** A record of the last block, addressed in the whole directory. */
  lemma SameFields(front: seq<byte>, b: seq<byte>, o: nat)
    requires o + 12 <= |b|
    ensures RecLen(front + b, |front| + o) == RecLen(b, o) && NameLen(front + b, |front| + o) == NameLen(b, o)
    ensures Inode(front + b, |front| + o) == Inode(b, o)
  {
  }

  /** The directory once the free record is filled in. */
  lemma {:induction false} FilledDir(front: seq<seq<byte>>, b: seq<byte>, f: seq<byte>, at: nat, len: nat, e: Dirent,
                                     sofar: seq<Dirent>)
    requires RoomAt(front, b, at, len, sofar) && FilledIn(b, f, at, e) && e.inode != 0
    ensures LastInUse(f, at) && Tiled(front + [f]) && AllEntries(front + [f]) == sofar + [e]
  {
    RoomOpen(front, b, at, len, sofar);
    FilledBlock(b, f, at, e);
    EntriesMore(front, f);
    assert AllEntries(front) + (Entries(b, 0, at) + [e]) == AllEntries(front) + Entries(b, 0, at) + [e];
  }

  /** The four fields of the new record. */
  method FillIn(buf: array<byte>, de: nat, e: Dirent, ghost blocks: seq<seq<byte>>, ghost b: seq<byte>, ghost at: nat,
                ghost sofar: seq<Dirent>)
    returns (ghost f: seq<byte>)
    requires buf[..] == Join(blocks) + b && de == |Join(blocks)| + at
      && RoomAt(blocks, b, at, DirRecLen(|e.name|), sofar)
    requires |e.name| < 256 && e.file_type < 256 && 0 != e.inode < Power256(8)
    modifies buf
    ensures buf[..] == Join(blocks) + f && |f| == |b|
    ensures LastInUse(f, at) && Tiled(blocks + [f]) && AllEntries(blocks + [f]) == sofar + [e]
  {
    ghost var front := Join(blocks);
    RoomOpen(blocks, b, at, DirRecLen(|e.name|), sofar);
    DirRecLenWhole(|e.name|);
    ghost var b1 := PutLast(buf, de + 10, [|e.name|], front, b, at + 10);
    ghost var b2 := PutLast(buf, de, ToBytes(e.inode, 8), front, b1, at);
    ghost var b3 := PutLast(buf, de + 11, [e.file_type], front, b2, at + 11);
    f := PutLast(buf, de + 12, e.name, front, b3, at + 12);
    FilledRecord(b, f, at, e);
    FilledDir(blocks, b, f, at, DirRecLen(|e.name|), e, sofar);
  }

  /** Reading the last record in the whole directory. */
  method LastFields(buf: array<byte>, last_off: nat, ghost front: seq<byte>, ghost last: seq<byte>, ghost lo: nat)
    returns (inode: nat, rec_len: nat, name_len: nat)
    requires buf[..] == front + last && last_off == |front| + lo && lo + 12 <= |last|
    ensures inode == Inode(last, lo) && rec_len == RecLen(last, lo) && name_len == NameLen(last, lo)
  {
    SameFields(front, last, lo);
    inode, rec_len, name_len := Inode(buf[..], last_off), RecLen(buf[..], last_off), NameLen(buf[..], last_off);
  }

  /** The room in what the last record does not use, if there is enough of it. */
  method RoomInLast(d: DirData, new_rec_len: nat) returns (fits: bool, de: nat)
    requires d.Valid() && d.buf != null && 12 <= new_rec_len
    modifies d`last, d.buf
    ensures fits ==> Room(d, de, new_rec_len, old(d.Held()))
    ensures !fits ==> d.Valid() && d.Held() == old(d.Held())
  {
    ghost var front, last, lo := Join(d.front), d.last, d.last_off - d.Base();
    LastOpen(last, lo);
    var inode, rec_len, name_len := LastFields(d.buf, d.last_off, front, last, lo);
    var real_len := DirRecLen(name_len);
    fits := (inode == 0 && rec_len >= new_rec_len) || rec_len >= real_len + new_rec_len;
    de := d.last_off;
    if fits && inode != 0 {
      ghost var b := SplitLast(d.buf, d.last_off, real_len, rec_len, front, last, lo);
      RoomSplitOff(d.front, last, b, lo, lo + real_len, new_rec_len);
      d.last := b;
      de := de + real_len;
    }
  }

  /** The room for a record of `new_rec_len` bytes: in the last block or in a new one. */
  method MakeRoom(d: DirData, new_rec_len: nat) returns (de: nat)
    requires d.Valid() && 12 <= new_rec_len <= d.blocksize
    modifies d, d.buf
    ensures Room(d, de, new_rec_len, old(d.Held())) && (fresh(d.buf) || d.buf == old(d.buf)) && d.links == old(d.links)
  {
    if d.buf != null {
      var fits;
      fits, de := RoomInLast(d, new_rec_len);
      if fits {
        return;
      }
    }
    de := Grow(d, new_rec_len);
  }

  /** The inode number that mkfs gives to a record at this byte of the device. */
  function InodeOf(byte_off: nat, blocksize: nat): nat
    requires 0 < blocksize
  {
    byte_off / blocksize
  }

  /** The byte of the device is in the block with this number. */
  ghost predicate InBlock(blocksize: nat, byte_off: nat, blkno: nat) {
    blkno * blocksize <= byte_off < (blkno + 1) * blocksize
  }

  /** The byte is in a block whose number is not 0 and fits 64 bits. */
  ghost predicate Numbered(blocksize: nat, byte_off: nat) {
    blocksize <= byte_off < 0x1_0000_0000_0000_0000 * blocksize
  }

  lemma InodeOfExact(byte_off: nat, blocksize: nat)
    requires 0 < blocksize
    ensures InBlock(blocksize, byte_off, InodeOf(byte_off, blocksize))
    ensures Numbered(blocksize, byte_off) ==> 0 < InodeOf(byte_off, blocksize) < Power256(8)
  {
    var i := InodeOf(byte_off, blocksize);
    assert byte_off == i * blocksize + byte_off % blocksize;
    if i >= 0x1_0000_0000_0000_0000 {
      Larger(i, 0x1_0000_0000_0000_0000, blocksize);
    }
    assert Power256(8) == 0x1_0000_0000_0000_0000 by {
      assert Power256(4) == 0x1_0000_0000;
    }
  }

  lemma Larger(a: nat, b: nat, c: nat)
    requires a >= b
    ensures a * c >= b * c
  {
  }

  /** `add_entry_to_directory`: the directory has one more entry, after all others; its
      inode is the number of the block that the byte is in. */
  method AddEntryToDirectory(d: DirData, name: seq<byte>, byte_off: nat, file_type: byte)
    requires d.Valid() && 0 < |name| < 256 && Numbered(d.blocksize, byte_off)
    modifies d, d.buf
    ensures d.Valid() && d.Held() == old(d.Held()) + [Dirent(InodeOf(byte_off, d.blocksize), file_type, name)]
    ensures |d.Held()| == |old(d.Held())| + 1
      && InBlock(d.blocksize, byte_off, d.Held()[|old(d.Held())|].inode)
    ensures d.links == old(d.links) + if file_type == 2 then 1 else 0
    ensures d.buf != null && (fresh(d.buf) || d.buf == old(d.buf))
  {
    DirRecLenWhole(|name|);
    InodeOfExact(byte_off, d.blocksize);
    var e := Dirent(InodeOf(byte_off, d.blocksize), file_type, name);
    var de := MakeRoom(d, DirRecLen(|name|));
    ghost var front, last, at := d.front, d.last, de - d.Base();
    ghost var f := FillIn(d.buf, de, e, front, last, at, old(d.Held()));
    d.last, d.last_off := f, de;
    if file_type == CMFS_FT_DIR {
      d.links := d.links + 1;
    }
  }

  // ---- runs ----

  datatype NewEntry = NewEntry(name: seq<byte>, byte_off: nat, file_type: byte)

  ghost predicate Acceptable(e: NewEntry, blocksize: nat) {
    0 < |e.name| < 256 && 0 !in e.name && Numbered(blocksize, e.byte_off)
  }

  function Inserted(items: seq<NewEntry>, blocksize: nat): seq<Dirent>
    requires 0 < blocksize
  {
    if items == [] then []
    else
      var last := items[|items| - 1];
      Inserted(items[..|items| - 1], blocksize) + [Dirent(InodeOf(last.byte_off, blocksize), last.file_type, last.name)]
  }

  /** Any number of entries added to a new directory: it holds them in the order
      of their insertion. */
  method AddAll(blocksize: nat, items: seq<NewEntry>) returns (d: DirData)
    requires 268 <= blocksize < 65536 && blocksize % 4 == 0 && forall e :: e in items ==> Acceptable(e, blocksize)
    ensures d.Valid() && d.blocksize == blocksize && d.Held() == Inserted(items, blocksize)
  {
    d := new DirData(blocksize);
    var i := 0;
    while i < |items|
      invariant i <= |items| && fresh(d) && (d.buf == null || fresh(d.buf)) && d.blocksize == blocksize
      invariant d.Valid() && d.Held() == Inserted(items[..i], blocksize)
    {
      assert Acceptable(items[i], blocksize) && items[..i + 1][..i] == items[..i];
      AddEntryToDirectory(d, items[i].name, items[i].byte_off, items[i].file_type);
      i := i + 1;
    }
    assert items[..i] == items;
  }

  /** Every block of such a directory passes both checks. */
  lemma PassesChecks(d: DirData, k: nat)
    requires d.Valid() && k < |d.Blocks()|
    ensures var b := d.Blocks()[k]; |b| == d.blocksize && Passes(b, 0, |b|) && Chain(b, 8, 0, |b|)
  {
    d.BlocksFull();
    var b := d.Blocks()[k];
    ChainPasses(b, 0, |b|);
    ChainSmaller(b, 0, |b|);
  }

  /** The first inserted entry with a name. */
  function FirstInserted(entries: seq<Dirent>, name: seq<byte>): Option<nat> {
    if entries == [] then None else if entries[0].name == name then Some(entries[0].inode)
      else FirstInserted(entries[1..], name)
  }

  lemma {:induction false} AllInUse(entries: seq<Dirent>, name: seq<byte>)
    requires forall e :: e in entries ==> e.inode != 0
    ensures FindIn(entries, name) == FirstInserted(entries, name)
  {
    if entries != [] {
      AllInUse(entries[1..], name);
    }
  }

  lemma {:induction false} InsertedInUse(items: seq<NewEntry>, blocksize: nat)
    requires 0 < blocksize && forall e :: e in items ==> Acceptable(e, blocksize)
    ensures forall e :: e in Inserted(items, blocksize) ==> e.inode != 0
  {
    if items != [] {
      assert items[|items| - 1] in items;
      InodeOfExact(items[|items| - 1].byte_off, blocksize);
      InsertedInUse(items[..|items| - 1], blocksize);
    }
  }

  /** `items[k]` is the first with the name. */
  ghost predicate FirstNamed(items: seq<NewEntry>, name: seq<byte>, k: nat) {
    k < |items| && items[k].name == name && forall j: nat :: j < k ==> items[j].name != name
  }

  lemma {:induction false} FirstMore(entries: seq<Dirent>, e: Dirent, name: seq<byte>)
    ensures FirstInserted(entries + [e], name) ==
      if FirstInserted(entries, name).Some? then FirstInserted(entries, name)
      else if e.name == name then Some(e.inode) else None
  {
    if entries == [] {
      assert [] + [e] == [e] && [e][1..] == [];
    } else {
      assert (entries + [e])[1..] == entries[1..] + [e];
      FirstMore(entries[1..], e, name);
    }
  }

  /** The first item with a name gives the inode found. */
  lemma {:induction false} FirstIs(items: seq<NewEntry>, blocksize: nat, name: seq<byte>) returns (k: nat)
    requires 0 < blocksize
    ensures var found := FirstInserted(Inserted(items, blocksize), name);
      && (found.None? ==> forall j: nat :: j < |items| ==> items[j].name != name)
      && (found.Some? ==> FirstNamed(items, name, k) && InBlock(blocksize, items[k].byte_off, found.value))
  {
    k := 0;
    if items != [] {
      var front, last := items[..|items| - 1], items[|items| - 1];
      k := FirstIs(front, blocksize, name);
      assert forall j: nat :: j < |front| ==> front[j] == items[j];
      FirstMore(Inserted(front, blocksize), Dirent(InodeOf(last.byte_off, blocksize), last.file_type, last.name), name);
      if FirstInserted(Inserted(front, blocksize), name).None? {
        InodeOfExact(last.byte_off, blocksize);
        k := |front|;
      }
    }
  }

  /** Building a directory and looking a name up in it gives the number of the block of
      the first item with that name, and an error exactly when there is none. */
  method BuildAndLookup(blocksize: nat, items: seq<NewEntry>, name: seq<byte>, beyond: seq<byte>)
    returns (ret: Errcode, inode: nat)
    requires 268 <= blocksize < 65536 && blocksize % 4 == 0 && forall e :: e in items ==> Acceptable(e, blocksize)
    requires |beyond| == 14 && 0 !in name
    ensures ret == Ok || ret == FileNotFound
    ensures ret == Ok ==> exists k: nat :: FirstNamed(items, name, k) && InBlock(blocksize, items[k].byte_off, inode)
    ensures ret == FileNotFound ==> forall k: nat :: k < |items| ==> items[k].name != name
  {
    var d := AddAll(blocksize, items);
    d.BlocksFull();
    var blocks := ReadBack(d);
    ret, inode := CmfsLookup(blocks, name, beyond);
    InsertedInUse(items, blocksize);
    AllInUse(Inserted(items, blocksize), name);
    ghost var k := FirstIs(items, blocksize, name);
  }

  /** The blocks of the buffer, as they are written out and read again. */
  method ReadBack(d: DirData) returns (blocks: seq<seq<byte>>)
    requires d.Valid()
    ensures blocks == d.Blocks()
  {
    d.BlocksFull();
    blocks := [];
    if d.buf == null {
      return;
    }
    var at := 0;
    ghost var all := d.Blocks();
    assert all[..0] == [];
    while at < d.file_size
      invariant |blocks| <= |all| && blocks == all[..|blocks|] && at == |Join(blocks)|
        && d.file_size == |Join(all)| && d.buf != null
      invariant d.buf[..] == Join(all) && forall k :: 0 <= k < |all| ==> |all[k]| == d.blocksize
      decreases |all| - |blocks|
    {
      MoreToCome(all, |blocks|);
      JoinBlock(all, |blocks|, d.blocksize);
      assert all[..|blocks| + 1] == all[..|blocks|] + [all[|blocks|]];
      JoinMore(blocks, all[|blocks|]);
      blocks := blocks + [d.buf[at..at + d.blocksize]];
      at := at + d.blocksize;
    }
    JoinAll(all, |blocks|, d.blocksize);
  }

  lemma MoreToCome(blocks: seq<seq<byte>>, k: nat)
    requires k <= |blocks| && |Join(blocks[..k])| < |Join(blocks)|
    ensures k < |blocks|
  {
    assert blocks[..|blocks|] == blocks;
  }

  /** Where a block is in the joined bytes. */
  lemma {:induction false} JoinBlock(blocks: seq<seq<byte>>, k: nat, bs: nat)
    requires k < |blocks| && forall j :: 0 <= j < |blocks| ==> |blocks[j]| == bs
    ensures var at := |Join(blocks[..k])|; at + bs <= |Join(blocks)| && Join(blocks)[at..at + bs] == blocks[k]
  {
    var front := blocks[..|blocks| - 1];
    if k == |blocks| - 1 {
      assert blocks[..k] == front;
    } else {
      assert front[..k] == blocks[..k];
      JoinBlock(front, k, bs);
    }
  }

  lemma {:induction false} JoinAll(blocks: seq<seq<byte>>, k: nat, bs: nat)
    requires k <= |blocks| && 0 < bs && forall j :: 0 <= j < |blocks| ==> |blocks[j]| == bs
    requires |Join(blocks[..k])| >= |Join(blocks)|
    ensures k == |blocks|
  {
    if k < |blocks| {
      JoinBlock(blocks, k, bs);
    }
  }
}
