/** cmfs_fs.h, dirblock.c: directory records in a block, and the check made when a
    directory block is read. */
module DirBlock {
  import opened BlockCache

  const DIRENT_HEADER_SIZE := 12

  // ---- little-endian fields ----

  /** The number in the `n` bytes at `o`. */
  function LittleEndian(b: seq<byte>, o: nat, n: nat): nat
    requires o + n <= |b|
    decreases n
  {
    if n == 0 then 0 else b[o] as int + 256 * LittleEndian(b, o + 1, n - 1)
  }

  function ToBytes(x: nat, n: nat): (s: seq<byte>)
    ensures |s| == n
  {
    if n == 0 then [] else [x % 256] + ToBytes(x / 256, n - 1)
  }

  function Power256(n: nat): nat {
    if n == 0 then 1 else 256 * Power256(n - 1)
  }

  /** Bytes written as a number are read back as it. */
  lemma {:induction false} BytesRoundTrip(b: seq<byte>, o: nat, x: nat, n: nat)
    requires x < Power256(n) && o + n <= |b|
    requires b[o..o + n] == ToBytes(x, n)
    ensures LittleEndian(b, o, n) == x
    decreases n
  {
    if n > 0 {
      assert b[o] == b[o..o + n][0] && b[o + 1..o + n] == b[o..o + n][1..];
      assert ToBytes(x / 256, n - 1) == ToBytes(x, n)[1..];
      BytesRoundTrip(b, o + 1, x / 256, n - 1);
    }
  }

  lemma {:induction false} SameNumber(b: seq<byte>, o: nat, b': seq<byte>, o': nat, n: nat)
    requires o + n <= |b| && o' + n <= |b'| && b[o..o + n] == b'[o'..o' + n]
    ensures LittleEndian(b, o, n) == LittleEndian(b', o', n)
    decreases n
  {
    if n > 0 {
      assert b[o] == b[o..o + n][0] && b'[o'] == b'[o'..o' + n][0];
      assert b[o + 1..o + n] == b[o..o + n][1..] && b'[o' + 1..o' + n] == b'[o'..o' + n][1..];
      SameNumber(b, o + 1, b', o' + 1, n - 1);
    }
  }

  // ---- struct cmfs_dir_entry ----

  /** The fields of the record at `o`. */
  function Inode(b: seq<byte>, o: nat): nat
    requires o + 12 <= |b|
  {
    LittleEndian(b, o, 8)
  }

  function RecLen(b: seq<byte>, o: nat): nat
    requires o + 12 <= |b|
  {
    var low: nat, high: nat := b[o + 8], b[o + 9];
    low + 256 * high
  }

  function NameLen(b: seq<byte>, o: nat): nat
    requires o + 12 <= |b|
  {
    b[o + 10]
  }

  function FileType(b: seq<byte>, o: nat): nat
    requires o + 12 <= |b|
  {
    b[o + 11]
  }

  function Name(b: seq<byte>, o: nat): seq<byte>
    requires o + 12 <= |b| && o + 12 + NameLen(b, o) <= |b|
  {
    BytesAt(b, o + 12, NameLen(b, o))
  }

  /** The `n` bytes at `o`. */
  function BytesAt(b: seq<byte>, o: nat, n: nat): seq<byte>
    requires o + n <= |b|
    decreases n
  {
    if n == 0 then [] else [b[o]] + BytesAt(b, o + 1, n - 1)
  }

  lemma {:induction false} BytesAtSlice(b: seq<byte>, o: nat, n: nat)
    requires o + n <= |b|
    ensures BytesAt(b, o, n) == b[o..o + n]
    decreases n
  {
    if n > 0 {
      BytesAtSlice(b, o + 1, n - 1);
    }
  }

  /** `CMFS_DIR_REC_LEN`. */
  function DirRecLen(name_len: nat): nat {
    (name_len + 12 + 3) / 4 * 4
  }

  /** A record that can be stepped over, with `header` bytes before the name. */
  predicate GoodRecord(b: seq<byte>, header: nat, o: nat) {
    o + 12 <= |b| && header <= RecLen(b, o) && RecLen(b, o) % 4 == 0 && NameLen(b, o) + header <= RecLen(b, o)
  }

  /** Good records lead from `o` exactly to `end`. */
  predicate Chain(b: seq<byte>, header: nat, o: nat, end: nat)
    requires 0 < header
    decreases end - o
  {
    o == end || (o < end && GoodRecord(b, header, o) && Chain(b, header, o + RecLen(b, o), end))
  }

  lemma {:induction false} ChainJoin(b: seq<byte>, header: nat, o: nat, m: nat, end: nat)
    requires 0 < header && Chain(b, header, o, m) && m <= end
    ensures Chain(b, header, o, end) <==> Chain(b, header, m, end)
    decreases m - o
  {
    if o != m {
      ChainJoin(b, header, o + RecLen(b, o), m, end);
    }
  }

  lemma {:induction false} ChainSmaller(b: seq<byte>, o: nat, end: nat)
    requires Chain(b, 12, o, end)
    ensures Chain(b, 8, o, end)
    decreases end - o
  {
    if o != end {
      ChainSmaller(b, o + RecLen(b, o), end);
    }
  }

  // ---- the check of a directory block ----

  /** Every record that starts before the last 12 bytes is good. */
  predicate Passes(b: seq<byte>, o: nat, bytes: nat)
    decreases bytes - o
  {
    o + 12 >= bytes || (GoodRecord(b, 12, o) && Passes(b, o + RecLen(b, o), bytes))
  }

  datatype Errcode = Ok | DirCorrupted | FileNotFound | SymlinkLoop | InternalFailure

  /** `cmfs_swap_dir_entries_direction` on a little-endian machine: no byte moves,
      and the block is corrupted exactly if a record before its end is bad. */
  method SwapDirEntries(buf: seq<byte>, bytes: nat) returns (retval: Errcode)
    requires bytes <= |buf|
    ensures retval == if Passes(buf, 0, bytes) then Ok else DirCorrupted
  {
    var p := 0;
    retval := Ok;
    while p + DIRENT_HEADER_SIZE < bytes
      invariant retval == Ok || retval == DirCorrupted
      invariant Passes(buf, 0, bytes) <==> retval == Ok && Passes(buf, p, bytes)
      decreases bytes - p
    {
      var name_len, rec_len := NameLen(buf, p), RecLen(buf, p);
      if rec_len < DIRENT_HEADER_SIZE || rec_len % 4 != 0 {
        rec_len := DIRENT_HEADER_SIZE;
        retval := DirCorrupted;
      }
      if name_len + DIRENT_HEADER_SIZE > rec_len {
        retval := DirCorrupted;
      }
      p := p + rec_len;
    }
  }

  lemma {:induction false} ChainPasses(b: seq<byte>, o: nat, bytes: nat)
    requires Chain(b, DIRENT_HEADER_SIZE, o, bytes)
    ensures Passes(b, o, bytes)
    decreases bytes - o
  {
    if o != bytes {
      ChainPasses(b, o + RecLen(b, o), bytes);
    }
  }

  // ---- what a directory holds ----

  datatype Dirent = Dirent(inode: nat, file_type: nat, name: seq<byte>)

  function DirentAt(b: seq<byte>, o: nat): Dirent
    requires GoodRecord(b, 8, o)
  {
    Dirent(Inode(b, o), FileType(b, o), if o + 12 + NameLen(b, o) <= |b| then Name(b, o) else [])
  }

  /** The entries of a block in the order of their records. */
  function Entries(b: seq<byte>, o: nat, end: nat): seq<Dirent>
    requires Chain(b, 8, o, end)
    decreases end - o
  {
    if o == end then [] else [DirentAt(b, o)] + Entries(b, o + RecLen(b, o), end)
  }

  lemma {:induction false} EntriesJoin(b: seq<byte>, o: nat, m: nat, end: nat)
    requires Chain(b, 8, o, m) && Chain(b, 8, m, end) && m <= end
    ensures Chain(b, 8, o, end) && Entries(b, o, end) == Entries(b, o, m) + Entries(b, m, end)
    decreases m - o
  {
    ChainJoin(b, 8, o, m, end);
    if o == m {
      assert Entries(b, o, m) == [];
    } else {
      var next := o + RecLen(b, o);
      ChainEnd(b, 8, next, m);
      EntriesJoin(b, next, m, end);
      assert [DirentAt(b, o)] + Entries(b, next, m) + Entries(b, m, end)
        == [DirentAt(b, o)] + (Entries(b, next, m) + Entries(b, m, end));
    }
  }

  /** Records depend on no byte past their end. */
  lemma {:induction false} ChainFrame(b: seq<byte>, b': seq<byte>, o: nat, end: nat)
    requires Chain(b, 12, o, end) && end <= |b| && end <= |b'| && b[..end] == b'[..end]
    ensures Chain(b', 12, o, end) && Chain(b, 8, o, end) && Chain(b', 8, o, end)
    ensures Entries(b, o, end) == Entries(b', o, end)
    decreases end - o
  {
    ChainSmaller(b, o, end);
    if o != end {
      RecordFrame(b, b', o, end);
      ChainEnd(b, 12, o + RecLen(b, o), end);
      ChainFrame(b, b', o + RecLen(b, o), end);
    }
  }

  lemma ChainEnd(b: seq<byte>, header: nat, o: nat, end: nat)
    requires 0 < header && Chain(b, header, o, end)
    ensures o <= end
  {
  }

  lemma RecordFrame(b: seq<byte>, b': seq<byte>, o: nat, end: nat)
    requires GoodRecord(b, 12, o) && o + RecLen(b, o) <= end <= |b| && end <= |b'| && b[..end] == b'[..end]
    ensures GoodRecord(b', 12, o) && RecLen(b', o) == RecLen(b, o) && DirentAt(b', o) == DirentAt(b, o)
  {
    assert forall k :: 0 <= k < end ==> b[..end][k] == b[k] && b'[..end][k] == b'[k];
    assert b[o..o + 8] == b'[o..o + 8];
    SameNumber(b, o, b', o, 8);
    BytesAtSlice(b, o + 12, NameLen(b, o));
    BytesAtSlice(b', o + 12, NameLen(b, o));
    assert b[o + 12..o + 12 + NameLen(b, o)] == b'[o + 12..o + 12 + NameLen(b, o)];
  }
}
