/** dir_iterate.c: the walk over the records of a directory, deleted ones included. */
module DirIterate {
  import opened BlockCache
  import opened DirBlock

  const CMFS_DIRENT_DOT_FILE := 1
  const CMFS_DIRENT_OTHER_FILE := 3
  const CMFS_DIRENT_DELETED_FILE := 4

  datatype Flags = Flags(include_empty: bool, include_removed: bool, exclude_dots: bool)

  /** `is_dots`, for the name of the record at `o`. */
  predicate IsDots(b: seq<byte>, o: nat)
    requires o + 14 <= |b|
  {
    (NameLen(b, o) == 1 && b[o + 12] == 46) || (NameLen(b, o) == 2 && b[o + 12] == 46 && b[o + 13] == 46)
  }

  /** The walk calls the user's function for a record at `o`. */
  predicate Shown(b: seq<byte>, flags: Flags, o: nat)
    requires o + 14 <= |b|
  {
    (Inode(b, o) != 0 || flags.include_empty) && !(flags.exclude_dots && IsDots(b, o))
  }

  /** A record in use is shown, a free one if wanted; `.` and `..` are not if they are not wanted. */
  lemma ShownNames(b: seq<byte>, flags: Flags, o: nat)
    requires GoodRecord(b, 8, o) && o + 14 <= |b| && o + 12 + NameLen(b, o) <= |b|
    ensures var d := DirentAt(b, o);
      Shown(b, flags, o) <==>
        (d.inode != 0 || flags.include_empty) && !(flags.exclude_dots && d.name in {[46], [46, 46]})
  {
    BytesAtSlice(b, o + 12, NameLen(b, o));
    var name := b[o + 12..o + 12 + NameLen(b, o)];
    assert |name| == 1 ==> name == [b[o + 12]];
    assert |name| == 2 ==> name == [b[o + 12], b[o + 13]];
  }

  /** One call: the offset of the record and whether it was called deleted. */
  datatype Call = Call(offset: nat, entry: nat)

  /** `struct dir_context`; the user's function only looks, and ends the walk at
      the records for which `stop` says so. */
  class DirContext {
    const flags: Flags
    const stop: (seq<byte>, nat) -> bool
    var buf: seq<byte>
    var errcode: Errcode

    constructor (flags: Flags, stop: (seq<byte>, nat) -> bool)
      ensures this.flags == flags && this.stop == stop && buf == [] && errcode == Ok
    {
      this.flags, this.stop := flags, stop;
      buf, errcode := [], Ok;
    }
  }

  /** `cmfs_validate_entry`: records lead from `offset` exactly to `final_offset`. */
  method ValidateEntry(buf: seq<byte>, offset: nat, final_offset: nat) returns (valid: bool)
    requires final_offset + 12 <= |buf|
    ensures valid <==> Chain(buf, 8, offset, final_offset)
  {
    var at := offset;
    while at < final_offset
      invariant Chain(buf, 8, offset, final_offset) <==> Chain(buf, 8, at, final_offset)
      decreases final_offset - at
    {
      var rec_len := RecLen(buf, at);
      var here := at;
      at := at + rec_len;
      if rec_len < 8 || rec_len % 4 != 0 || NameLen(buf, here) + 8 > rec_len {
        return false;
      }
    }
    valid := at == final_offset;
  }

  // ---- live and deleted records ----

  /** The offsets of the live records, from `o` to `end`. */
  function LiveFrom(b: seq<byte>, o: nat, end: nat): seq<nat>
    requires Chain(b, 8, o, end)
    decreases end - o
  {
    if o == end then [] else [o] + LiveFrom(b, o + RecLen(b, o), end)
  }

  /** The live records that the walk shows. */
  function ShownFrom(b: seq<byte>, flags: Flags, o: nat, end: nat): seq<nat>
    requires Chain(b, 8, o, end) && end + 14 <= |b|
    decreases end - o
  {
    if o == end then [] else (if Shown(b, flags, o) then [o] else []) + ShownFrom(b, flags, o + RecLen(b, o), end)
  }

  /** The calls that are not marked deleted. */
  function LiveCalls(calls: seq<Call>): seq<nat> {
    if calls == [] then []
    else
      var last := calls[|calls| - 1];
      LiveCalls(calls[..|calls| - 1]) + if last.entry == CMFS_DIRENT_DELETED_FILE then [] else [last.offset]
  }

  /** Past what the record at `p` needs for its header and its name, and before its end. */
  ghost predicate InSlack(b: seq<byte>, p: nat, x: nat) {
    p + 12 <= |b| && p + 8 + NameLen(b, p) <= x < p + RecLen(b, p)
  }

  /** Every call that is marked deleted is for a place in the slack of a live record. */
  ghost predicate DeletedApart(b: seq<byte>, calls: seq<Call>, live: seq<nat>) {
    forall k :: 0 <= k < |calls| && calls[k].entry == 4 ==>
      calls[k].offset !in live && exists p :: p in live && InSlack(b, p, calls[k].offset)
  }

  /** Only the last call can stop the walk. */
  ghost predicate StopsLast(stop: (seq<byte>, nat) -> bool, b: seq<byte>, calls: seq<Call>, do_abort: bool) {
    && (do_abort ==> calls != [])
    && forall k :: 0 <= k < |calls| ==> (stop(b, calls[k].offset) <==> do_abort && k == |calls| - 1)
  }

  /** Live records lie past the start of the chain, one record apart. */
  lemma {:induction false} LiveApart(b: seq<byte>, o: nat, end: nat, x: nat)
    requires Chain(b, 8, o, end) && x in LiveFrom(b, o, end)
    ensures o <= x < end && (x == o || o + RecLen(b, o) <= x)
    ensures x + 12 <= |b| && x + RecLen(b, x) <= end
    decreases end - o
  {
    var next := o + RecLen(b, o);
    ChainEnd(b, 8, next, end);
    if x != o {
      assert x in LiveFrom(b, next, end);
      LiveApart(b, next, end, x);
    }
  }

  lemma {:induction false} LiveJoin(b: seq<byte>, o: nat, m: nat, end: nat)
    requires Chain(b, 8, o, m) && Chain(b, 8, m, end) && m <= end
    ensures Chain(b, 8, o, end) && LiveFrom(b, o, end) == LiveFrom(b, o, m) + LiveFrom(b, m, end)
    decreases m - o
  {
    ChainJoin(b, 8, o, m, end);
    if o != m {
      var next := o + RecLen(b, o);
      ChainEnd(b, 8, next, m);
      LiveJoin(b, next, m, end);
      assert [o] + LiveFrom(b, next, m) + LiveFrom(b, m, end) == [o] + (LiveFrom(b, next, m) + LiveFrom(b, m, end));
    }
  }

  /** The size that the scan for deleted records gives to a record. */
  function ScanSize(name_len: nat): nat {
    (name_len + 11) / 4 * 4
  }

  lemma ScanSizeFits(b: seq<byte>, o: nat)
    requires GoodRecord(b, 8, o)
    ensures 8 <= ScanSize(NameLen(b, o)) <= RecLen(b, o) && (RecLen(b, o) - ScanSize(NameLen(b, o))) % 4 == 0
  {
  }

  /** The first place from `o` on, in steps of four bytes, from which records lead to `end`. */
  function FirstPlace(b: seq<byte>, o: nat, end: nat): nat
    requires end + 12 <= |b|
    decreases end - o
  {
    if o >= end || Chain(b, 8, o, end) then o else FirstPlace(b, o + 4, end)
  }

  lemma {:induction false} FirstPlaceLeads(b: seq<byte>, o: nat, end: nat)
    requires o <= end && end + 12 <= |b| && (end - o) % 4 == 0
    ensures var r := FirstPlace(b, o, end); o <= r <= end && Chain(b, 8, r, end)
    decreases end - o
  {
    if o < end && !Chain(b, 8, o, end) {
      FirstPlaceLeads(b, o + 4, end);
    }
  }

  /** From no earlier place do records lead to the end. */
  lemma {:induction false} FirstPlaceLeast(b: seq<byte>, o: nat, end: nat, n: nat)
    requires end + 12 <= |b| && o + 4 * n < FirstPlace(b, o, end)
    ensures o + 4 * n < end && !Chain(b, 8, o + 4 * n, end)
    decreases n
  {
    if n > 0 {
      FirstPlaceLeast(b, o + 4, end, n - 1);
    }
  }

  /** The scan of the slack of a record for deleted ones. */
  method SkipToDeleted(buf: seq<byte>, from: nat, final_offset: nat) returns (offset: nat)
    requires from <= final_offset && final_offset + 12 <= |buf|
    ensures offset == FirstPlace(buf, from, final_offset)
  {
    offset := from;
    while offset < final_offset
      invariant FirstPlace(buf, offset, final_offset) == FirstPlace(buf, from, final_offset)
      decreases final_offset - offset
    {
      var valid := ValidateEntry(buf, offset, final_offset);
      if valid {
        break;
      }
      offset := offset + 4;
    }
  }

  /** Where the walk goes on after the record at `o`: past it, or, when deleted records
      are wanted and it has slack, to the first place in the slack from which records
      lead to its end. */
  function NextPlace(b: seq<byte>, flags: Flags, o: nat): nat
    requires GoodRecord(b, 8, o) && o + RecLen(b, o) + 12 <= |b|
  {
    var end, size := o + RecLen(b, o), ScanSize(NameLen(b, o));
    if flags.include_removed && RecLen(b, o) != size then FirstPlace(b, o + size, end) else end
  }

  lemma NextPlaceInside(b: seq<byte>, flags: Flags, o: nat)
    requires GoodRecord(b, 8, o) && o + RecLen(b, o) + 12 <= |b|
    ensures var end, r := o + RecLen(b, o), NextPlace(b, flags, o);
      o + 8 + NameLen(b, o) <= r <= end && Chain(b, 8, r, end) && (flags.include_removed || r == end)
  {
    ScanSizeFits(b, o);
    FirstPlaceLeads(b, o + ScanSize(NameLen(b, o)), o + RecLen(b, o));
  }

  lemma WordsPast(o: nat, name_len: nat, x: nat) returns (n: nat)
    requires o + 8 + name_len <= x && (x - o) % 4 == 0
    ensures x == o + ScanSize(name_len) + 4 * n
  {
    n := (x - o) / 4 - (name_len + 11) / 4;
  }

  /** Past a record, or, when deleted ones are wanted, at the first place in its slack, on a
      word and past its header and name, from which records lead to its end. */
  lemma {:induction false} NextPlaceLeast(b: seq<byte>, flags: Flags, o: nat, x: nat)
    requires GoodRecord(b, 8, o) && o + RecLen(b, o) + 12 <= |b|
    requires var end, r := o + RecLen(b, o), NextPlace(b, flags, o);
      flags.include_removed && o + 8 + NameLen(b, o) <= x < r && (x - o) % 4 == 0
    ensures !Chain(b, 8, x, o + RecLen(b, o)) && x < o + RecLen(b, o)
  {
    var from, end := o + ScanSize(NameLen(b, o)), o + RecLen(b, o);
    var n := WordsPast(o, NameLen(b, o), x);
    ScanSizeFits(b, o);
    FirstPlaceLeads(b, from, end);
    FirstPlaceLeast(b, from, end, n);
  }

  /** The places from `o` on that the walk shows, live or not. */
  function Places(b: seq<byte>, flags: Flags, bs: nat, o: nat): seq<nat>
    requires bs + 14 <= |b|
    decreases bs - o
  {
    if o >= bs || !GoodRecord(b, 8, o) || o + RecLen(b, o) > bs then []
    else
      NextPlaceInside(b, flags, o);
      (if Shown(b, flags, o) then [o] else []) + Places(b, flags, bs, NextPlace(b, flags, o))
  }

  function Offsets(calls: seq<Call>): (r: seq<nat>)
    ensures |r| == |calls|
  {
    if calls == [] then [] else Offsets(calls[..|calls| - 1]) + [calls[|calls| - 1].offset]
  }

  /** The place shown at `o`, if it is. */
  function ShownHere(b: seq<byte>, flags: Flags, o: nat): seq<nat>
    requires o + 14 <= |b|
  {
    if Shown(b, flags, o) then [o] else []
  }

  lemma PlacesHead(b: seq<byte>, flags: Flags, bs: nat, o: nat)
    requires bs + 14 <= |b| && o < bs && GoodRecord(b, 8, o) && o + RecLen(b, o) <= bs
    ensures Places(b, flags, bs, o) == ShownHere(b, flags, o) + Places(b, flags, bs, NextPlace(b, flags, o))
  {
  }

  lemma Shift(done: seq<nat>, here: seq<nat>, rest: seq<nat>)
    ensures done + (here + rest) == (done + here) + rest && done + here <= done + (here + rest)
  {
  }

  ghost predicate Whole(b: seq<byte>, flags: Flags, bs: nat, all: seq<nat>)
    requires bs + 14 <= |b|
  {
    all == Places(b, flags, bs, 0)
  }

  /** The walk has shown `done` and has come to `o`. */
  ghost predicate Track(b: seq<byte>, flags: Flags, bs: nat, o: nat, done: seq<nat>)
    requires bs + 14 <= |b|
  {
    forall all {:trigger Whole(b, flags, bs, all)} :: Whole(b, flags, bs, all) ==> done + Places(b, flags, bs, o) == all
  }

  lemma TrackStart(b: seq<byte>, flags: Flags, bs: nat)
    requires bs + 14 <= |b|
    ensures Track(b, flags, bs, 0, [])
  {
  }

  lemma TrackStep(b: seq<byte>, flags: Flags, bs: nat, o: nat, done: seq<nat>, done': seq<nat>)
    requires bs + 14 <= |b| && o < bs && GoodRecord(b, 8, o) && o + RecLen(b, o) <= bs
    requires Track(b, flags, bs, o, done) && done' == done + ShownHere(b, flags, o)
    ensures Track(b, flags, bs, NextPlace(b, flags, o), done') && done' <= Places(b, flags, bs, 0)
  {
    var next := NextPlace(b, flags, o);
    PlacesHead(b, flags, bs, o);
    Shift(done, ShownHere(b, flags, o), Places(b, flags, bs, next));
    assert Whole(b, flags, bs, Places(b, flags, bs, 0));
  }

  lemma TrackEnd(b: seq<byte>, flags: Flags, bs: nat, o: nat, done: seq<nat>)
    requires bs + 14 <= |b| && Track(b, flags, bs, o, done)
    requires o >= bs || !GoodRecord(b, 8, o) || o + RecLen(b, o) > bs
    ensures done == Places(b, flags, bs, 0)
  {
    assert Whole(b, flags, bs, Places(b, flags, bs, 0));
  }

  lemma OffsetsMore(calls: seq<Call>, calls': seq<Call>, o: nat)
    requires |calls'| == |calls| + 1 && calls'[..|calls|] == calls && calls'[|calls|].offset == o
    ensures Offsets(calls') == Offsets(calls) + [o]
  {
  }

  /** What a call is labelled by its place in the walk: `.`, `..`, or another. */
  function Label(first: nat, k: nat): nat {
    if first + k < CMFS_DIRENT_OTHER_FILE then first + k else CMFS_DIRENT_OTHER_FILE
  }

  ghost predicate AllBefore(offsets: seq<nat>, end: nat) {
    forall x :: x in offsets ==> x < end
  }

  /** The last live record ends at `end`, and `x` is past what it needs. */
  ghost predicate LastSlack(b: seq<byte>, live: seq<nat>, end: nat, x: nat) {
    && live != []
    && var p := live[|live| - 1];
      p + 12 <= |b| && p + RecLen(b, p) == end && p + 8 + NameLen(b, p) <= x
  }

  /** The walk has come to `offset`: the live records before `next` are done, and
      records lead from `offset` to `next`. */
  ghost predicate Reached(b: seq<byte>, flags: Flags, bs: nat, offset: nat, next: nat, calls: seq<Call>) {
    && offset <= next <= bs && bs + 14 <= |b|
    && Chain(b, 8, 0, next) && Chain(b, 8, offset, next) && (flags.include_removed || offset == next)
    && LiveCalls(calls) == ShownFrom(b, flags, 0, next)
    && DeletedApart(b, calls, LiveFrom(b, 0, next))
    && (offset < next ==> AllBefore(LiveFrom(b, 0, next), offset) && LastSlack(b, LiveFrom(b, 0, next), next, offset))
  }

  lemma ReachedStart(b: seq<byte>, flags: Flags, bs: nat)
    requires bs + 14 <= |b|
    ensures Reached(b, flags, bs, 0, 0, [])
  {
  }

  lemma {:induction false} ShownJoin(b: seq<byte>, flags: Flags, o: nat, m: nat, end: nat)
    requires Chain(b, 8, o, m) && Chain(b, 8, m, end) && m <= end && end + 14 <= |b|
    ensures Chain(b, 8, o, end)
      && ShownFrom(b, flags, o, end) == ShownFrom(b, flags, o, m) + ShownFrom(b, flags, m, end)
    decreases m - o
  {
    ChainJoin(b, 8, o, m, end);
    if o == m {
      assert ShownFrom(b, flags, o, m) == [];
    } else {
      var next := o + RecLen(b, o);
      ChainEnd(b, 8, next, m);
      ShownJoin(b, flags, next, m, end);
      var x := if Shown(b, flags, o) then [o] else [];
      assert x + ShownFrom(b, flags, next, m) + ShownFrom(b, flags, m, end)
        == x + (ShownFrom(b, flags, next, m) + ShownFrom(b, flags, m, end));
    }
  }

  lemma OneRecord(b: seq<byte>, flags: Flags, o: nat)
    requires GoodRecord(b, 8, o) && o + RecLen(b, o) + 14 <= |b|
    ensures var end := o + RecLen(b, o);
      Chain(b, 8, o, end) && LiveFrom(b, o, end) == [o] && ShownFrom(b, flags, o, end) == if Shown(b, flags, o)
        then [o] else []
  {
  }

  lemma {:induction false} LastLive(b: seq<byte>, at: nat)
    requires Chain(b, 8, 0, at) && GoodRecord(b, 8, at)
    ensures var end := at + RecLen(b, at);
      Chain(b, 8, 0, end) && LiveFrom(b, 0, end) == LiveFrom(b, 0, at) + [at]
  {
    var end := at + RecLen(b, at);
    assert Chain(b, 8, end, end) && LiveFrom(b, at, end) == [at];
    LiveJoin(b, 0, at, end);
  }

  lemma {:induction false} BeforeNext(b: seq<byte>, flags: Flags, at: nat)
    requires Chain(b, 8, 0, at) && GoodRecord(b, 8, at) && at + RecLen(b, at) + 14 <= |b|
    ensures Chain(b, 8, 0, at + RecLen(b, at)) && AllBefore(LiveFrom(b, 0, at + RecLen(b, at)), at + 1)
  {
    var end := at + RecLen(b, at);
    OneRecord(b, flags, at);
    LiveJoin(b, 0, at, end);
    var front := LiveFrom(b, 0, at);
    forall x | x in front ensures x < at {
      LiveApart(b, 0, at, x);
    }
    Appended(front, at);
  }

  lemma Appended(front: seq<nat>, at: nat)
    requires forall x :: x in front ==> x < at
    ensures AllBefore(front + [at], at + 1)
  {
  }

  /** One more live record is shown, if it is to be. */
  lemma {:induction false} ShownMore(b: seq<byte>, flags: Flags, at: nat)
    requires Chain(b, 8, 0, at) && GoodRecord(b, 8, at) && at + RecLen(b, at) + 14 <= |b|
    ensures var end := at + RecLen(b, at);
      Chain(b, 8, 0, end) && ShownFrom(b, flags, 0, end) == ShownFrom(b, flags, 0, at) + ShownHere(b, flags, at)
  {
    OneRecord(b, flags, at);
    ShownJoin(b, flags, 0, at, at + RecLen(b, at));
  }

  /** A live record has been done. */
  lemma {:induction false} LiveStep(b: seq<byte>, flags: Flags, bs: nat, at: nat, calls: seq<Call>, calls': seq<Call>,
                                    end: nat)
    requires Reached(b, flags, bs, at, at, calls) && GoodRecord(b, 8, at) && end == at + RecLen(b, at) <= bs
    requires LiveCalls(calls') == LiveCalls(calls) + ShownHere(b, flags, at)
    requires calls <= calls' && forall k :: |calls| <= k < |calls'| ==> calls'[k].entry != CMFS_DIRENT_DELETED_FILE
    ensures Reached(b, flags, bs, end, end, calls')
    ensures AllBefore(LiveFrom(b, 0, end), at + 1)
  {
    ShownMore(b, flags, at);
    BeforeNext(b, flags, at);
    LastLive(b, at);
    AllEnd(b, at);
    StillApart(b, calls, calls', LiveFrom(b, 0, at), at);
  }

  ghost predicate EndBy(b: seq<byte>, live: seq<nat>, at: nat) {
    forall p :: p in live ==> p + 12 <= |b| && p + RecLen(b, p) <= at
  }

  lemma AllEnd(b: seq<byte>, at: nat)
    requires Chain(b, 8, 0, at)
    ensures EndBy(b, LiveFrom(b, 0, at), at)
  {
    forall p | p in LiveFrom(b, 0, at) ensures p + 12 <= |b| && p + RecLen(b, p) <= at {
      LiveApart(b, 0, at, p);
    }
  }

  /** One more live record, behind all places so far. */
  lemma {:induction false} StillApart(b: seq<byte>, calls: seq<Call>, calls': seq<Call>, live: seq<nat>, at: nat)
    requires DeletedApart(b, calls, live) && calls <= calls'
    requires EndBy(b, live, at)
    requires forall k :: |calls| <= k < |calls'| ==> calls'[k].entry != CMFS_DIRENT_DELETED_FILE
    ensures DeletedApart(b, calls', live + [at])
  {
    forall k | 0 <= k < |calls'| && calls'[k].entry == CMFS_DIRENT_DELETED_FILE
      ensures calls'[k].offset !in live + [at] && exists p :: p in live + [at] && InSlack(b, p, calls'[k].offset)
    {
      assert calls'[k] == calls[k];
      var p :| p in live && InSlack(b, p, calls[k].offset);
      assert p in live + [at];
    }
  }

  /** A record inside the slack has been done; the walk goes on further inside. */
  lemma {:induction false} DeletedStep(b: seq<byte>, flags: Flags, bs: nat, at: nat, next: nat, calls: seq<Call>,
                                       calls': seq<Call>,
                    at': nat)
    requires Reached(b, flags, bs, at, next, calls) && at < at' <= next && at < next && Chain(b, 8, at', next)
    requires calls' == calls || calls' == calls + [Call(at, CMFS_DIRENT_DELETED_FILE)]
    ensures Reached(b, flags, bs, at', next, calls')
  {
    var live := LiveFrom(b, 0, next);
    assert InSlack(b, live[|live| - 1], at) && live[|live| - 1] in live;
    if calls' != calls {
      assert calls'[..|calls'| - 1] == calls;
      assert LiveCalls(calls') == LiveCalls(calls) + [];
    }
  }

  /** The walk goes on inside the slack of the live record that was just done. */
  lemma {:induction false} SlackStep(b: seq<byte>, flags: Flags, bs: nat, next: nat, calls: seq<Call>, last: nat,
                                     at: nat)
    requires Reached(b, flags, bs, next, next, calls) && last < at <= next && Chain(b, 8, at, next)
    requires flags.include_removed || at == next
    requires AllBefore(LiveFrom(b, 0, next), last + 1) && LastSlack(b, LiveFrom(b, 0, next), next, at)
    ensures Reached(b, flags, bs, at, next, calls)
  {
  }

  /** The step to the next record. */
  method NextOffset(ctx: DirContext, offset: nat) returns (offset': nat)
    requires GoodRecord(ctx.buf, 8, offset) && offset + RecLen(ctx.buf, offset) + 12 <= |ctx.buf|
    ensures offset' == NextPlace(ctx.buf, ctx.flags, offset)
  {
    var rec_len, size := RecLen(ctx.buf, offset), ScanSize(NameLen(ctx.buf, offset));
    ScanSizeFits(ctx.buf, offset);
    if ctx.flags.include_removed && rec_len != size {
      offset' := SkipToDeleted(ctx.buf, offset + size, offset + rec_len);
    } else {
      offset' := offset + rec_len;
    }
  }

  /** A good record that is not live ends before the next live one. */
  lemma StillInside(b: seq<byte>, flags: Flags, bs: nat, offset: nat, next: nat, calls: seq<Call>)
    requires Reached(b, flags, bs, offset, next, calls) && GoodRecord(b, 8, offset) && offset + RecLen(b, offset) <= bs
    ensures offset < next ==> offset + RecLen(b, offset) <= next && Chain(b, 8, offset + RecLen(b, offset), next)
  {
    if offset < next {
      ChainEnd(b, 8, offset + RecLen(b, offset), next);
    }
  }

  ghost predicate OneMore(calls: seq<Call>, calls': seq<Call>, offset: nat, deleted: bool) {
    && |calls'| == |calls| + 1 && calls' == calls + [calls'[|calls|]] && calls'[|calls|].offset == offset
    && (calls'[|calls|].entry == CMFS_DIRENT_DELETED_FILE <==> deleted)
  }

  /** What a round does with a record: it is shown, deleted or not, if it is to be. */
  ghost predicate RoundDone(b: seq<byte>, flags: Flags, bs: nat, offset: nat, next: nat, before: seq<Call>,
                            calls: seq<Call>) {
    && Reached(b, flags, bs, offset, next, before)
    && offset < bs && GoodRecord(b, 8, offset) && offset + RecLen(b, offset) <= bs
    && (!Shown(b, flags, offset) ==> calls == before)
    && (Shown(b, flags, offset) ==> OneMore(before, calls, offset, offset < next))
  }

  /** Behind a live record that has been done the walk goes on at its end, or in its slack. */
  lemma {:induction false} IntoSlack(b: seq<byte>, flags: Flags, bs: nat, offset: nat, calls: seq<Call>, at: nat,
                                     end: nat)
    requires Reached(b, flags, bs, end, end, calls) && AllBefore(LiveFrom(b, 0, end), offset + 1)
    requires Chain(b, 8, 0, offset) && GoodRecord(b, 8, offset) && end == offset + RecLen(b, offset) <= bs
    requires at == NextPlace(b, flags, offset)
    ensures offset < at && Reached(b, flags, bs, at, end, calls)
  {
    NextPlaceInside(b, flags, offset);
    LastLive(b, offset);
    SlackStep(b, flags, bs, end, calls, offset, at);
  }

  /** The walk goes on behind a live record, or in its slack. */
  lemma {:induction false} LiveRound(b: seq<byte>, flags: Flags, bs: nat, offset: nat, before: seq<Call>,
                                     calls: seq<Call>)
    requires RoundDone(b, flags, bs, offset, offset, before, calls)
    ensures var at := NextPlace(b, flags, offset);
      offset < at && Reached(b, flags, bs, at, offset + RecLen(b, offset), calls)
  {
    assert calls != before ==> calls[..|calls| - 1] == before;
    LiveStep(b, flags, bs, offset, before, calls, offset + RecLen(b, offset));
    IntoSlack(b, flags, bs, offset, calls, NextPlace(b, flags, offset), offset + RecLen(b, offset));
  }

  /** The walk goes on behind a record found in slack. */
  lemma {:induction false} DeletedRound(b: seq<byte>, flags: Flags, bs: nat, offset: nat, next: nat, before: seq<Call>,
                                        calls: seq<Call>)
    requires RoundDone(b, flags, bs, offset, next, before, calls) && offset < next
    ensures var at := NextPlace(b, flags, offset); offset < at && Reached(b, flags, bs, at, next, calls)
  {
    var at, end := NextPlace(b, flags, offset), offset + RecLen(b, offset);
    StillInside(b, flags, bs, offset, next, before);
    NextPlaceInside(b, flags, offset);
    ChainJoin(b, 8, at, end, next);
    DeletedStep(b, flags, bs, offset, next, before, calls, at);
  }

  /** The end of a round: where the walk goes on, and where the next live record is. */
  method Advance(ctx: DirContext, bs: nat, offset: nat, next_real_entry: nat, ghost before: seq<Call>,
                 ghost calls: seq<Call>)
    returns (offset': nat, next_real_entry': nat)
    requires RoundDone(ctx.buf, ctx.flags, bs, offset, next_real_entry, before, calls)
    ensures Reached(ctx.buf, ctx.flags, bs, offset', next_real_entry', calls) && offset < offset'
    ensures offset' == NextPlace(ctx.buf, ctx.flags, offset)
  {
    next_real_entry' := next_real_entry;
    if next_real_entry == offset {
      LiveRound(ctx.buf, ctx.flags, bs, offset, before, calls);
      next_real_entry' := next_real_entry + RecLen(ctx.buf, offset);
    } else {
      DeletedRound(ctx.buf, ctx.flags, bs, offset, next_real_entry, before, calls);
    }
    offset' := NextOffset(ctx, offset);
  }

  /** The record found bad is a live one. */
  lemma BadRecord(b: seq<byte>, bs: nat, offset: nat, next: nat)
    requires Chain(b, 8, offset, next) && next <= bs && offset < bs && offset + 12 <= |b|
    requires !GoodRecord(b, 8, offset) || offset + RecLen(b, offset) > bs
    ensures !Chain(b, 8, next, bs)
  {
    if GoodRecord(b, 8, offset) && offset != next {
      ChainEnd(b, 8, offset + RecLen(b, offset), next);
    }
  }

  /** What the walk of a block has shown when it ends. */
  ghost predicate Walked(b: seq<byte>, flags: Flags, bs: nat, calls: seq<Call>)
    requires bs + 14 <= |b|
  {
    Chain(b, 8, 0, bs) && LiveCalls(calls) == ShownFrom(b, flags, 0, bs) && DeletedApart(b, calls, LiveFrom(b, 0, bs))
  }

  /** The walk has come to the end of the block. */
  lemma {:induction false} WalkEnd(b: seq<byte>, flags: Flags, bs: nat, offset: nat, next: nat, calls: seq<Call>)
    requires Reached(b, flags, bs, offset, next, calls) && bs <= offset
    ensures Walked(b, flags, bs, calls) && Chain(b, 8, 0, bs)
  {
  }

  /** A record from which the walk cannot go on. */
  lemma {:induction false} BadEnd(b: seq<byte>, flags: Flags, bs: nat, offset: nat, next: nat, calls: seq<Call>)
    requires Reached(b, flags, bs, offset, next, calls) && offset < bs
    requires !GoodRecord(b, 8, offset) || offset + RecLen(b, offset) > bs
    ensures !Chain(b, 8, 0, bs)
  {
    ChainJoin(b, 8, 0, next, bs);
    BadRecord(b, bs, offset, next);
  }

  /** What it has shown when a record stopped it. */
  ghost predicate Stopped(b: seq<byte>, flags: Flags, bs: nat, calls: seq<Call>, at: nat)
    requires bs + 14 <= |b|
  {
    && at < bs && Chain(b, 8, 0, at) && GoodRecord(b, 8, at) && at + RecLen(b, at) <= bs && Shown(b, flags, at)
    && LiveCalls(calls) == ShownFrom(b, flags, 0, at) + [at]
  }

  /** Every call is labelled deleted, or by its place: 1 for `.`, 2 for `..`, 3 for any other. */
  ghost predicate Labelled(calls: seq<Call>, first: nat) {
    forall k :: 0 <= k < |calls| ==> calls[k].entry == 4 || calls[k].entry == if first + k < 3 then first + k else 3
  }

  /** One call of the user's function. */
  method Show(ctx: DirContext, offset: nat, deleted: bool, first: nat, entry: nat, before: seq<Call>)
    returns (calls: seq<Call>, entry': nat, stopped: bool)
    requires 1 <= first <= 3 && entry == Label(first, |before|)
    requires StopsLast(ctx.stop, ctx.buf, before, false) && Labelled(before, first)
    ensures OneMore(before, calls, offset, deleted) && Offsets(calls) == Offsets(before) + [offset]
    ensures Labelled(calls, first) && entry' == Label(first, |calls|)
    ensures StopsLast(ctx.stop, ctx.buf, calls, stopped)
  {
    calls := before + [Call(offset, if deleted then CMFS_DIRENT_DELETED_FILE else entry)];
    assert calls[..|calls| - 1] == before;
    OffsetsMore(before, calls, offset);
    entry' := entry;
    if entry < CMFS_DIRENT_OTHER_FILE {
      entry' := entry + 1;
    }
    stopped := ctx.stop(ctx.buf, offset);
  }

  /** `cmfs_process_dir_entry`.  Unless the user's function stops it, the walk
      shows exactly the live records of the block, in order, and besides them
      (only if deleted records are wanted) records that are not live, marked as
      deleted; it finds the block corrupted exactly if the live records do not
      lead from its start to its end. */
  method ProcessDirEntry(ctx: DirContext, bs: nat, first: nat)
    returns (corrupted: bool, do_abort: bool, calls: seq<Call>, ghost at: nat)
    requires bs + 14 <= |ctx.buf| && 1 <= first <= 3
    modifies ctx`errcode
    ensures ctx.errcode == if corrupted then DirCorrupted else old(ctx.errcode)
    ensures StopsLast(ctx.stop, ctx.buf, calls, do_abort)
    ensures !do_abort ==> (corrupted <==> !Chain(ctx.buf, 8, 0, bs))
    ensures !do_abort && !corrupted ==> Walked(ctx.buf, ctx.flags, bs, calls)
    ensures do_abort ==> !corrupted && calls[|calls| - 1].offset == at
    ensures do_abort ==> (calls[|calls| - 1].entry != CMFS_DIRENT_DELETED_FILE ==>
      Stopped(ctx.buf, ctx.flags, bs, calls, at))
    ensures do_abort && !ctx.flags.include_removed ==> calls[|calls| - 1].entry != CMFS_DIRENT_DELETED_FILE
    ensures Offsets(calls) <= Places(ctx.buf, ctx.flags, bs, 0)
      && (!do_abort ==> Offsets(calls) == Places(ctx.buf, ctx.flags, bs, 0))
    ensures Labelled(calls, first)
  {
    var offset: nat, next_real_entry: nat, entry := 0, 0, first;
    corrupted, do_abort, calls, at := false, false, [], 0;
    ReachedStart(ctx.buf, ctx.flags, bs);
    TrackStart(ctx.buf, ctx.flags, bs);
    while offset < bs
      invariant Reached(ctx.buf, ctx.flags, bs, offset, next_real_entry, calls)
      invariant StopsLast(ctx.stop, ctx.buf, calls, false) && !corrupted && !do_abort
      invariant Track(ctx.buf, ctx.flags, bs, offset, Offsets(calls))
      invariant entry == Label(first, |calls|)
      invariant Labelled(calls, first) && ctx.errcode == old(ctx.errcode)
      decreases bs - offset
    {
      var rec_len, name_len := RecLen(ctx.buf, offset), NameLen(ctx.buf, offset);
      if offset + rec_len > bs || rec_len < 8 || rec_len % 4 != 0 || name_len + 8 > rec_len {
        TrackEnd(ctx.buf, ctx.flags, bs, offset, Offsets(calls));
        BadEnd(ctx.buf, ctx.flags, bs, offset, next_real_entry, calls);
        ctx.errcode := DirCorrupted;
        corrupted := true;
        return;
      }
      var before := calls;
      StillInside(ctx.buf, ctx.flags, bs, offset, next_real_entry, calls);
      if Shown(ctx.buf, ctx.flags, offset) {
        var stopped;
        calls, entry, stopped := Show(ctx, offset, next_real_entry > offset, first, entry, before);
        if stopped {
          TrackStep(ctx.buf, ctx.flags, bs, offset, Offsets(before), Offsets(calls));
          do_abort, at := true, offset;
          return;
        }
      }
      TrackStep(ctx.buf, ctx.flags, bs, offset, Offsets(before), Offsets(calls));
      offset, next_real_entry := Advance(ctx, bs, offset, next_real_entry, before, calls);
    }
    TrackEnd(ctx.buf, ctx.flags, bs, offset, Offsets(calls));
    WalkEnd(ctx.buf, ctx.flags, bs, offset, next_real_entry, calls);
  }

  // ---- blocks ----

  /** The label of the first entry of a block. */
  function FirstLabel(blockcnt: nat): nat {
    if blockcnt > 0 then CMFS_DIRENT_OTHER_FILE else CMFS_DIRENT_DOT_FILE
  }

  /** `cmfs_process_dir_block`; `beyond` is whatever follows the block buffer in memory.
      A block that fails the check is corrupted and not walked; one that passes is corrupted,
      unless the user's function stops the walk, exactly if its live records do not lead
      to its end. */
  method ProcessDirBlock(ctx: DirContext, block: seq<byte>, beyond: seq<byte>, blockcnt: nat)
    returns (do_abort: bool, calls: seq<Call>, ghost at: nat)
    requires |beyond| == 14
    modifies ctx
    ensures ctx.buf == block + beyond && StopsLast(ctx.stop, ctx.buf, calls, do_abort && ctx.errcode == Ok)
    ensures Passes(block, 0, |block|) && !do_abort ==> ctx.errcode == Ok && Walked(ctx.buf, ctx.flags, |block|, calls)
    ensures do_abort && ctx.errcode == Ok ==> calls[|calls| - 1].offset == at
    ensures do_abort && ctx.errcode == Ok && !ctx.flags.include_removed ==>
      Stopped(ctx.buf, ctx.flags, |block|, calls, at)
    ensures Chain(block, 12, 0, |block|) ==> ctx.errcode == Ok
    ensures ctx.errcode == Ok || (ctx.errcode == DirCorrupted && do_abort)
    ensures !Passes(block, 0, |block|) ==> ctx.errcode == DirCorrupted && calls == []
    ensures Passes(block, 0, |block|) && !(do_abort && ctx.errcode == Ok) ==>
      && (ctx.errcode == DirCorrupted <==> !Chain(ctx.buf, 8, 0, |block|))
      && Offsets(calls) == Places(ctx.buf, ctx.flags, |block|, 0)
    ensures Passes(block, 0, |block|) ==> Offsets(calls) <= Places(ctx.buf, ctx.flags, |block|, 0)
    ensures Labelled(calls, if blockcnt > 0 then 3 else 1)
  {
    at, calls := 0, [];
    var bs := |block|;
    ctx.buf := block + beyond;
    assert ctx.buf[..bs] == block == block[..bs];
    if Chain(block, 12, 0, bs) {
      ChainPasses(block, 0, bs);
      ChainFrame(block, ctx.buf, 0, bs);
    }
    SameCheck(block, ctx.buf, 0);
    var checked := SwapDirEntries(ctx.buf, bs);
    ctx.errcode := checked;
    if checked != Ok {
      return true, [], 0;
    }
    var corrupted;
    corrupted, do_abort, calls, at := ProcessDirEntry(ctx, bs, FirstLabel(blockcnt));
    if corrupted {
      do_abort := true;
    }
  }

  /** The check of a block does not look past it. */
  lemma {:induction false} SameCheck(b: seq<byte>, b': seq<byte>, o: nat)
    requires b <= b'
    ensures Passes(b, o, |b|) <==> Passes(b', o, |b|)
    decreases |b| - o
  {
    if o + DIRENT_HEADER_SIZE < |b| && GoodRecord(b', 12, o) {
      SameCheck(b, b', o + RecLen(b', o));
    }
  }
}
