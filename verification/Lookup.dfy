/** lookup.c: finding a name in a directory. */
module Lookup {
  import opened Common
  import opened BlockCache
  import opened DirBlock
  import opened DirIterate

  /** The inode of the first entry in use with this name. */
  function FindIn(entries: seq<Dirent>, name: seq<byte>): Option<nat> {
    if entries == [] then None
    else if entries[0].inode != 0 && entries[0].name == name then Some(entries[0].inode)
    else FindIn(entries[1..], name)
  }

  lemma {:induction false} FindConcat(a: seq<Dirent>, b: seq<Dirent>, name: seq<byte>)
    ensures FindIn(a + b, name) == if FindIn(a, name).Some? then FindIn(a, name) else FindIn(b, name)
  {
    if a == [] {
      assert a + b == b;
    } else {
      assert (a + b)[1..] == a[1..] + b;
      FindConcat(a[1..], b, name);
    }
  }

  /** `strncmp` finds the first `n` bytes equal. */
  predicate StrnEqual(a: seq<byte>, b: seq<byte>, n: nat)
    requires n <= |a| && n <= |b|
  {
    n == 0 || (a[0] == b[0] && (a[0] == 0 || StrnEqual(a[1..], b[1..], n - 1)))
  }

  lemma {:induction false} StrnExact(a: seq<byte>, b: seq<byte>)
    requires |a| <= |b| && 0 !in a
    ensures StrnEqual(a, b, |a|) <==> a == b[..|a|]
  {
    if a != [] {
      StrnExact(a[1..], b[1..]);
      assert a == [a[0]] + a[1..] && b[..|a|] == [b[0]] + b[1..][..|a| - 1];
    }
  }

  /** `lookup_proc`: whether the record at `o` is the one looked for. */
  predicate LookupProc(name: seq<byte>, b: seq<byte>, o: nat) {
    o + 12 <= |b| && o + 12 + NameLen(b, o) <= |b| && |name| == NameLen(b, o) && StrnEqual(name, b[o + 12..], |name|)
  }

  lemma LookupProcExact(name: seq<byte>, b: seq<byte>, o: nat)
    requires GoodRecord(b, 8, o) && o + 12 + NameLen(b, o) <= |b| && 0 !in name
    ensures LookupProc(name, b, o) <==> DirentAt(b, o).name == name
  {
    BytesAtSlice(b, o + 12, NameLen(b, o));
    if |name| == NameLen(b, o) {
      StrnExact(name, b[o + 12..]);
      assert b[o + 12..][..|name|] == Name(b, o);
    }
  }

  const NO_FLAGS := Flags(false, false, false)

  /** When no shown record matches, no entry in use has the name. */
  lemma {:induction false} NoneFound(name: seq<byte>, b: seq<byte>, o: nat, end: nat)
    requires Chain(b, 8, o, end) && end + 14 <= |b| && 0 !in name
    requires forall x :: x in ShownFrom(b, NO_FLAGS, o, end) ==> !LookupProc(name, b, x)
    ensures FindIn(Entries(b, o, end), name) == None
    decreases end - o
  {
    if o != end {
      var next := o + RecLen(b, o);
      ChainEnd(b, 8, next, end);
      LookupProcExact(name, b, o);
      assert Shown(b, NO_FLAGS, o) ==> o in ShownFrom(b, NO_FLAGS, o, end);
      assert forall x :: x in ShownFrom(b, NO_FLAGS, next, end) ==> x in ShownFrom(b, NO_FLAGS, o, end);
      NoneFound(name, b, next, end);
      assert Entries(b, o, end)[1..] == Entries(b, next, end);
    }
  }

  /** The record that stopped the walk is the first entry with the name. */
  lemma FoundAt(name: seq<byte>, b: seq<byte>, at: nat, end: nat)
    requires Chain(b, 8, 0, end) && end + 14 <= |b| && 0 !in name
    requires at < end && Chain(b, 8, 0, at) && GoodRecord(b, 8, at) && at + RecLen(b, at) <= end
      && Shown(b, NO_FLAGS, at)
    requires LookupProc(name, b, at)
    requires forall x :: x in ShownFrom(b, NO_FLAGS, 0, at) ==> !LookupProc(name, b, x)
    ensures FindIn(Entries(b, 0, end), name) == Some(Inode(b, at))
  {
    ChainJoin(b, 8, 0, at, end);
    EntriesJoin(b, 0, at, end);
    NoneFound(name, b, 0, at);
    LookupProcExact(name, b, at);
    FindConcat(Entries(b, 0, at), Entries(b, at, end), name);
    assert Entries(b, at, end)[0] == DirentAt(b, at);
  }

  // ---- directories ----

  /** Every block is tiled by its records. */
  ghost predicate Tiled(blocks: seq<seq<byte>>) {
    forall k :: 0 <= k < |blocks| ==> Chain(blocks[k], 12, 0, |blocks[k]|)
  }

  /** The entries of a directory, block after block. */
  ghost function AllEntries(blocks: seq<seq<byte>>): seq<Dirent>
    requires Tiled(blocks)
  {
    if blocks == [] then []
    else
      var last := blocks[|blocks| - 1];
      ChainSmaller(last, 0, |last|);
      AllEntries(blocks[..|blocks| - 1]) + Entries(last, 0, |last|)
  }

  /** The user's function of a lookup. */
  ghost predicate LooksFor(ctx: DirContext, name: seq<byte>) {
    ctx.flags == NO_FLAGS && forall b, o :: ctx.stop(b, o) <==> LookupProc(name, b, o)
  }

  lemma {:induction false} NotStopping(calls: seq<Call>, stop: (seq<byte>, nat) -> bool, b: seq<byte>)
    requires forall k :: 0 <= k < |calls| ==> !stop(b, calls[k].offset)
    ensures forall x :: x in LiveCalls(calls) ==> !stop(b, x)
  {
    if calls != [] {
      NotStopping(calls[..|calls| - 1], stop, b);
    }
  }

  /** A block without the name is walked to its end. */
  lemma WalkedNone(ctx: DirContext, name: seq<byte>, b: seq<byte>, bs: nat, calls: seq<Call>)
    requires bs + 14 <= |b| && 0 !in name && LooksFor(ctx, name)
    requires StopsLast(ctx.stop, b, calls, false) && Walked(b, NO_FLAGS, bs, calls)
    ensures FindIn(Entries(b, 0, bs), name) == None
  {
    NotStopping(calls, ctx.stop, b);
    NoneFound(name, b, 0, bs);
  }

  /** A block with the name is walked to the first record that has it. */
  lemma StoppedFirst(ctx: DirContext, name: seq<byte>, b: seq<byte>, bs: nat, calls: seq<Call>, at: nat)
    requires bs + 14 <= |b| && 0 !in name && LooksFor(ctx, name) && Chain(b, 8, 0, bs)
    requires StopsLast(ctx.stop, b, calls, true) && Stopped(b, NO_FLAGS, bs, calls, at)
      && calls[|calls| - 1].offset == at
    ensures FindIn(Entries(b, 0, bs), name) == Some(Inode(b, at))
  {
    var front := calls[..|calls| - 1];
    assert forall k :: 0 <= k < |front| ==> front[k] == calls[k];
    NotStopping(front, ctx.stop, b);
    assert ctx.stop(b, at);
    forall x | x in ShownFrom(b, NO_FLAGS, 0, at)
      ensures !LookupProc(name, b, x)
    {
      InFront(ShownFrom(b, NO_FLAGS, 0, at), LiveCalls(front), at, x);
      assert !ctx.stop(b, x);
    }
    FoundAt(name, b, at, bs);
  }

  lemma InFront(shown: seq<nat>, live: seq<nat>, at: nat, x: nat)
    requires x in shown && (live + [at] == shown + [at] || live == shown + [at])
    ensures x in live
  {
    if live + [at] == shown + [at] {
      assert live == (live + [at])[..|live|] == (shown + [at])[..|shown|] == shown;
    }
  }

  // ---- whatever the blocks hold ----

  /** What a lookup comes to in a block. */
  datatype Sight = Nothing | Seen(inode: nat) | Corrupted

  /** The first of these places with the record looked for. */
  function FirstMatch(name: seq<byte>, b: seq<byte>, places: seq<nat>): Option<nat> {
    if places == [] then None
    else if LookupProc(name, b, places[0]) then Some(places[0])
    else FirstMatch(name, b, places[1..])
  }

  lemma {:induction false} FirstMatchAt(name: seq<byte>, b: seq<byte>, places: seq<nat>, k: nat)
    requires k < |places| && LookupProc(name, b, places[k])
    requires forall j :: 0 <= j < k ==> !LookupProc(name, b, places[j])
    ensures FirstMatch(name, b, places) == Some(places[k])
    decreases k
  {
    if k > 0 {
      FirstMatchAt(name, b, places[1..], k - 1);
    }
  }

  lemma {:induction false} NoMatch(name: seq<byte>, b: seq<byte>, places: seq<nat>)
    requires forall j :: 0 <= j < |places| ==> !LookupProc(name, b, places[j])
    ensures FirstMatch(name, b, places) == None
  {
    if places != [] {
      NoMatch(name, b, places[1..]);
    }
  }

  lemma {:induction false} OffsetAt(calls: seq<Call>, k: nat)
    requires k < |calls|
    ensures Offsets(calls)[k] == calls[k].offset
  {
    if k < |calls| - 1 {
      OffsetAt(calls[..|calls| - 1], k);
    }
  }

  lemma FirstMatchIs(name: seq<byte>, b: seq<byte>, o: nat, places: seq<nat>)
    requires FirstMatch(name, b, places) == Some(o)
    ensures LookupProc(name, b, o)
  {
  }

  /** A block is rejected, or the records in use are looked at from its start; one that
      does not match and cannot be stepped over ends the lookup. */
  ghost function BlockSight(name: seq<byte>, block: seq<byte>, beyond: seq<byte>): Sight
    requires |beyond| == 14
  {
    var b := block + beyond;
    var found := FirstMatch(name, b, Places(b, NO_FLAGS, |block|, 0));
    if !Passes(block, 0, |block|) then Corrupted
    else if found.Some? then
      FirstMatchIs(name, b, found.value, Places(b, NO_FLAGS, |block|, 0));
      Seen(Inode(b, found.value))
    else if Chain(b, 8, 0, |block|) then Nothing
    else Corrupted
  }

  /** The first block in which there is something decides, whatever the later ones hold. */
  ghost function DirSight(name: seq<byte>, blocks: seq<seq<byte>>, beyond: seq<byte>): Sight
    requires |beyond| == 14
  {
    if blocks == [] then Nothing
    else
      var first := BlockSight(name, blocks[0], beyond);
      if first != Nothing then first else DirSight(name, blocks[1..], beyond)
  }

  /** Where a walk that looks for a name was stopped, and that it was not. */
  lemma SightOf(ctx: DirContext, name: seq<byte>, b: seq<byte>, calls: seq<Call>, places: seq<nat>, stopped: bool)
    requires LooksFor(ctx, name) && StopsLast(ctx.stop, b, calls, stopped) && Offsets(calls) <= places
    requires !stopped ==> Offsets(calls) == places
    ensures FirstMatch(name, b, places) == if stopped then Some(calls[|calls| - 1].offset) else None
  {
    forall k | 0 <= k < |calls|
      ensures places[k] == calls[k].offset && (LookupProc(name, b, places[k]) <==> stopped && k == |calls| - 1)
    {
      OffsetAt(calls, k);
      assert ctx.stop(b, calls[k].offset) <==> LookupProc(name, b, calls[k].offset);
    }
    if stopped {
      FirstMatchAt(name, b, places, |calls| - 1);
    } else {
      NoMatch(name, b, places);
    }
  }

  /** The lookup in one block. */
  method LookupBlock(ctx: DirContext, name: seq<byte>, block: seq<byte>, beyond: seq<byte>, blockcnt: nat)
    returns (found: Option<nat>)
    requires |beyond| == 14 && 0 !in name && LooksFor(ctx, name)
    modifies ctx
    ensures ctx.errcode == Ok || ctx.errcode == DirCorrupted
    ensures BlockSight(name, block, beyond) ==
      if ctx.errcode == DirCorrupted then Corrupted else if found.Some? then Seen(found.value) else Nothing
    ensures Chain(block, 12, 0, |block|) ==>
      ctx.errcode == Ok && Chain(block, 8, 0, |block|) && found == FindIn(Entries(block, 0, |block|), name)
  {
    var do_abort, calls;
    ghost var at;
    do_abort, calls, at := ProcessDirBlock(ctx, block, beyond, blockcnt);
    found := None;
    if do_abort && ctx.errcode == Ok {
      found := Some(Inode(ctx.buf, calls[|calls| - 1].offset));
    }
    if Passes(block, 0, |block|) {
      SightOf(ctx, name, ctx.buf, calls, Places(ctx.buf, NO_FLAGS, |block|, 0), do_abort && ctx.errcode == Ok);
    }
    if Chain(block, 12, 0, |block|) {
      ChainPasses(block, 0, |block|);
      SameEntries(block, ctx.buf);
      if do_abort {
        StoppedFirst(ctx, name, ctx.buf, |block|, calls, at);
      } else {
        WalkedNone(ctx, name, ctx.buf, |block|, calls);
      }
    }
  }

  lemma SameEntries(block: seq<byte>, b: seq<byte>)
    requires Chain(block, 12, 0, |block|) && block <= b
    ensures Chain(block, 8, 0, |block|) && Chain(b, 8, 0, |block|)
      && Entries(block, 0, |block|) == Entries(b, 0, |block|)
  {
    assert block[..|block|] == block == b[..|block|];
    ChainFrame(block, b, 0, |block|);
  }

  lemma AllEntriesMore(blocks: seq<seq<byte>>, i: nat)
    requires Tiled(blocks) && i < |blocks| && Chain(blocks[i], 8, 0, |blocks[i]|)
    ensures Tiled(blocks[..i]) && Tiled(blocks[..i + 1])
    ensures AllEntries(blocks[..i + 1]) == AllEntries(blocks[..i]) + Entries(blocks[i], 0, |blocks[i]|)
  {
    assert blocks[..i + 1][..i] == blocks[..i];
  }

  /** `cmfs_lookup`: the inode of the first entry in use with the name, and an
      error exactly when there is none; only a directory with a block that is not
      tiled by records can be reported as corrupted. */
  method CmfsLookup(blocks: seq<seq<byte>>, name: seq<byte>, beyond: seq<byte>) returns (ret: Errcode, inode: nat)
    requires |beyond| == 14 && 0 !in name
    ensures ret == Ok || ret == FileNotFound || ret == DirCorrupted
    ensures DirSight(name, blocks, beyond) ==
      if ret == Ok then Seen(inode) else if ret == DirCorrupted then Corrupted else Nothing
    ensures Tiled(blocks) ==>
      ret != DirCorrupted && FindIn(AllEntries(blocks), name) == if ret == Ok then Some(inode) else None
  {
    var ctx := new DirContext(NO_FLAGS, (b: seq<byte>, o: nat) => LookupProc(name, b, o));
    ret, inode := FileNotFound, 0;
    var i := 0;
    while i < |blocks|
      invariant i <= |blocks| && LooksFor(ctx, name) && ret == FileNotFound && NotYet(blocks, i, name)
      invariant DirSight(name, blocks, beyond) == DirSight(name, blocks[i..], beyond)
    {
      assert blocks[i..][0] == blocks[i] && blocks[i..][1..] == blocks[i + 1..];
      var found := LookupBlock(ctx, name, blocks[i], beyond, i);
      NextBlock(blocks, i, name, found);
      if ctx.errcode != Ok {
        ret := ctx.errcode;
        return;
      }
      if found.Some? {
        ret, inode := Ok, found.value;
        return;
      }
      i := i + 1;
    }
    if Tiled(blocks) {
      NoneOfAll(blocks, name);
    }
  }

  /** The name is not in the first `i` blocks. */
  ghost predicate NotYet(blocks: seq<seq<byte>>, i: nat, name: seq<byte>)
    requires i <= |blocks|
  {
    Tiled(blocks) ==> Tiled(blocks[..i]) && FindIn(AllEntries(blocks[..i]), name) == None
  }

  lemma NextBlock(blocks: seq<seq<byte>>, i: nat, name: seq<byte>, found: Option<nat>)
    requires i < |blocks| && NotYet(blocks, i, name)
    requires Chain(blocks[i], 12, 0, |blocks[i]|) ==>
      Chain(blocks[i], 8, 0, |blocks[i]|) && found == FindIn(Entries(blocks[i], 0, |blocks[i]|), name)
    ensures found == None ==> NotYet(blocks, i + 1, name)
    ensures found.Some? && Tiled(blocks) ==> FindIn(AllEntries(blocks), name) == found
  {
    if Tiled(blocks) {
      AllEntriesMore(blocks, i);
      FindConcat(AllEntries(blocks[..i]), Entries(blocks[i], 0, |blocks[i]|), name);
      if found.Some? {
        FirstWins(blocks, i + 1, name);
      }
    }
  }

  lemma NoneOfAll(blocks: seq<seq<byte>>, name: seq<byte>)
    requires NotYet(blocks, |blocks|, name) && Tiled(blocks)
    ensures FindIn(AllEntries(blocks), name) == None
  {
    assert blocks[..|blocks|] == blocks;
  }

  /** What is found in the first blocks is found in all. */
  lemma {:induction false} FirstWins(blocks: seq<seq<byte>>, i: nat, name: seq<byte>)
    requires Tiled(blocks) && i <= |blocks| && Tiled(blocks[..i]) && FindIn(AllEntries(blocks[..i]), name).Some?
    ensures FindIn(AllEntries(blocks), name) == FindIn(AllEntries(blocks[..i]), name)
    decreases |blocks| - i
  {
    if i == |blocks| {
      assert blocks[..i] == blocks;
    } else {
      ChainSmaller(blocks[i], 0, |blocks[i]|);
      AllEntriesMore(blocks, i);
      FindConcat(AllEntries(blocks[..i]), Entries(blocks[i], 0, |blocks[i]|), name);
      FirstWins(blocks, i + 1, name);
    }
  }

  // ---- the order of a walk ----

  /** The entries in use. */
  function InUse(entries: seq<Dirent>): seq<Dirent> {
    if entries == [] then [] else (if entries[0].inode != 0 then [entries[0]] else []) + InUse(entries[1..])
  }

  /** The entries at these offsets. */
  function EntriesAt(b: seq<byte>, offsets: seq<nat>): seq<Dirent> {
    if offsets == [] then []
    else (if GoodRecord(b, 8, offsets[0]) then [DirentAt(b, offsets[0])] else []) + EntriesAt(b, offsets[1..])
  }

  lemma InUseHead(d: Dirent, rest: seq<Dirent>)
    ensures InUse([d] + rest) == (if d.inode != 0 then [d] else []) + InUse(rest)
  {
  }

  lemma AtHead(b: seq<byte>, o: nat, rest: seq<nat>)
    requires GoodRecord(b, 8, o)
    ensures EntriesAt(b, [o] + rest) == [DirentAt(b, o)] + EntriesAt(b, rest)
  {
  }

  /** A walk without flags shows the entries in use, in the order of their records. */
  lemma {:induction false} WalkOrder(b: seq<byte>, o: nat, end: nat)
    requires Chain(b, 8, o, end) && end + 14 <= |b|
    ensures EntriesAt(b, ShownFrom(b, NO_FLAGS, o, end)) == InUse(Entries(b, o, end))
    decreases end - o
  {
    if o != end {
      var next := o + RecLen(b, o);
      ChainEnd(b, 8, next, end);
      WalkOrder(b, next, end);
      InUseHead(DirentAt(b, o), Entries(b, next, end));
      AtHead(b, o, ShownFrom(b, NO_FLAGS, next, end));
      assert [] + ShownFrom(b, NO_FLAGS, next, end) == ShownFrom(b, NO_FLAGS, next, end);
    }
  }
}
