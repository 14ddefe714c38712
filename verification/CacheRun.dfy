/** Whole runs of the cached device: a plain array of bytes behind an exact LRU cache. */
module CacheRun {
  import RbShape
  import opened BlockCache
  import opened LruPolicy
  import opened LruExact
  import opened CacheOps
  import opened DiskImage
  import opened UnixIo

  /** A read or a write through the cache, or a vectored read, each ordinary or nocache. */
  datatype Op =
    | Read(blkno: nat, count: nat, nocache: bool)
    | Write(blkno: nat, bytes: seq<byte>, nocache: bool)
    | VecRead(ivus: seq<IoVecUnit>, nocache: bool)

  /** All of an operation: blocks of a read, bytes of a write, units of a vectored read. */
  function Amount(op: Op): nat {
    match op
    case Read(_, n, _) => n
    case Write(_, bytes, _) => |bytes|
    case VecRead(ivus, _) => |ivus|
  }

  /** An operation of which `amount` was done, and whether it succeeded. */
  datatype Deed = Deed(op: Op, amount: nat, ok: bool)

  /** No operation reaches block `UINT64_MAX`, writes are whole blocks, and the units of a
      vectored read lie on the device. */
  ghost predicate Sound(op: Op, bs: nat, size: nat)
    requires 0 < bs
  {
    match op
    case Read(b, n, _) => b + n <= UINT64_MAX
    case Write(b, bytes, _) => |bytes| == Pos(bs, Whole(|bytes|, bs))
    case VecRead(ivus, _) => forall ivu :: ivu in ivus ==> Pos(bs, ivu.ivu_blkno) + ivu.ivu_buflen <= size
  }

  /** What can be done of an operation: all exactly if it succeeds; no byte is written past
      the device, and a vectored read that fails does nothing. */
  ghost predicate Possible(d: Deed, bs: nat, size: nat)
    requires 0 < bs
  {
    && Sound(d.op, bs, size) && d.amount <= Amount(d.op)
    && match d.op
       case Read(_, n, _) => d.ok <==> d.amount == n
       case Write(b, bytes, _) => (d.ok <==> d.amount == |bytes|) && (d.amount > 0 ==> Pos(bs, b) + d.amount <= size)
       case VecRead(ivus, _) => d.amount == if d.ok then |ivus| else 0
  }

  ghost predicate AllPossible(deeds: seq<Deed>, bs: nat, size: nat)
    requires 0 < bs
  {
    forall d :: d in deeds ==> Possible(d, bs, size)
  }

  /** The device after an operation, by the plain specification. */
  ghost function Effect(img: seq<byte>, bs: nat, d: Deed): (r: seq<byte>)
    requires 0 < bs && Possible(d, bs, |img|)
    ensures |r| == |img|
  {
    match d.op
    case Write(b, bytes, _) => Written(img, Pos(bs, b), bytes[..d.amount])
    case _ => img
  }

  /** The buffer `buf` holds the bytes of the device from block `b` on. */
  ghost predicate Holds(img: seq<byte>, bs: nat, b: nat, size: nat, buf: seq<byte>) {
    Pos(bs, b) + size <= |img| && buf == img[Pos(bs, b)..Pos(bs, b) + size]
  }

  /** What an operation answers, by the plain specification: one buffer for a read, with
      the blocks that were read before it failed, and one for each unit of a vectored read. */
  ghost predicate Answers(img: seq<byte>, bs: nat, d: Deed, answer: seq<seq<byte>>)
    requires 0 < bs
  {
    match d.op
    case Read(b, _, _) => |answer| == 1 && if d.amount == 0 then answer[0] == []
      else Holds(img, bs, b, Pos(bs, d.amount), answer[0])
    case Write(_, _, _) => answer == []
    case VecRead(ivus, _) => d.ok ==>
      |answer| == |ivus| && forall i :: 0 <= i < |ivus| ==>
        Holds(img, bs, ivus[i].ivu_blkno, ivus[i].ivu_buflen, answer[i])
  }

  /** The recency order after an operation. */
  ghost function Used(order: Lru, bs: nat, d: Deed): (r: Lru)
    requires 0 < bs && order.Entry?
    ensures r.Entry?
  {
    match d.op
    case Read(b, _, nocache) => TouchedRun(order, b, d.amount, nocache)
    case Write(b, _, nocache) => TouchedRun(order, b, Whole(d.amount, bs), nocache)
    case VecRead(ivus, nocache) => TouchedUnits(order, if d.ok then ivus else [], bs, nocache)
  }

  /** The block that a write has left half written, as an empty or a one-block range; a
      read leaves none. */
  ghost function Half(bs: nat, d: Deed): (r: (nat, nat))
    requires 0 < bs
    ensures r.0 <= r.1 <= r.0 + 1
  {
    if d.op.Write? then
      var b := d.op.blkno + Whole(d.amount, bs);
      (b, b + Torn(d.amount, bs))
    else (0, 0)
  }

  /** The blocks of an operation lie on the device. */
  ghost predicate Reachable(op: Op, bs: nat, size: nat)
    requires 0 < bs
  {
    match op
    case Read(b, n, _) => OnDisk(size, Pos(bs, b), Pos(bs, n))
    case Write(b, bytes, _) => OnDisk(size, Pos(bs, b), |bytes|)
    case VecRead(_, _) => true
  }

  /** An operation succeeds exactly if every call it makes on the device, from the `k`-th up
      to the `n`-th, moves something, and its blocks lie on the device. */
  ghost predicate Succeeds(sys: nat -> int, op: Op, bs: nat, size: nat, k: nat, n: nat, ok: bool)
    requires 0 < bs
  {
    k <= n && (ok <==> AllGood(sys, k, n) && Reachable(op, bs, size))
  }

  /** After an operation the cache agrees with the device but for the block that is half
      written; after a write that succeeds, and after every read, with all of it. */
  ghost predicate Agrees(ch: IoChannel, d: Deed)
    reads ch, ch.io_cache, ch.io_cache.ic_lookup, RbShape.Nodes(ch.io_cache.ic_lookup.tree)
    reads ch.io_cache.ic_metadata_buffer, ch.io_cache.ic_lru, ch.io_cache.lru
  {
    && Cut(ch) && ChannelBut(ch, Half(ch.io_blksize, d).0, Half(ch.io_blksize, d).1)
    && (d.ok || !d.op.Write? ==> ChannelOk(ch))
  }

  method StepRead(ch: IoChannel, op: Op, k: nat)
    returns (ret: Errcode, answer: seq<seq<byte>>, ghost d: Deed, k': nat)
    requires ChannelOk(ch) && Sound(op, ch.io_blksize, |ch.disk|) && op.Read?
    modifies ch.io_cache, ch.io_cache.Repr
    ensures d.op == op && d.ok == (ret == Ok) && Possible(d, ch.io_blksize, |ch.disk|)
    ensures Succeeds(ch.io_sys, op, ch.io_blksize, |ch.disk|, k, k', d.ok)
    ensures Agrees(ch, d) && Answers(ch.disk, ch.io_blksize, d, answer) && ch.disk == old(ch.disk)
    ensures Recency(ch.io_cache) == Used(old(Recency(ch.io_cache)), ch.io_blksize, d)
  {
    CacheOpen(ch.io_cache);
    var data;
    ghost var done;
    ret, data, done, k' := IoCacheReadBlock(ch, op.blkno, op.count, op.nocache, k);
    OnDiskBlocks(ch.disk, ch.io_blksize, op.blkno, op.count);
    if done > 0 {
      ReadIsDisk(ch, op.blkno, done, data);
    }
    answer, d := [data], Deed(op, done, ret == Ok);
  }

  method StepWrite(ch: IoChannel, op: Op, k: nat)
    returns (ret: Errcode, answer: seq<seq<byte>>, ghost d: Deed, k': nat)
    requires ChannelOk(ch) && Sound(op, ch.io_blksize, |ch.disk|) && op.Write?
    modifies ch, ch.io_cache, ch.io_cache.Repr
    ensures d.op == op && d.ok == (ret == Ok) && Possible(d, ch.io_blksize, |old(ch.disk)|)
    ensures Succeeds(ch.io_sys, op, ch.io_blksize, |old(ch.disk)|, k, k', d.ok)
    ensures Agrees(ch, d) && Answers(old(ch.disk), ch.io_blksize, d, answer)
    ensures ch.disk == Effect(old(ch.disk), ch.io_blksize, d)
    ensures Recency(ch.io_cache) == Used(old(Recency(ch.io_cache)), ch.io_blksize, d)
  {
    ghost var tot;
    var count := Whole(|op.bytes|, ch.io_blksize);
    ret, tot, k' := IoCacheWriteBlocks(ch, op.blkno, count, op.bytes, op.nocache, k);
    answer, d := [], Deed(op, tot, ret == Ok);
  }

  method StepVec(ch: IoChannel, op: Op, k: nat)
    returns (ret: Errcode, answer: seq<seq<byte>>, ghost d: Deed, k': nat)
    requires ChannelOk(ch) && Sound(op, ch.io_blksize, |ch.disk|) && op.VecRead?
    modifies ch.io_cache, ch.io_cache.Repr
    ensures d.op == op && d.ok == (ret == Ok) && Possible(d, ch.io_blksize, |ch.disk|)
    ensures Succeeds(ch.io_sys, op, ch.io_blksize, |ch.disk|, k, k', d.ok)
    ensures Agrees(ch, d) && Answers(ch.disk, ch.io_blksize, d, answer) && ch.disk == old(ch.disk)
    ensures Recency(ch.io_cache) == Used(old(Recency(ch.io_cache)), ch.io_blksize, d)
  {
    CacheOpen(ch.io_cache);
    ret, answer, k' := IoCacheVecReadBlocks(ch, op.ivus, op.nocache, k);
    d := Deed(op, if ret == Ok then |op.ivus| else 0, ret == Ok);
  }

  /** One operation acts on the plain device and on the recency order, as far as it gets. */
  method Step(ch: IoChannel, op: Op, k: nat)
    returns (ret: Errcode, answer: seq<seq<byte>>, ghost d: Deed, k': nat)
    requires ChannelOk(ch) && Sound(op, ch.io_blksize, |ch.disk|)
    modifies ch, ch.io_cache, ch.io_cache.Repr
    ensures d.op == op && d.ok == (ret == Ok) && Possible(d, ch.io_blksize, |old(ch.disk)|)
    ensures Succeeds(ch.io_sys, op, ch.io_blksize, |old(ch.disk)|, k, k', d.ok)
    ensures Agrees(ch, d) && Answers(old(ch.disk), ch.io_blksize, d, answer)
    ensures ch.disk == Effect(old(ch.disk), ch.io_blksize, d)
    ensures Recency(ch.io_cache) == Used(old(Recency(ch.io_cache)), ch.io_blksize, d)
  {
    match op
    case Read(_, _, _) => ret, answer, d, k' := StepRead(ch, op, k);
    case Write(_, _, _) => ret, answer, d, k' := StepWrite(ch, op, k);
    case VecRead(_, _) => ret, answer, d, k' := StepVec(ch, op, k);
  }

  /** The device and the recency order after a run. */
  ghost function Final(img: seq<byte>, bs: nat, deeds: seq<Deed>): (r: seq<byte>)
    requires 0 < bs && AllPossible(deeds, bs, |img|)
    ensures |r| == |img|
  {
    if deeds == [] then img else Effect(Final(img, bs, deeds[..|deeds| - 1]), bs, deeds[|deeds| - 1])
  }

  ghost function OrderAfter(order: Lru, bs: nat, deeds: seq<Deed>): (r: Lru)
    requires 0 < bs && order.Entry?
    ensures r.Entry?
  {
    if deeds == [] then order else Used(OrderAfter(order, bs, deeds[..|deeds| - 1]), bs, deeds[|deeds| - 1])
  }

  /** Every answer is what the device held when its operation was run. */
  ghost predicate AllAnswer(disk: seq<byte>, bs: nat, deeds: seq<Deed>, answers: seq<seq<seq<byte>>>)
    requires 0 < bs && AllPossible(deeds, bs, |disk|)
  {
    |answers| == |deeds| && forall i :: 0 <= i < |answers| ==>
      Answers(Final(disk, bs, deeds[..i]), bs, deeds[i], answers[i])
  }

  /** What has been done of the operations, and what each returned. */
  ghost predicate Performed(ops: seq<Op>, deeds: seq<Deed>, rets: seq<Errcode>) {
    && |rets| == |deeds| <= |ops|
    && forall i :: 0 <= i < |deeds| ==> deeds[i].op == ops[i] && deeds[i].ok == (rets[i] == Ok)
  }

  lemma Extended(disk: seq<byte>, bs: nat, deeds: seq<Deed>, d: Deed, order: Lru)
    requires 0 < bs && AllPossible(deeds, bs, |disk|) && Possible(d, bs, |disk|) && order.Entry?
    ensures AllPossible(deeds + [d], bs, |disk|)
    ensures Final(disk, bs, deeds + [d]) == Effect(Final(disk, bs, deeds), bs, d)
    ensures OrderAfter(order, bs, deeds + [d]) == Used(OrderAfter(order, bs, deeds), bs, d)
  {
    assert (deeds + [d])[..|deeds|] == deeds;
  }

  lemma AnsweredMore(disk: seq<byte>, bs: nat, deeds: seq<Deed>, d: Deed, answers: seq<seq<seq<byte>>>,
                     answer: seq<seq<byte>>)
    requires 0 < bs && AllPossible(deeds, bs, |disk|) && AllPossible(deeds + [d], bs, |disk|)
    requires AllAnswer(disk, bs, deeds, answers) && Answers(Final(disk, bs, deeds), bs, d, answer)
    ensures AllAnswer(disk, bs, deeds + [d], answers + [answer])
  {
    forall k | 0 <= k < |deeds| + 1
      ensures Answers(Final(disk, bs, (deeds + [d])[..k]), bs, (deeds + [d])[k], (answers + [answer])[k])
    {
      assert (deeds + [d])[..k] == deeds[..k];
      assert deeds[..|deeds|] == deeds;
    }
  }

  /** The operations succeed exactly as the calls on the device do, one after the other: that
      of deed `i` are those from `clock[i]` up to `clock[i + 1]`. */
  ghost predicate Timed(sys: nat -> int, bs: nat, size: nat, deeds: seq<Deed>, clock: seq<nat>)
    requires 0 < bs
  {
    && |clock| == |deeds| + 1
    && forall i :: 0 <= i < |deeds| ==> Succeeds(sys, deeds[i].op, bs, size, clock[i], clock[i + 1], deeds[i].ok)
  }

  lemma TimedMore(sys: nat -> int, bs: nat, size: nat, deeds: seq<Deed>, clock: seq<nat>, d: Deed, n: nat)
    requires 0 < bs && Timed(sys, bs, size, deeds, clock)
    requires Succeeds(sys, d.op, bs, size, clock[|deeds|], n, d.ok)
    ensures Timed(sys, bs, size, deeds + [d], clock + [n])
  {
  }

  /** All operations were performed, or the last one performed was a write that failed,
      and the only one. */
  ghost predicate Finished(ops: seq<Op>, deeds: seq<Deed>) {
    && (forall i :: 0 <= i < |deeds| - 1 && deeds[i].op.Write? ==> deeds[i].ok)
    && (|deeds| < |ops| ==> deeds != [] && deeds[|deeds| - 1].op.Write? && !deeds[|deeds| - 1].ok)
  }

  /** No write has failed. */
  ghost predicate Going(deeds: seq<Deed>) {
    forall i :: 0 <= i < |deeds| && deeds[i].op.Write? ==> deeds[i].ok
  }

  lemma PerformedMore(ops: seq<Op>, deeds: seq<Deed>, rets: seq<Errcode>, d: Deed, ret: Errcode)
    requires Performed(ops, deeds, rets) && Going(deeds) && |deeds| < |ops|
    requires d.op == ops[|deeds|] && d.ok == (ret == Ok)
    ensures Performed(ops, deeds + [d], rets + [ret])
    ensures !d.op.Write? || d.ok ==> Going(deeds + [d])
    ensures d.op.Write? && !d.ok ==> Finished(ops, deeds + [d]) && !Going(deeds + [d])
  {
    assert (deeds + [d])[|deeds|] == d;
  }

  lemma AllPerformed(ops: seq<Op>, deeds: seq<Deed>)
    requires Going(deeds) && |deeds| == |ops|
    ensures Finished(ops, deeds)
  {
  }

  /** A channel after a run: what has become of the device, the cache and the answers. */
  ghost predicate Matches(ch: IoChannel, slots: nat, disk: seq<byte>, deeds: seq<Deed>, answers: seq<seq<seq<byte>>>)
    reads ch, ch.io_cache, ch.io_cache.ic_lookup, RbShape.Nodes(ch.io_cache.ic_lookup.tree)
    reads ch.io_cache.ic_metadata_buffer, ch.io_cache.ic_lru, ch.io_cache.lru
  {
    && 0 < ch.io_blksize && 0 < slots && AllPossible(deeds, ch.io_blksize, |disk|)
    && ch.disk == Final(disk, ch.io_blksize, deeds) && AllAnswer(disk, ch.io_blksize, deeds, answers)
    && CacheValid(ch.io_cache) && Recency(ch.io_cache) == OrderAfter(FreeSlots(slots), ch.io_blksize, deeds)
  }

  lemma MatchesMore(disk: seq<byte>, bs: nat, slots: nat, deeds: seq<Deed>, d: Deed,
                    answers: seq<seq<seq<byte>>>, answer: seq<seq<byte>>)
    requires 0 < bs && 0 < slots && AllPossible(deeds, bs, |disk|) && Possible(d, bs, |disk|)
    requires AllAnswer(disk, bs, deeds, answers) && Answers(Final(disk, bs, deeds), bs, d, answer)
    ensures AllPossible(deeds + [d], bs, |disk|) && AllAnswer(disk, bs, deeds + [d], answers + [answer])
    ensures Final(disk, bs, deeds + [d]) == Effect(Final(disk, bs, deeds), bs, d)
    ensures OrderAfter(FreeSlots(slots), bs, deeds + [d]) == Used(OrderAfter(FreeSlots(slots), bs, deeds), bs, d)
  {
    Extended(disk, bs, deeds, d, FreeSlots(slots));
    AnsweredMore(disk, bs, deeds, d, answers, answer);
  }

  /** The next operation of a run. */
  method Next(ch: IoChannel, op: Op, ghost slots: nat, ghost disk: seq<byte>, ghost deeds: seq<Deed>,
              answers: seq<seq<seq<byte>>>, k: nat)
    returns (ret: Errcode, answers': seq<seq<seq<byte>>>, ghost d: Deed, k': nat)
    requires ChannelOk(ch) && Matches(ch, slots, disk, deeds, answers) && Sound(op, ch.io_blksize, |disk|)
    modifies ch, ch.io_cache, ch.io_cache.Repr
    ensures d.op == op && d.ok == (ret == Ok) && Agrees(ch, d)
    ensures Succeeds(ch.io_sys, op, ch.io_blksize, |disk|, k, k', d.ok)
    ensures Matches(ch, slots, disk, deeds + [d], answers')
  {
    var answer;
    ret, answer, d, k' := Step(ch, op, k);
    MatchesMore(disk, ch.io_blksize, slots, deeds, d, answers, answer);
    answers' := answers + [answer];
  }

  /** From the opening of a channel, up to the first write that fails: reads of all kinds
      answer what the plain device holds, as far as they get, writes change it, and the
      recency order is that of the accesses one by one. In the end the cache agrees with
      the device, after a write that failed but for the block that it left half written. */
  method Run(blksize: nat, slots: nat, disk: seq<byte>, sys: nat -> int, ops: seq<Op>)
    returns (ch: IoChannel, rets: seq<Errcode>, answers: seq<seq<seq<byte>>>, ghost deeds: seq<Deed>,
             ghost clock: seq<nat>)
    requires 0 < blksize && 0 < slots && |disk| <= UINT64_MAX
    requires forall op :: op in ops ==> Sound(op, blksize, |disk|)
    ensures ch.io_blksize == blksize && Performed(ops, deeds, rets) && Finished(ops, deeds)
    ensures Matches(ch, slots, disk, deeds, answers) && Timed(sys, blksize, |disk|, deeds, clock)
    ensures Going(deeds) ==> ChannelOk(ch)
    ensures !Going(deeds) ==> deeds != [] && Agrees(ch, deeds[|deeds| - 1])
  {
    ch := new IoChannel(blksize, slots, disk, sys);
    var k := 0;
    CacheOpen(ch.io_cache);
    rets, answers, deeds, clock := [], [], [], [0];
    while |rets| < |ops|
      invariant fresh(ch) && fresh(ch.io_cache) && fresh(ch.io_cache.Repr)
      invariant ch.io_blksize == blksize && ch.io_sys == sys && Performed(ops, deeds, rets)
      invariant Timed(sys, blksize, |disk|, deeds, clock) && clock[|deeds|] == k
      invariant ChannelOk(ch) && Matches(ch, slots, disk, deeds, answers)
      invariant Going(deeds)
      decreases |ops| - |rets|
    {
      var op := ops[|rets|];
      var ret;
      ghost var d;
      ret, answers, d, k := Next(ch, op, slots, disk, deeds, answers, k);
      TimedMore(sys, blksize, |disk|, deeds, clock, d, k);
      clock := clock + [k];
      PerformedMore(ops, deeds, rets, d, ret);
      rets, deeds := rets + [ret], deeds + [d];
      if ret != Ok && op.Write? {
        return;
      }
    }
    AllPerformed(ops, deeds);
  }

  // ---- runs of ordinary accesses ----

  ghost function Accesses(history: Lru, bs: nat, d: Deed): Lru
    requires 0 < bs
  {
    match d.op
    case Read(b, _, _) => Accessed(history, b, d.amount)
    case Write(b, _, _) => Accessed(history, b, Whole(d.amount, bs))
    case VecRead(ivus, _) => AccessedUnits(history, if d.ok then ivus else [], bs)
  }

  ghost function AccessedUnits(history: Lru, ivus: seq<IoVecUnit>, bs: nat): Lru
    requires 0 < bs
  {
    if ivus == [] then history
    else
      var ivu := ivus[|ivus| - 1];
      Accessed(AccessedUnits(history, ivus[..|ivus| - 1], bs), ivu.ivu_blkno, Whole(ivu.ivu_buflen, bs))
  }

  /** The blocks accessed in a run, newest first. */
  ghost function History(bs: nat, deeds: seq<Deed>): Lru
    requires 0 < bs
  {
    if deeds == [] then End else Accesses(History(bs, deeds[..|deeds| - 1]), bs, deeds[|deeds| - 1])
  }

  lemma {:induction false} UnitsAreHistory(history: Lru, slots: nat, ivus: seq<IoVecUnit>, bs: nat)
    requires 0 < slots && 0 < bs
    ensures TouchedUnits(After(history, slots), ivus, bs, false) == After(AccessedUnits(history, ivus, bs), slots)
  {
    if ivus != [] {
      var front, ivu := ivus[..|ivus| - 1], ivus[|ivus| - 1];
      UnitsAreHistory(history, slots, front, bs);
      RunIsHistory(AccessedUnits(history, front, bs), slots, ivu.ivu_blkno, Whole(ivu.ivu_buflen, bs));
    }
  }

  lemma {:induction false} OrdinaryHistory(slots: nat, bs: nat, deeds: seq<Deed>)
    requires 0 < slots && 0 < bs && forall d :: d in deeds ==> !d.op.nocache
    ensures OrderAfter(FreeSlots(slots), bs, deeds) == After(History(bs, deeds), slots)
  {
    if deeds != [] {
      var front, d := deeds[..|deeds| - 1], deeds[|deeds| - 1];
      assert d in deeds;
      OrdinaryHistory(slots, bs, front);
      var history := History(bs, front);
      match d.op
      case Read(b, _, _) => RunIsHistory(history, slots, b, d.amount);
      case Write(b, _, _) => RunIsHistory(history, slots, b, Whole(d.amount, bs));
      case VecRead(ivus, _) => UnitsAreHistory(history, slots, if d.ok then ivus else [], bs);
    }
  }

  lemma {:induction false} AccessedBelow(history: Lru, b: nat, n: nat, m: nat)
    requires b + n <= m && !Has(history, m)
    ensures !Has(Accessed(history, b, n), m)
    decreases n
  {
    if n > 0 {
      AccessedBelow(Entry(b, history), b + 1, n - 1, m);
    }
  }

  /** Blocks on the device have numbers below its size. */
  lemma OnDevice(bs: nat, b: nat, len: nat, size: nat)
    requires 0 < bs && Pos(bs, b) + len <= size
    ensures b + Whole(len, bs) <= size
  {
    WholeBlocks(len, bs);
    Distribute(bs, b, Whole(len, bs));
    Grows(bs, b + Whole(len, bs));
  }

  lemma {:induction false} UnitsBelow(history: Lru, ivus: seq<IoVecUnit>, bs: nat, size: nat)
    requires 0 < bs && size <= UINT64_MAX && !Has(history, UINT64_MAX)
    requires forall ivu :: ivu in ivus ==> Pos(bs, ivu.ivu_blkno) + ivu.ivu_buflen <= size
    ensures !Has(AccessedUnits(history, ivus, bs), UINT64_MAX)
  {
    if ivus != [] {
      var front, ivu := ivus[..|ivus| - 1], ivus[|ivus| - 1];
      UnitsBelow(history, front, bs, size);
      assert ivu in ivus;
      OnDevice(bs, ivu.ivu_blkno, ivu.ivu_buflen, size);
      AccessedBelow(AccessedUnits(history, front, bs), ivu.ivu_blkno, Whole(ivu.ivu_buflen, bs), UINT64_MAX);
    }
  }

  /** No run accesses the number that marks a free descriptor. */
  lemma {:induction false} NeverMarker(bs: nat, deeds: seq<Deed>, size: nat)
    requires 0 < bs && size <= UINT64_MAX && AllPossible(deeds, bs, size)
    ensures !Has(History(bs, deeds), UINT64_MAX)
  {
    if deeds != [] {
      var front, d := deeds[..|deeds| - 1], deeds[|deeds| - 1];
      assert d in deeds;
      NeverMarker(bs, front, size);
      match d.op
      case Read(b, _, _) => AccessedBelow(History(bs, front), b, d.amount, UINT64_MAX);
      case Write(b, _, _) =>
        if d.amount > 0 {
          OnDevice(bs, b, d.amount, size);
          AccessedBelow(History(bs, front), b, Whole(d.amount, bs), UINT64_MAX);
        }
      case VecRead(ivus, _) =>
        UnitsBelow(History(bs, front), if d.ok then ivus else [], bs, size);
    }
  }

  /** After a run of ordinary accesses the cache holds the most recent distinct blocks,
      as an exact LRU cache would. */
  lemma OrdinaryRun(slots: nat, bs: nat, deeds: seq<Deed>, size: nat)
    requires 0 < slots && 0 < bs && size <= UINT64_MAX && AllPossible(deeds, bs, size)
    requires forall d :: d in deeds ==> !d.op.nocache
    ensures OrderAfter(FreeSlots(slots), bs, deeds) == Ideal(History(bs, deeds), slots)
  {
    OrdinaryHistory(slots, bs, deeds);
    NeverMarker(bs, deeds, size);
    ExactLru(History(bs, deeds), slots);
  }
}
