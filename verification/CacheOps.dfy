/** unix_io.c: what one block of a cached read or write does to the cache. */
module CacheOps {
  import opened RbShape
  import opened KernelList
  import opened RbOrder
  import opened BlockCache
  import opened LruPolicy

  /** The block numbers of the descriptors in list order. */
  ghost function OrderOf(lru: seq<ListHead>, keys: seq<nat>): Lru
    requires forall m :: m in lru ==> m.id < |keys|
  {
    if lru == [] then End else Entry(keys[lru[0].id], OrderOf(lru[1..], keys))
  }

  /** The descriptors that name a block. */
  ghost function Live(keys: seq<nat>): set<nat> {
    set i | 0 <= i < |keys| && keys[i] != UINT64_MAX
  }

  /** Both views of the cache are consistent, and a descriptor is in the tree
      exactly when it names a block. */
  ghost predicate CacheOk(ic: IoCache)
    reads ic, ic.ic_lookup, Nodes(ic.ic_lookup.tree), ic.ic_metadata_buffer, ic.ic_lru, ic.lru
  {
    ic.IndexOk(Live(ic.keys)) && ic.ListOk() && 0 < |ic.lru|
  }

  lemma LiveSteal(keys: seq<nat>, at: nat, b: nat)
    requires at < |keys| && b != UINT64_MAX
    ensures at !in Live(keys) - {at} && Live(keys[at := b]) == Live(keys) - {at} + {at}
    ensures keys[at := UINT64_MAX][at := b] == keys[at := b]
  {
  }

  /** Take the victim and let it name `b`. */
  method Steal(ic: IoCache, b: nat) returns (icb: IoCacheBlock)
    requires CacheOk(ic) && b < UINT64_MAX && forall i :: i in Live(ic.keys) ==> ic.keys[i] != b
    modifies ic`keys, ic.ic_lookup, Nodes(ic.ic_lookup.tree)
    modifies {ic.ic_metadata_buffer[ic.lru[0].id]}`icb_blkno, ic.ic_metadata_buffer[ic.lru[0].id].icb_node
    ensures ic.IndexOk(Live(ic.keys)) && icb == ic.ic_metadata_buffer[ic.lru[0].id]
    ensures ic.keys == old(ic.keys)[ic.lru[0].id := b]
  {
    ghost var at, live := ic.lru[0].id, Live(ic.keys);
    LiveSteal(ic.keys, at, b);
    icb := IoCachePopLru(ic, live);
    NameBlock(ic, icb, b, live - {at}, at);
    IoCacheInsert(ic, icb, live - {at}, at);
  }

  method StealOk(ic: IoCache, b: nat) returns (icb: IoCacheBlock)
    requires CacheOk(ic) && b < UINT64_MAX && forall i :: i in Live(ic.keys) ==> ic.keys[i] != b
    modifies ic`keys, ic.ic_lookup, Nodes(ic.ic_lookup.tree)
    modifies {ic.ic_metadata_buffer[ic.lru[0].id]}`icb_blkno, ic.ic_metadata_buffer[ic.lru[0].id].icb_node
    ensures CacheOk(ic) && icb == ic.ic_metadata_buffer[ic.lru[0].id]
    ensures ic.keys == old(ic.keys)[ic.lru[0].id := b]
  {
    icb := Steal(ic, b);
  }

  // ---- the order, as block numbers ----

  ghost function Order(ic: IoCache): Lru
    requires ic.Addressed() && Listed(ic.lru, ic.ic_metadata_buffer) && |ic.keys| == |ic.ic_metadata_buffer|
    reads ic
  {
    OrderOf(ic.lru, ic.keys)
  }

  /** The block number of the `k`-th entry. */
  ghost function KeyAt(lru: seq<ListHead>, keys: seq<nat>, k: nat): nat
    requires k < |lru| && forall m :: m in lru ==> m.id < |keys|
  {
    keys[lru[k].id]
  }

  lemma {:induction false} OrderHas(lru: seq<ListHead>, keys: seq<nat>, b: nat)
    requires forall m :: m in lru ==> m.id < |keys|
    ensures Has(OrderOf(lru, keys), b) <==> exists k :: 0 <= k < |lru| && KeyAt(lru, keys, k) == b
  {
    if lru != [] {
      var rest := lru[1..];
      OrderHas(rest, keys, b);
      assert forall k :: 0 <= k < |rest| ==> KeyAt(rest, keys, k) == KeyAt(lru, keys, k + 1);
      if k :| 0 <= k < |lru| && KeyAt(lru, keys, k) == b {
        assert k > 0 ==> KeyAt(rest, keys, k - 1) == b;
      }
      if k :| 0 <= k < |rest| && KeyAt(rest, keys, k) == b {
        assert KeyAt(lru, keys, k + 1) == b;
      }
      assert KeyAt(lru, keys, 0) == keys[lru[0].id];
    }
  }

  lemma {:induction false} OrderFree(lru: seq<ListHead>, keys: seq<nat>)
    requires (forall m :: m in lru ==> m.id < |keys|) && forall i :: 0 <= i < |keys| ==> keys[i] == UINT64_MAX
    ensures OrderOf(lru, keys) == FreeSlots(|lru|)
  {
    if lru != [] {
      OrderFree(lru[1..], keys);
    }
  }

  /** `list_add_tail`. */
  lemma {:induction false} OrderAppend(lru: seq<ListHead>, keys: seq<nat>, m: ListHead)
    requires m.id < |keys| && forall m :: m in lru ==> m.id < |keys|
    ensures OrderOf(lru + [m], keys) == Append(OrderOf(lru, keys), keys[m.id])
  {
    if lru != [] {
      assert (lru + [m])[1..] == lru[1..] + [m];
      OrderAppend(lru[1..], keys, m);
    } else {
      assert [m][1..] == [];
    }
  }

  /** `list_del` of the first entry for `b`. */
  lemma {:induction false} OrderRemove(lru: seq<ListHead>, keys: seq<nat>, k: nat)
    requires k < |lru| && forall m :: m in lru ==> m.id < |keys|
    requires forall j :: 0 <= j < k ==> KeyAt(lru, keys, j) != KeyAt(lru, keys, k)
    ensures OrderOf(Without(lru, k), keys) == Remove(OrderOf(lru, keys), KeyAt(lru, keys, k))
  {
    if k > 0 {
      var rest := lru[1..];
      assert KeyAt(lru, keys, 0) != KeyAt(lru, keys, k);
      assert forall j :: 0 <= j < k ==> KeyAt(rest, keys, j) == KeyAt(lru, keys, j + 1);
      OrderRemove(rest, keys, k - 1);
      assert Without(lru, k)[0] == lru[0] && Without(lru, k)[1..] == Without(rest, k - 1);
    } else {
      assert Without(lru, 0) == lru[1..];
    }
  }

  /** Renaming a descriptor changes nothing where it is not listed. */
  lemma {:induction false} OrderFrame(lru: seq<ListHead>, keys: seq<nat>, at: nat, b: nat)
    requires at < |keys| && forall m :: m in lru ==> m.id < |keys| && m.id != at
    ensures OrderOf(lru, keys[at := b]) == OrderOf(lru, keys)
  {
    if lru != [] {
      assert lru[0] in lru;
      OrderFrame(lru[1..], keys, at, b);
    }
  }

  /** The list position of the descriptor that names `b`, or of the victim. */
  ghost predicate EntryFor(lru: seq<ListHead>, keys: seq<nat>, b: nat, k: nat)
    requires forall m :: m in lru ==> m.id < |keys|
  {
    k < |lru|
    && if Has(OrderOf(lru, keys), b) then
         KeyAt(lru, keys, k) == b && forall j :: 0 <= j < k ==> KeyAt(lru, keys, j) != b
       else k == 0
  }

  lemma UniqueHolder(ic: IoCache, at: nat)
    requires CacheOk(ic) && at in Live(ic.keys)
    ensures forall i :: 0 <= i < |ic.keys| && ic.keys[i] == ic.keys[at] ==> i == at
  {
    forall i | 0 <= i < |ic.keys| && ic.keys[i] == ic.keys[at]
      ensures i == at
    {
      assert i in Live(ic.keys);
      OrderedInjective(ic.ic_lookup.tree, ic.keys, -1, UINT64_MAX, ic.ic_metadata_buffer[i].icb_node,
                       ic.ic_metadata_buffer[at].icb_node);
    }
  }

  /** Where the list entry of a descriptor is, and that no other entry has its block number. */
  lemma EntryOf(ic: IoCache, at: nat) returns (k: nat)
    requires CacheOk(ic) && at in Live(ic.keys)
    ensures k < |ic.lru| && ic.lru[k] == ic.ic_metadata_buffer[at].icb_list && ic.lru[k].id == at
    ensures Has(Order(ic), ic.keys[at]) && EntryFor(ic.lru, ic.keys, ic.keys[at], k)
  {
    SpreadNoRepeats(ic.ic_lru, ic.lru);
    k :| 0 <= k < |ic.lru| && ic.lru[k] == ic.ic_metadata_buffer[at].icb_list;
    UniqueHolder(ic, at);
    assert KeyAt(ic.lru, ic.keys, k) == ic.keys[at];
    OrderHas(ic.lru, ic.keys, ic.keys[at]);
    forall j | 0 <= j < k
      ensures KeyAt(ic.lru, ic.keys, j) != ic.keys[at]
    {
      assert ic.lru[j] in ic.lru;
    }
  }

  lemma NotCached(ic: IoCache, b: nat)
    requires CacheOk(ic) && b != UINT64_MAX && forall i :: i in Live(ic.keys) ==> ic.keys[i] != b
    ensures !Has(Order(ic), b)
  {
    OrderHas(ic.lru, ic.keys, b);
  }

  /** The end of an access: `io_cache_unsee` or `io_cache_seen`. */
  method Touch(ic: IoCache, icb: IoCacheBlock, nocache: bool, ghost k: nat)
    requires CacheOk(ic) && k < |ic.lru| && icb.icb_list == ic.lru[k]
    modifies ic`lru, ic.ic_lru, ic.lru
    ensures CacheOk(ic)
    ensures ic.lru == old(if nocache then [ic.lru[k]] + Without(ic.lru, k) else Without(ic.lru, k) + [ic.lru[k]])
  {
    TouchList(ic, icb, nocache, k);
  }

  method TouchList(ic: IoCache, icb: IoCacheBlock, nocache: bool, ghost k: nat)
    requires ic.ListOk() && k < |ic.lru| && icb.icb_list == ic.lru[k]
    modifies ic`lru, ic.ic_lru, ic.lru
    ensures ic.ListOk()
    ensures ic.lru == old(if nocache then [ic.lru[k]] + Without(ic.lru, k) else Without(ic.lru, k) + [ic.lru[k]])
  {
    if nocache {
      IoCacheUnsee(ic, icb, k);
    } else {
      IoCacheSeen(ic, icb, k);
    }
  }

  /** Find the descriptor of `b`; on a miss take the victim, unless `nocache`. */
  method FindOrSteal(ic: IoCache, b: nat, nocache: bool) returns (icb: IoCacheBlock?, ghost k: nat)
    requires CacheOk(ic) && b < UINT64_MAX
    modifies ic`keys, ic.ic_lookup, Nodes(ic.ic_lookup.tree)
    modifies {ic.ic_metadata_buffer[ic.lru[0].id]}`icb_blkno, ic.ic_metadata_buffer[ic.lru[0].id].icb_node
    ensures CacheOk(ic)
    ensures icb == null <==> nocache && !old(Has(Order(ic), b))
    ensures icb == null ==> ic.keys == old(ic.keys)
    ensures icb != null ==> k < |ic.lru| && icb.icb_list == ic.lru[k] && icb == ic.ic_metadata_buffer[ic.lru[k].id]
    ensures icb != null ==> ic.keys == old(ic.keys)[ic.lru[k].id := b] && old(EntryFor(ic.lru, ic.keys, b, k))
  {
    k := 0;
    ghost var at, steps;
    icb, at, steps := IoCacheLookup(ic, b, Live(ic.keys));
    if icb == null {
      NotCached(ic, b);
      if nocache {
        return;
      }
      icb := StealOk(ic, b);
    } else {
      k := EntryOf(ic, at);
    }
  }

  lemma ListedApart(lru: seq<ListHead>, icbs: seq<IoCacheBlock>, k: nat)
    requires k < |lru| && Listed(lru, icbs) && NoRepeats(lru)
    ensures forall m :: m in Without(lru, k) ==> m.id < |icbs| && m.id != lru[k].id
  {
  }

  /** The order after an access is the policy's. */
  lemma AccessOrder(lru: seq<ListHead>, keys: seq<nat>, icbs: seq<IoCacheBlock>, b: nat, nocache: bool, k: nat)
    requires 0 < |lru| && |icbs| == |keys| && Listed(lru, icbs) && NoRepeats(lru)
    requires EntryFor(lru, keys, b, k) && (nocache ==> Has(OrderOf(lru, keys), b))
    ensures lru[k].id < |keys|
    ensures OrderOf(if nocache then [lru[k]] + Without(lru, k) else Without(lru, k) + [lru[k]], keys[lru[k].id := b])
      == Touched(OrderOf(lru, keys), b, nocache)
  {
    ListedApart(lru, icbs, k);
    assert lru[k] in lru;
    var keys' := keys[lru[k].id := b];
    var rest := Without(lru, k);
    OrderFrame(rest, keys, lru[k].id, b);
    OrderAppend(rest, keys', lru[k]);
    assert ([lru[k]] + rest)[1..] == rest;
    if Has(OrderOf(lru, keys), b) {
      OrderRemove(lru, keys, k);
    } else {
      assert rest == lru[1..];
    }
  }

  lemma NoHolder(ic: IoCache, b: nat)
    requires CacheOk(ic) && b != UINT64_MAX && !Has(Order(ic), b)
    ensures forall i :: 0 <= i < |ic.keys| ==> ic.keys[i] != b
  {
    OrderHas(ic.lru, ic.keys, b);
    forall i | 0 <= i < |ic.keys|
      ensures ic.keys[i] != b
    {
      var k :| 0 <= k < |ic.lru| && ic.lru[k] == ic.ic_metadata_buffer[i].icb_list;
      assert KeyAt(ic.lru, ic.keys, k) == ic.keys[i];
    }
  }

  method Fill(ic: IoCache, icb: IoCacheBlock, bytes: seq<byte>, ghost at: nat)
    requires CacheOk(ic) && at < |ic.data| && icb == ic.ic_metadata_buffer[at]
    modifies icb`icb_buf, ic`data
    ensures CacheOk(ic) && ic.data == old(ic.data)[at := bytes]
  {
    FillBlock(ic, icb, bytes, Live(ic.keys), at);
  }

  /** The descriptors named by `keys` hold `data`; after an access to `b` only the
      descriptor of `b` differs, and it holds `bytes`. */
  ghost predicate OnlyChanged(keys: seq<nat>, data: seq<seq<byte>>, keys': seq<nat>, data': seq<seq<byte>>, b: nat,
                              bytes: seq<byte>) {
    && |keys| == |data| == |keys'| == |data'|
    && forall i :: 0 <= i < |keys'| ==>
         if keys'[i] == b then data'[i] == bytes else keys'[i] == keys[i] && data'[i] == data[i]
  }

  lemma StoreEffect(ic: IoCache, keys: seq<nat>, data: seq<seq<byte>>, at: nat, b: nat, bytes: seq<byte>)
    requires CacheOk(ic) && b != UINT64_MAX && at < |keys| == |data|
    requires ic.keys == keys[at := b] && ic.data == data[at := bytes]
    ensures OnlyChanged(keys, data, ic.keys, ic.data, b, bytes)
  {
    UniqueHolder(ic, at);
  }

  /** What `Store` does to each descriptor: `k` is the list position it used, or -1. */
  method StoreRaw(ic: IoCache, b: nat, data: seq<byte>, nocache: bool) returns (ghost k: int)
    requires CacheOk(ic) && b < UINT64_MAX
    modifies ic`keys, ic`lru, ic`data, ic.ic_lookup, Nodes(ic.ic_lookup.tree), ic.ic_metadata_buffer, ic.ic_lru, ic.lru
    modifies ic.ic_metadata_buffer[ic.lru[0].id].icb_node
    ensures CacheOk(ic)
    ensures k == -1 <==> nocache && !old(Has(Order(ic), b))
    ensures k != -1 ==> 0 <= k && old(EntryFor(ic.lru, ic.keys, b, k))
    ensures k == -1 ==> ic.lru == old(ic.lru) && ic.keys == old(ic.keys) && ic.data == old(ic.data)
    ensures k != -1 ==>
      && ic.keys == old(ic.keys)[old(ic.lru)[k].id := b] && ic.data == old(ic.data)[old(ic.lru)[k].id := data]
      && ic.lru == old(if nocache then [ic.lru[k]] + Without(ic.lru, k) else Without(ic.lru, k) + [ic.lru[k]])
  {
    var icb;
    icb, k := FindOrSteal(ic, b, nocache);
    if icb == null {
      k := -1;
    } else {
      Fill(ic, icb, data, ic.lru[k].id);
      Touch(ic, icb, nocache, k);
    }
  }

  /** The body of the loops of `io_cache_write_blocks` and
      `io_cache_vec_read_blocks`: block `b` has just become `data` on disk. */
  method Store(ic: IoCache, b: nat, data: seq<byte>, nocache: bool)
    requires CacheOk(ic) && b < UINT64_MAX
    modifies ic`keys, ic`lru, ic`data, ic.ic_lookup, Nodes(ic.ic_lookup.tree), ic.ic_metadata_buffer, ic.ic_lru, ic.lru
    modifies ic.ic_metadata_buffer[ic.lru[0].id].icb_node
    ensures CacheOk(ic) && Order(ic) == Touched(old(Order(ic)), b, nocache)
    ensures OnlyChanged(old(ic.keys), old(ic.data), ic.keys, ic.data, b, data)
  {
    ghost var lru, keys, bytes := ic.lru, ic.keys, ic.data;
    SpreadNoRepeats(ic.ic_lru, lru);
    ghost var k := StoreRaw(ic, b, data, nocache);
    if k == -1 {
      NoHolder(ic, b);
    } else {
      AccessOrder(lru, keys, ic.ic_metadata_buffer, b, nocache, k);
      StoreEffect(ic, keys, bytes, lru[k].id, b, data);
    }
  }

  // ---- one block of a cached read ----

  /** Lookup, then the three branches of the read loop: a block that was skipped
      comes from the cache, a missing one takes the victim (unless `nocache`),
      and a block read although it was cached is only marked. */
  method FindOrFill(ic: IoCache, b: nat, skipped: bool, buf: seq<byte>, nocache: bool)
    returns (icb: IoCacheBlock?, out: seq<byte>, ghost k: nat)
    requires CacheOk(ic) && b < UINT64_MAX && (skipped ==> Has(Order(ic), b))
    modifies ic`keys, ic`data, ic.ic_lookup, Nodes(ic.ic_lookup.tree)
    modifies {ic.ic_metadata_buffer[ic.lru[0].id]}, ic.ic_metadata_buffer[ic.lru[0].id].icb_node
    ensures CacheOk(ic)
    ensures icb == null <==> nocache && !old(Has(Order(ic), b))
    ensures icb == null ==> ic.keys == old(ic.keys) && ic.data == old(ic.data)
    ensures icb != null ==> k < |ic.lru| && icb.icb_list == ic.lru[k] && icb == ic.ic_metadata_buffer[ic.lru[k].id]
    ensures icb != null ==> ic.keys == old(ic.keys)[ic.lru[k].id := b] && old(EntryFor(ic.lru, ic.keys, b, k))
    ensures icb != null ==>
      ic.data == if old(Has(Order(ic), b)) then old(ic.data) else old(ic.data)[ic.lru[k].id := buf]
    ensures out == if skipped then old(ic.data)[ic.lru[k].id] else buf
  {
    k, out := 0, buf;
    ghost var at, steps;
    icb, at, steps := IoCacheLookup(ic, b, Live(ic.keys));
    if icb == null {
      NotCached(ic, b);
    } else {
      k := EntryOf(ic, at);
    }
    if skipped {
      assert icb != null;
      out := icb.icb_buf;
    } else if icb == null {
      if nocache {
        return;
      }
      icb := StealOk(ic, b);
      Fill(ic, icb, buf, ic.lru[0].id);
    }
  }

  /** What an access leaves behind when every descriptor of `b` held `bytes` before it. */
  lemma FetchEffect(ic: IoCache, keys: seq<nat>, data: seq<seq<byte>>, at: nat, b: nat, bytes: seq<byte>)
    requires CacheOk(ic) && b != UINT64_MAX && at < |keys| == |data|
    requires ic.keys == keys[at := b] && (ic.data == data[at := bytes] || (ic.data == data && keys[at] == b))
    requires forall i :: 0 <= i < |keys| && keys[i] == b ==> data[i] == bytes
    ensures OnlyChanged(keys, data, ic.keys, ic.data, b, bytes)
  {
  }

  method FetchRaw(ic: IoCache, b: nat, skipped: bool, buf: seq<byte>, nocache: bool)
    returns (out: seq<byte>, ghost k: int)
    requires CacheOk(ic) && b < UINT64_MAX && (skipped ==> Has(Order(ic), b))
    modifies ic`keys, ic`lru, ic`data, ic.ic_lookup, Nodes(ic.ic_lookup.tree), ic.ic_metadata_buffer, ic.ic_lru, ic.lru
    modifies ic.ic_metadata_buffer[ic.lru[0].id].icb_node
    ensures CacheOk(ic)
    ensures k == -1 <==> nocache && !old(Has(Order(ic), b))
    ensures k != -1 ==> 0 <= k && old(EntryFor(ic.lru, ic.keys, b, k))
    ensures k == -1 ==> ic.lru == old(ic.lru) && ic.keys == old(ic.keys) && ic.data == old(ic.data)
    ensures k != -1 ==>
      && ic.keys == old(ic.keys)[old(ic.lru)[k].id := b]
      && ic.data == (if old(Has(Order(ic), b)) then old(ic.data) else old(ic.data)[old(ic.lru)[k].id := buf])
      && ic.lru == old(if nocache then [ic.lru[k]] + Without(ic.lru, k) else Without(ic.lru, k) + [ic.lru[k]])
    ensures out == if skipped && k != -1 then old(ic.data)[old(ic.lru)[k].id] else buf
  {
    var icb;
    icb, out, k := FindOrFill(ic, b, skipped, buf, nocache);
    if icb == null {
      k := -1;
    } else {
      Touch(ic, icb, nocache, k);
    }
  }

  /** The body of the loop of `io_cache_read_blocks`, for block `b` whose bytes
      on disk are `bytes`. */
  method Fetch(ic: IoCache, b: nat, skipped: bool, buf: seq<byte>, nocache: bool, ghost bytes: seq<byte>)
    returns (out: seq<byte>)
    requires CacheOk(ic) && b < UINT64_MAX && (if skipped then Has(Order(ic), b) else buf == bytes)
    requires forall i :: 0 <= i < |ic.keys| && ic.keys[i] == b ==> ic.data[i] == bytes
    modifies ic`keys, ic`lru, ic`data, ic.ic_lookup, Nodes(ic.ic_lookup.tree), ic.ic_metadata_buffer, ic.ic_lru, ic.lru
    modifies ic.ic_metadata_buffer[ic.lru[0].id].icb_node
    ensures CacheOk(ic) && Order(ic) == Touched(old(Order(ic)), b, nocache) && out == bytes
    ensures OnlyChanged(old(ic.keys), old(ic.data), ic.keys, ic.data, b, bytes)
  {
    ghost var lru, keys, data := ic.lru, ic.keys, ic.data;
    SpreadNoRepeats(ic.ic_lru, lru);
    ghost var k;
    out, k := FetchRaw(ic, b, skipped, buf, nocache);
    if k == -1 {
      NoHolder(ic, b);
    } else {
      AccessOrder(lru, keys, ic.ic_metadata_buffer, b, nocache, k);
      FetchEffect(ic, keys, data, lru[k].id, b, bytes);
    }
  }

  // ---- the cache as its users see it ----

  /** The cache is consistent.  The quantifier keeps the verifier from looking
      inside until `IndexOk` is mentioned. */
  ghost predicate CacheValid(ic: IoCache)
    reads ic, ic.ic_lookup, Nodes(ic.ic_lookup.tree), ic.ic_metadata_buffer, ic.ic_lru, ic.lru
  {
    forall live {:trigger ic.IndexOk(live)} :: live == Live(ic.keys) ==> CacheOk(ic) && ic.Owns()
  }

  lemma CacheOpen(ic: IoCache)
    requires CacheValid(ic)
    ensures CacheOk(ic) && ic.Owns()
  {
  }

  /** The block numbers in the cache, the next victim first. */
  ghost function Recency(ic: IoCache): (order: Lru)
    requires CacheValid(ic)
    reads ic, ic.ic_lookup, Nodes(ic.ic_lookup.tree), ic.ic_metadata_buffer, ic.ic_lru, ic.lru
    ensures order.Entry?
  {
    CacheOpen(ic);
    Order(ic)
  }

  lemma InRepr(ic: IoCache)
    requires CacheOk(ic) && ic.Owns()
    ensures forall n :: n in Nodes(ic.ic_lookup.tree) ==> n in ic.Repr
    ensures forall m :: m in ic.lru ==> m in ic.Repr
    ensures ic.lru[0].id < |ic.ic_metadata_buffer|
  {
  }

  /** `Store`, with everything it may change named once and for all. */
  method StoreIn(ic: IoCache, b: nat, bytes: seq<byte>, nocache: bool)
    requires CacheValid(ic) && b < UINT64_MAX
    modifies ic, ic.Repr
    ensures CacheValid(ic) && Recency(ic) == Touched(old(Recency(ic)), b, nocache)
    ensures OnlyChanged(old(ic.keys), old(ic.data), ic.keys, ic.data, b, bytes)
  {
    CacheOpen(ic);
    InRepr(ic);
    Store(ic, b, bytes, nocache);
  }

  method FetchIn(ic: IoCache, b: nat, skipped: bool, buf: seq<byte>, nocache: bool, ghost bytes: seq<byte>)
    returns (out: seq<byte>)
    requires CacheValid(ic) && b < UINT64_MAX && (if skipped then Has(Recency(ic), b) else buf == bytes)
    requires forall i :: 0 <= i < |ic.keys| <= |ic.data| && ic.keys[i] == b ==> ic.data[i] == bytes
    modifies ic, ic.Repr
    ensures CacheValid(ic) && Recency(ic) == Touched(old(Recency(ic)), b, nocache) && out == bytes
    ensures OnlyChanged(old(ic.keys), old(ic.data), ic.keys, ic.data, b, bytes)
  {
    CacheOpen(ic);
    InRepr(ic);
    out := Fetch(ic, b, skipped, buf, nocache, bytes);
  }

  lemma {:induction false} MembersCount(nodes: set<RbNode>, icbs: seq<IoCacheBlock>, live: set<nat>)
    requires Members(nodes, icbs, live) && forall i :: 0 <= i < |icbs| ==> icbs[i].icb_node.id == i
    ensures |nodes| == |live|
    decreases live
  {
    if at :| at in live {
      MembersRemove(nodes, icbs, live, at);
      MembersCount(nodes - {icbs[at].icb_node}, icbs, live - {at});
    } else if n :| n in nodes {
      assert false;
    }
  }

  lemma {:induction false} NodesCount(t: Tree)
    requires Distinct(t)
    ensures |Nodes(t)| == |Inorder(t)|
  {
    if t.Node? {
      NodesCount(t.left);
      NodesCount(t.right);
      assert Nodes(t) == Nodes(t.left) + {t.n} + Nodes(t.right);
    }
  }

  lemma StepsBound(ic: IoCache, steps: nat)
    requires CacheOk(ic) && steps <= Height(ic.ic_lookup.tree)
    ensures Pow2(steps) <= (|Live(ic.keys)| + 1) * (|Live(ic.keys)| + 1)
  {
    ic.ic_lookup.ValidHolds();
    var t := ic.ic_lookup.tree;
    MembersCount(Nodes(t), ic.ic_metadata_buffer, Live(ic.keys));
    NodesCount(t);
    HeightBound(t);
    Pow2Monotone(steps, Height(t));
  }

  /** `io_cache_lookup` of a block, by its effect: it is found exactly when it
      is cached, within twice the logarithm of the number of cached blocks. */
  method Cached(ic: IoCache, b: nat) returns (found: bool, ghost steps: nat)
    requires CacheValid(ic) && b < UINT64_MAX
    ensures CacheValid(ic) && Recency(ic) == old(Recency(ic)) && (found <==> Has(Recency(ic), b))
    ensures Pow2(steps) <= (|Live(ic.keys)| + 1) * (|Live(ic.keys)| + 1)
  {
    CacheOpen(ic);
    var icb;
    ghost var at;
    icb, at, steps := IoCacheLookup(ic, b, Live(ic.keys));
    StepsBound(ic, steps);
    found := icb != null;
    if icb == null {
      NotCached(ic, b);
    } else {
      ghost var k := EntryOf(ic, at);
    }
  }
}
