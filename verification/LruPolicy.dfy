/** What the block cache promises about which blocks it keeps: the cached block
    numbers in LRU order, as a function of the accesses. */
module LruPolicy {
  import opened BlockCache

  /** The block numbers of the descriptors, the next victim first. */
  datatype Lru = End | Entry(blkno: nat, later: Lru)

  function Length(order: Lru): nat {
    if order.End? then 0 else 1 + Length(order.later)
  }

  predicate Has(order: Lru, b: nat) {
    order.Entry? && (order.blkno == b || Has(order.later, b))
  }

  function Append(order: Lru, b: nat): Lru {
    if order.End? then Entry(b, End) else Entry(order.blkno, Append(order.later, b))
  }

  function Remove(order: Lru, b: nat): Lru {
    if order.End? then End else if order.blkno == b then order.later else Entry(order.blkno, Remove(order.later, b))
  }

  /** `n` descriptors that name no block. */
  function FreeSlots(n: nat): Lru {
    if n == 0 then End else Entry(UINT64_MAX, FreeSlots(n - 1))
  }

  /** The order after an access to `b`: a hit moves to the end (or, with
      `nocache`, to the front); a miss takes the place of the first entry. */
  function Touched(order: Lru, b: nat, nocache: bool): Lru
    requires order.Entry?
  {
    if Has(order, b) then
      if nocache then Entry(b, Remove(order, b)) else Append(Remove(order, b), b)
    else if nocache then order
    else Append(order.later, b)
  }

  /** The order after accesses to `n` blocks from `b` on. */
  function TouchedRun(order: Lru, b: nat, n: nat, nocache: bool): (r: Lru)
    requires order.Entry?
    ensures r.Entry?
    decreases n
  {
    if n == 0 then order else TouchedRun(Touched(order, b, nocache), b + 1, n - 1, nocache)
  }

  lemma TouchedStep(order: Lru, b: nat, n: nat, order': Lru, b': nat, n': nat, nocache: bool, last: Lru)
    requires order.Entry? && 0 < n && order' == Touched(order, b, nocache) && b' == b + 1 && n' == n - 1
    requires TouchedRun(order, b, n, nocache) == last
    ensures order'.Entry? && TouchedRun(order', b', n', nocache) == last
  {
  }

  lemma {:induction false} HasAppend(order: Lru, b: nat, x: nat)
    ensures Has(Append(order, b), x) <==> Has(order, x) || x == b
  {
    if order.Entry? {
      HasAppend(order.later, b, x);
    }
  }

  lemma {:induction false} HasRemove(order: Lru, b: nat, x: nat)
    requires Has(order, b)
    ensures Has(order, x) <==> Has(Remove(order, b), x) || x == b
  {
    if order.blkno != b {
      HasRemove(order.later, b, x);
    }
  }

  /** A hit changes no one's being cached. */
  lemma HitKeeps(order: Lru, b: nat, nocache: bool, x: nat)
    requires Has(order, b)
    ensures Has(Touched(order, b, nocache), x) <==> Has(order, x)
  {
    HasRemove(order, b, x);
    HasAppend(Remove(order, b), b, x);
  }

  /** Every block from `b` up to `e` is cached. */
  ghost predicate AllCached(order: Lru, b: nat, e: nat) {
    forall x :: b <= x < e ==> Has(order, x)
  }

  lemma AllCachedStep(order: Lru, b: nat, order': Lru, b': nat, e: nat, nocache: bool)
    requires order.Entry? && AllCached(order, b, e) && order' == Touched(order, b, nocache) && b' == b + 1
    ensures AllCached(order', b', e)
  {
    forall x | b' <= x < e
      ensures Has(order', x)
    {
      HitKeeps(order, b, nocache, x);
    }
  }

  lemma {:induction false} TouchedTwice(order: Lru, b: nat, m: nat, n: nat, nocache: bool)
    requires order.Entry?
    ensures TouchedRun(TouchedRun(order, b, m, nocache), b + m, n, nocache) == TouchedRun(order, b, m + n, nocache)
    decreases m
  {
    if m > 0 {
      TouchedTwice(Touched(order, b, nocache), b + 1, m - 1, n, nocache);
    }
  }
}
