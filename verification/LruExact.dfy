/** Over ordinary accesses the cache is an exact LRU cache. */
module LruExact {
  import opened BlockCache
  import opened LruPolicy

  /** The order after a history of ordinary accesses, the latest access first,
      to a cache that started with `n` free descriptors. */
  function After(history: Lru, n: nat): (r: Lru)
    requires 0 < n
    ensures r.Entry?
  {
    if history.End? then FreeSlots(n) else Touched(After(history.later, n), history.blkno, false)
  }

  /** A block is cached exactly when it was accessed and fewer than `n` other
      blocks were accessed since. */
  function AccessedSince(history: Lru, b: nat): set<nat> {
    if history.End? || history.blkno == b then {} else {history.blkno} + AccessedSince(history.later, b)
  }

  /** The history after accesses to `n` blocks from `b` on. */
  function Accessed(history: Lru, b: nat, n: nat): Lru
    decreases n
  {
    if n == 0 then history else Accessed(Entry(b, history), b + 1, n - 1)
  }

  lemma {:induction false} RunIsHistory(history: Lru, slots: nat, b: nat, n: nat)
    requires 0 < slots
    ensures TouchedRun(After(history, slots), b, n, false) == After(Accessed(history, b, n), slots)
    decreases n
  {
    if n > 0 {
      RunIsHistory(Entry(b, history), slots, b + 1, n - 1);
    }
  }

  // ---- the distinct blocks of a history, the latest first ----

  function Latest(history: Lru): Lru {
    if history.End? then End else Entry(history.blkno, Remove(Latest(history.later), history.blkno))
  }

  function Take(order: Lru, n: nat): Lru {
    if n == 0 || order.End? then End else Entry(order.blkno, Take(order.later, n - 1))
  }

  function Backwards(order: Lru): Lru {
    if order.End? then End else Append(Backwards(order.later), order.blkno)
  }

  function Concat(front: Lru, back: Lru): Lru {
    if front.End? then back else Entry(front.blkno, Concat(front.later, back))
  }

  predicate Distinct(order: Lru) {
    order.Entry? ==> !Has(order.later, order.blkno) && Distinct(order.later)
  }

  /** Free descriptors first, then the latest blocks with the least recent in front. */
  function Ideal(history: Lru, n: nat): Lru {
    var kept := Take(Latest(history), n);
    Concat(FreeSlots(if Length(kept) < n then n - Length(kept) else 0), Backwards(kept))
  }

  lemma {:induction false} RemoveDistinct(order: Lru, b: nat, x: nat)
    requires Distinct(order)
    ensures Distinct(Remove(order, b)) && (Has(Remove(order, b), x) <==> Has(order, x) && x != b)
  {
    if order.Entry? {
      RemoveDistinct(order.later, b, x);
      RemoveDistinct(order.later, b, order.blkno);
    }
  }

  lemma {:induction false} LatestDistinct(history: Lru, b: nat)
    ensures Distinct(Latest(history)) && (Has(Latest(history), b) <==> Has(history, b))
  {
    if history.Entry? {
      LatestDistinct(history.later, b);
      RemoveDistinct(Latest(history.later), history.blkno, b);
      RemoveDistinct(Latest(history.later), history.blkno, history.blkno);
    }
  }

  /** Removing a block that is not there does nothing. */
  lemma {:induction false} RemoveNone(order: Lru, b: nat)
    requires !Has(order, b)
    ensures Remove(order, b) == order
  {
    if order.Entry? {
      RemoveNone(order.later, b);
    }
  }

  lemma {:induction false} TakeHas(order: Lru, n: nat, b: nat)
    ensures Has(Take(order, n), b) ==> Has(order, b)
    ensures Distinct(order) ==> Distinct(Take(order, n))
    ensures Length(Take(order, n)) == if Length(order) < n then Length(order) else n
  {
    if n > 0 && order.Entry? {
      TakeHas(order.later, n - 1, b);
      TakeHas(order.later, n - 1, order.blkno);
    }
  }

  /** Moving `b` to the front of the latest blocks, seen through the first `n`. */
  lemma {:induction false} TakeRemove(order: Lru, n: nat, b: nat)
    requires 0 < n
    ensures Take(Remove(order, b), n - 1) == if Has(Take(order, n), b) then Remove(Take(order, n), b)
      else Take(order, n - 1)
  {
    if order.Entry? && order.blkno != b && n > 1 {
      TakeRemove(order.later, n - 1, b);
    }
  }

  lemma {:induction false} ConcatAppend(front: Lru, back: Lru, b: nat)
    ensures Append(Concat(front, back), b) == Concat(front, Append(back, b))
  {
    if front.Entry? {
      ConcatAppend(front.later, back, b);
    }
  }

  lemma {:induction false} ConcatFree(k: nat, back: Lru, b: nat)
    requires b != UINT64_MAX
    ensures Has(Concat(FreeSlots(k), back), b) <==> Has(back, b)
    ensures Remove(Concat(FreeSlots(k), back), b) == Concat(FreeSlots(k), Remove(back, b))
  {
    if k > 0 {
      ConcatFree(k - 1, back, b);
    }
  }

  lemma {:induction false} RemoveAppend(order: Lru, c: nat, b: nat)
    ensures Remove(Append(order, c), b)
      == if Has(order, b) then Append(Remove(order, b), c) else if c == b then order else Append(order, c)
  {
    if order.Entry? {
      RemoveAppend(order.later, c, b);
    }
  }

  lemma {:induction false} BackwardsRemove(order: Lru, b: nat)
    requires Distinct(order)
    ensures Has(Backwards(order), b) <==> Has(order, b)
    ensures Remove(Backwards(order), b) == Backwards(Remove(order, b))
  {
    if order.Entry? {
      BackwardsRemove(order.later, b);
      HasAppend(Backwards(order.later), order.blkno, b);
      RemoveAppend(Backwards(order.later), order.blkno, b);
      RemoveNone(order.later, order.blkno);
      if !Has(order.later, b) {
        RemoveNone(order.later, b);
      }
    }
  }

  /** The oldest of a full list is in front of it. */
  lemma {:induction false} BackwardsOldest(order: Lru, n: nat)
    requires 0 < n && Length(Take(order, n)) == n
    ensures Backwards(Take(order, n)).Entry? && Backwards(Take(order, n)).later == Backwards(Take(order, n - 1))
  {
    if n > 1 {
      BackwardsOldest(order.later, n - 1);
    }
  }

  lemma {:induction false} ShortTake(order: Lru, n: nat)
    requires Length(order) <= n
    ensures Take(order, n) == order
  {
    if order.Entry? {
      ShortTake(order.later, n - 1);
    }
  }

  lemma {:induction false} RemoveLength(order: Lru, b: nat)
    ensures Length(Remove(order, b)) == Length(order) - (if Has(order, b) then 1 else 0)
  {
    if order.Entry? {
      RemoveLength(order.later, b);
    }
  }

  /** One access keeps the ideal order. */
  lemma IdealStep(history: Lru, n: nat, b: nat)
    requires 0 < n && b != UINT64_MAX
    ensures Ideal(history, n).Entry? && Touched(Ideal(history, n), b, false) == Ideal(Entry(b, history), n)
  {
    var latest := Latest(history);
    var kept := Take(latest, n);
    var kept' := Take(Latest(Entry(b, history)), n);
    LatestDistinct(history, b);
    TakeHas(latest, n, b);
    TakeHas(latest, n - 1, b);
    TakeHas(Latest(Entry(b, history)), n, b);
    TakeRemove(latest, n, b);
    var free := n - Length(kept);
    ConcatFree(free, Backwards(kept), b);
    BackwardsRemove(kept, b);
    if Has(kept, b) {
      assert kept' == Entry(b, Remove(kept, b));
      RemoveLength(kept, b);
      ConcatAppend(FreeSlots(free), Remove(Backwards(kept), b), b);
    } else {
      assert kept' == Entry(b, Take(latest, n - 1));
      if free == 0 {
        BackwardsOldest(latest, n);
      } else {
        ShortTake(latest, n);
        ShortTake(latest, n - 1);
        ConcatAppend(FreeSlots(free - 1), Backwards(kept), b);
      }
    }
  }

  lemma {:induction false} FreeIsIdeal(n: nat)
    ensures Concat(FreeSlots(n), End) == FreeSlots(n)
  {
    if n > 0 {
      FreeIsIdeal(n - 1);
    }
  }

  /** The cache refines the ideal LRU order over every history. */
  lemma {:induction false} ExactLru(history: Lru, n: nat)
    requires 0 < n && !Has(history, UINT64_MAX)
    ensures After(history, n) == Ideal(history, n)
  {
    if history.End? {
      FreeIsIdeal(n);
    } else {
      ExactLru(history.later, n);
      IdealStep(history.later, n, history.blkno);
    }
  }

  // ---- which blocks are cached ----

  function InFront(order: Lru, b: nat): set<nat> {
    if order.End? || order.blkno == b then {} else {order.blkno} + InFront(order.later, b)
  }

  lemma {:induction false} InFrontRemove(order: Lru, c: nat, b: nat)
    requires Distinct(order) && b != c
    ensures InFront(Remove(order, c), b) == InFront(order, b) - {c}
  {
    if order.Entry? {
      InFrontRemove(order.later, c, b);
      InFrontHas(order.later, b, c);
    }
  }

  lemma {:induction false} InFrontHas(order: Lru, b: nat, x: nat)
    ensures x in InFront(order, b) ==> Has(order, x)
  {
    if order.Entry? {
      InFrontHas(order.later, b, x);
    }
  }

  lemma {:induction false} LatestInFront(history: Lru, b: nat)
    ensures InFront(Latest(history), b) == AccessedSince(history, b)
  {
    if history.Entry? && history.blkno != b {
      LatestInFront(history.later, b);
      LatestDistinct(history.later, b);
      InFrontRemove(Latest(history.later), history.blkno, b);
    }
  }

  lemma {:induction false} TakeExactly(order: Lru, n: nat, b: nat)
    requires Distinct(order)
    ensures Has(Take(order, n), b) <==> Has(order, b) && |InFront(order, b)| < n
  {
    if order.Entry? && order.blkno != b {
      InFrontHas(order.later, b, order.blkno);
      if n > 0 {
        TakeExactly(order.later, n - 1, b);
      }
    }
  }

  /** After any history of ordinary accesses, a block is cached exactly when it
      was accessed and fewer than `n` other blocks were accessed since. */
  lemma CachedExactly(history: Lru, n: nat, b: nat)
    requires 0 < n && !Has(history, UINT64_MAX) && b != UINT64_MAX
    ensures Has(After(history, n), b) <==> Has(history, b) && |AccessedSince(history, b)| < n
  {
    ExactLru(history, n);
    LatestDistinct(history, b);
    LatestInFront(history, b);
    TakeHas(Latest(history), n, b);
    TakeExactly(Latest(history), n, b);
    var kept := Take(Latest(history), n);
    ConcatFree(n - Length(kept), Backwards(kept), b);
    BackwardsRemove(kept, b);
  }

  /** The victim of a full cache is its least recently accessed block: every
      other cached block was accessed since. */
  lemma VictimOldest(history: Lru, n: nat, b: nat)
    requires 0 < n && !Has(history, UINT64_MAX) && After(history, n).blkno != UINT64_MAX
    requires Has(After(history, n), b) && b != After(history, n).blkno
    ensures b in AccessedSince(history, After(history, n).blkno)
  {
    ExactLru(history, n);
    LatestDistinct(history, b);
    TakeHas(Latest(history), n, b);
    var kept := Take(Latest(history), n);
    var victim := After(history, n).blkno;
    BackwardsRemove(kept, b);
    LastInFront(kept, b);
    LatestInFront(history, victim);
    TakeInFront(Latest(history), n, victim, b);
  }

  lemma {:induction false} LastInFront(order: Lru, b: nat)
    requires Distinct(order) && Has(order, b)
    ensures Backwards(order).Entry? && Has(order, Backwards(order).blkno)
    ensures b != Backwards(order).blkno ==> b in InFront(order, Backwards(order).blkno)
  {
    if order.later.Entry? {
      LastInFront(order.later, if order.blkno == b then order.later.blkno else b);
    } else {
      assert Backwards(order) == Entry(order.blkno, End);
    }
  }

  lemma {:induction false} TakeInFront(order: Lru, n: nat, b: nat, x: nat)
    requires Has(Take(order, n), b) && x in InFront(Take(order, n), b)
    ensures x in InFront(order, b)
  {
    if order.Entry? && order.blkno != b && order.blkno != x {
      TakeInFront(order.later, n - 1, b, x);
    }
  }

  /** `nocache` never changes which blocks are cached, and makes a hit the next victim. */
  lemma NocacheKeeps(order: Lru, b: nat, x: nat)
    requires order.Entry?
    ensures Has(Touched(order, b, true), x) <==> Has(order, x)
    ensures if Has(order, b) then Touched(order, b, true).blkno == b else Touched(order, b, true) == order
  {
    if Has(order, b) {
      HitKeeps(order, b, true, x);
    }
  }
}
