/** mkfs.c: which bits of which group an allocation takes. */
module FirstFit {
  import opened BlockCache
  import opened BitOps

  /** `n` clear bits in a row from `k` on. */
  predicate RunAt(s: seq<bool>, k: nat, n: nat) {
    k + n <= |s| && NoneIn(s, true, k, k + n)
  }

  /** The first `n` clear bits in a row from `k` on, or -1; never found for `n == 0`. */
  function FirstRun(s: seq<bool>, n: nat, k: nat): (r: int)
    ensures r == -1 || (k <= r && 0 < n && RunAt(s, r, n))
    decreases |s| - k
  {
    if n == 0 || k + n > |s| then -1 else if RunAt(s, k, n) then k else FirstRun(s, n, k + 1)
  }

  /** No run of `n` clear bits starts between `lo` and `hi`. */
  predicate NoRun(s: seq<bool>, n: nat, lo: nat, hi: nat) {
    forall k :: lo <= k < hi ==> !RunAt(s, k, n)
  }

  /** `FirstRun` is the lowest run, and finds one whenever there is one. */
  lemma {:induction false} FirstRunLeast(s: seq<bool>, n: nat, k: nat, r: nat)
    requires k <= r && NoRun(s, n, k, r) && 0 < n
    ensures RunAt(s, r, n) ==> FirstRun(s, n, k) == r
    ensures r + n > |s| ==> FirstRun(s, n, k) == -1
    decreases r - k
  {
    if k < r && k + n <= |s| {
      FirstRunLeast(s, n, k + 1, r);
    }
  }

  /** `find_clear_bits` */
  method FindClearBits(buf: array<byte>, size: nat, num_bits: nat, offset: nat) returns (first_zero: int)
    requires offset <= size <= 8 * buf.Length
    ensures first_zero == FirstRun(Bits(buf[..])[..size], num_bits, offset)
  {
    ghost var s := Bits(buf[..])[..size];
    var off, count: nat := offset, 0;
    first_zero := -1;
    while size - off + count >= num_bits
      invariant offset + count <= off <= size && NoneIn(s, true, off - count, off)
      invariant num_bits == 0 || count < num_bits
      invariant count > 0 ==> first_zero == off - count
      invariant num_bits > 0 ==> NoRun(s, num_bits, offset, off - count)
      decreases size - off
    {
      var next_zero := FindNextBitClear(buf, size, off);
      NextSlice(Bits(buf[..]), false, size, off, next_zero);
      if next_zero >= size {
        if num_bits > 0 {
          AllSet(s, num_bits, offset, off, count);
        }
        return -1;
      }
      if num_bits > 0 {
        RunStep(s, num_bits, offset, off, count, next_zero);
      }
      if next_zero != off {
        first_zero := next_zero;
        off := next_zero + 1;
        count := 0;
      } else {
        off := off + 1;
        if count == 0 {
          first_zero := next_zero;
        }
      }
      count := count + 1;
      if count == num_bits {
        FirstRunLeast(s, num_bits, offset, off - count);
        return;
      }
    }
    FirstRunLeast(s, num_bits, offset, off - count);
    first_zero := -1;
  }

  lemma NextSlice(s: seq<bool>, v: bool, size: nat, offset: nat, r: nat)
    requires size <= |s|
    ensures Next(s, v, size, offset, r) <==> Next(s[..size], v, size, offset, r)
  {
  }

  /** After the clear bits up to `off`, there is none. */
  lemma AllSet(s: seq<bool>, n: nat, offset: nat, off: nat, count: nat)
    requires 0 < n && offset + count <= off <= |s| && count < n
    requires NoRun(s, n, offset, off - count) && NoneIn(s, false, off, |s|)
    ensures FirstRun(s, n, offset) == -1
  {
    forall k | off - count <= k < |s| ensures !RunAt(s, k, n) {
      assert k < off < k + n && off < |s| ==> s[off];
      assert off <= k ==> s[k];
    }
    FirstRunLeast(s, n, offset, |s|);
  }

  /** The next clear bit after the clear bits up to `off`. */
  lemma RunStep(s: seq<bool>, n: nat, offset: nat, off: nat, count: nat, next: nat)
    requires 0 < n && offset + count <= off && count < n && next < |s|
    requires NoRun(s, n, offset, off - count) && NoneIn(s, true, off - count, off) && Next(s, false, |s|, off, next)
    ensures next == off ==> NoneIn(s, true, off - count, off + 1)
    ensures next > off ==> NoRun(s, n, offset, next) && NoneIn(s, true, next, next + 1)
  {
    if next > off {
      forall k | off - count <= k < next ensures !RunAt(s, k, n) {
        assert k < off < k + n && off < |s| ==> s[off];
        assert off <= k ==> s[k];
      }
    }
  }

  // ---- counting clear bits ----

  function Clear(s: seq<bool>): nat {
    Count(s, false, 0, |s|)
  }

  lemma {:induction false} CountWithBit(s: seq<bool>, i: nat, lo: nat)
    requires i < |s| && lo <= |s|
    ensures Count(s[i := true], false, lo, |s|) == Count(s, false, lo, |s|) - if lo <= i && !s[i] then 1 else 0
    decreases |s| - lo
  {
    if lo < |s| {
      CountWithBit(s, i, lo + 1);
    }
  }

  /** `s` with `n` bits set from `r` on. */
  function Marked(s: seq<bool>, r: nat, n: nat): (t: seq<bool>)
    requires r + n <= |s|
    ensures |t| == |s| && forall k :: 0 <= k < |s| ==> t[k] == (s[k] || r <= k < r + n)
    decreases n
  {
    if n == 0 then s else Marked(s, r, n - 1)[r + n - 1 := true]
  }

  lemma {:induction false} MarkedClear(s: seq<bool>, r: nat, n: nat)
    requires RunAt(s, r, n)
    ensures Clear(Marked(s, r, n)) == Clear(s) - n
    decreases n
  {
    if n > 0 {
      MarkedClear(s, r, n - 1);
      CountWithBit(Marked(s, r, n - 1), r + n - 1, 0);
    }
  }

  lemma {:induction false} ClearRun(s: seq<bool>, lo: nat, r: nat, n: nat)
    requires lo <= r && RunAt(s, r, n)
    ensures n <= Count(s, false, lo, |s|)
    decreases |s| - lo
  {
    if n > 0 {
      if lo < r {
        ClearRun(s, lo + 1, r, n);
      } else {
        ClearRun(s, lo + 1, r + 1, n - 1);
      }
    }
  }

  lemma {:induction false} SomeClear(s: seq<bool>, lo: nat)
    requires lo <= |s| && 0 < Count(s, false, lo, |s|)
    ensures FirstRun(s, 1, lo) != -1
    decreases |s| - lo
  {
    if s[lo] {
      assert !RunAt(s, lo, 1);
      SomeClear(s, lo + 1);
    }
  }

  lemma {:induction false} AllClear(s: seq<bool>, lo: nat)
    requires lo <= |s| && NoneIn(s, true, lo, |s|)
    ensures Count(s, false, lo, |s|) == |s| - lo
    decreases |s| - lo
  {
    if lo < |s| {
      AllClear(s, lo + 1);
    }
  }

  // ---- bitmaps without gaps ----

  /** No clear bit before a set one. */
  predicate Packed(s: seq<bool>) {
    forall i, j :: 0 <= i < j < |s| && s[j] ==> s[i]
  }

  /** The first `|s| - Clear(s)` bits are set and no others. */
  lemma {:induction false} PackedShape(s: seq<bool>, lo: nat)
    requires Packed(s) && lo <= |s|
    ensures var u := |s| - Count(s, false, lo, |s|); lo <= u && forall k :: lo <= k < |s| ==> s[k] == (k < u)
    decreases |s| - lo
  {
    if lo < |s| {
      if s[lo] {
        PackedShape(s, lo + 1);
      } else {
        AllClear(s, lo);
      }
    }
  }

  /** In such a bitmap the clear bits are one run. */
  lemma PackedRun(s: seq<bool>, n: nat)
    requires Packed(s)
    ensures FirstRun(s, n, 0) == if 0 < n <= Clear(s) then |s| - Clear(s) else -1
  {
    PackedShape(s, 0);
    var u := |s| - Clear(s);
    if n > 0 {
      forall k | 0 <= k < u ensures !RunAt(s, k, n) {
        assert s[k];
      }
      FirstRunLeast(s, n, 0, u);
    }
  }

  /** Taking the lowest run leaves none. */
  lemma PackedMarked(s: seq<bool>, n: nat)
    requires Packed(s) && FirstRun(s, n, 0) != -1
    ensures Packed(Marked(s, FirstRun(s, n, 0), n))
  {
    PackedRun(s, n);
    PackedShape(s, 0);
  }

  predicate AllPacked(maps: seq<seq<bool>>) {
    forall i :: 0 <= i < |maps| ==> Packed(maps[i])
  }

  // ---- choosing a group ----

  /** The clear bits of the first `k` groups. */
  function FreeSum(maps: seq<seq<bool>>, k: nat): nat
    requires k <= |maps|
  {
    if k == 0 then 0 else FreeSum(maps, k - 1) + Clear(maps[k - 1])
  }

  lemma {:induction false} FreeSumUpdate(maps: seq<seq<bool>>, g: nat, m: seq<bool>, k: nat)
    requires g < |maps| && k <= |maps|
    ensures FreeSum(maps[g := m], k) == FreeSum(maps, k) + if g < k then Clear(m) - Clear(maps[g]) else 0
    decreases k
  {
    if k > 0 {
      FreeSumUpdate(maps, g, m, k - 1);
    }
  }

  /** The first group of the chain from `i` on with `n` clear bits, in a row or not. */
  function Candidate(maps: seq<seq<bool>>, recs: nat, i: nat, n: nat): (g: int)
    requires 0 < recs
    ensures g == -1 || (i <= g < |maps| && Clear(maps[g]) >= n)
    decreases |maps| - i
  {
    if i >= |maps| then -1 else if Clear(maps[i]) >= n then i else Candidate(maps, recs, i + recs, n)
  }

  /** A range of bits of one group. */
  datatype Grant = Grant(group: nat, start: nat, count: nat)

  datatype Choice = Nothing | Chosen(grant: Grant)

  /** The range taken: of the chains from `c` on, the first one whose candidate has a run. */
  function Choose(maps: seq<seq<bool>>, recs: nat, c: nat, chains: nat, n: nat): Choice
    requires 0 < recs
    decreases chains - c
  {
    if c >= chains then Nothing
    else
      var g := Candidate(maps, recs, c, n);
      if g != -1 && FirstRun(maps[g], n, 0) != -1 then Chosen(Grant(g, FirstRun(maps[g], n, 0), n))
      else Choose(maps, recs, c + 1, chains, n)
  }

  /** The range is there and clear. */
  predicate Fits(maps: seq<seq<bool>>, g: Grant) {
    g.group < |maps| && RunAt(maps[g.group], g.start, g.count)
  }

  lemma {:induction false} ChosenFits(maps: seq<seq<bool>>, recs: nat, c: nat, chains: nat, n: nat)
    requires 0 < recs
    ensures var p := Choose(maps, recs, c, chains, n); p.Chosen? ==> Fits(maps, p.grant) && p.grant.count == n > 0
    decreases chains - c
  {
    if c < chains {
      ChosenFits(maps, recs, c + 1, chains, n);
    }
  }

  /** Chain `c` has a candidate with a run. */
  predicate ChainServes(maps: seq<seq<bool>>, recs: nat, c: nat, n: nat)
    requires 0 < recs
  {
    var g := Candidate(maps, recs, c, n);
    g != -1 && FirstRun(maps[g], n, 0) != -1
  }

  /** An allocation succeeds exactly when the first group of some chain that has enough
      clear bits has them in a row. */
  lemma {:induction false} ChosenExact(maps: seq<seq<bool>>, recs: nat, c: nat, chains: nat, n: nat)
    requires 0 < recs
    ensures Choose(maps, recs, c, chains, n).Chosen? <==> exists d :: c <= d < chains && ChainServes(maps, recs, d, n)
    decreases chains - c
  {
    if c < chains && !ChainServes(maps, recs, c, n) {
      ChosenExact(maps, recs, c + 1, chains, n);
    }
  }

  /** Some group has the bits in a row. */
  ghost predicate Available(maps: seq<seq<bool>>, n: nat) {
    exists g :: 0 <= g < |maps| && FirstRun(maps[g], n, 0) != -1
  }

  /** The chains cover the groups. */
  lemma {:induction false} ChainOf(maps: seq<seq<bool>>, recs: nat, g: nat) returns (c: nat)
    requires 0 < recs && g < |maps|
    ensures c < recs && c <= g && forall n :: Clear(maps[g]) >= n ==> Candidate(maps, recs, c, n) != -1
  {
    c := g;
    while c >= recs
      invariant c <= g && forall n :: Clear(maps[g]) >= n ==> Candidate(maps, recs, c, n) != -1
    {
      c := c - recs;
    }
  }

  /** One bit is found whenever there is one; every run is found whenever there is one if
      no bitmap has gaps, or if there are no more groups than chains. */
  lemma ChosenComplete(maps: seq<seq<bool>>, recs: nat, n: nat)
    requires 0 < recs && (n == 1 || AllPacked(maps) || |maps| <= recs)
    ensures Choose(maps, recs, 0, Chains(maps, recs), n).Chosen? <==> Available(maps, n)
  {
    ChosenExact(maps, recs, 0, Chains(maps, recs), n);
    if Available(maps, n) {
      var g :| 0 <= g < |maps| && FirstRun(maps[g], n, 0) != -1;
      ClearRun(maps[g], 0, FirstRun(maps[g], n, 0), n);
      var c := g;
      if |maps| > recs {
        c := ChainOf(maps, recs, g);
        var k := Candidate(maps, recs, c, n);
        if n == 1 {
          SomeClear(maps[k], 0);
        } else {
          PackedRun(maps[k], n);
        }
      }
      assert ChainServes(maps, recs, c, n);
    }
  }

  /** The number of chains. */
  function Chains(maps: seq<seq<bool>>, recs: nat): nat {
    if |maps| < recs then |maps| else recs
  }

  /** Without gaps, bits are available when some group has as many clear ones. */
  lemma AvailablePacked(maps: seq<seq<bool>>, n: nat)
    requires AllPacked(maps)
    ensures Available(maps, n) <==> 0 < n && exists g :: 0 <= g < |maps| && n <= Clear(maps[g])
  {
    forall g | 0 <= g < |maps| ensures FirstRun(maps[g], n, 0) != -1 <==> 0 < n <= Clear(maps[g]) {
      PackedRun(maps[g], n);
    }
  }

  /** An allocation leaves no gaps. */
  lemma {:induction false} ChosenPacked(maps: seq<seq<bool>>, recs: nat, c: nat, chains: nat, n: nat)
    requires 0 < recs && AllPacked(maps) && Choose(maps, recs, c, chains, n).Chosen?
    ensures Fits(maps, Choose(maps, recs, c, chains, n).grant)
      && AllPacked(Apply(maps, Choose(maps, recs, c, chains, n).grant))
    decreases chains - c
  {
    if ChainServes(maps, recs, c, n) {
      PackedMarked(maps[Candidate(maps, recs, c, n)], n);
    } else {
      ChosenPacked(maps, recs, c + 1, chains, n);
    }
  }

  /** Gaps do matter: with more groups than chains a group with gaps, which no run of
      allocations makes, hides a later run of its chain. */
  lemma HiddenRun()
    ensures var maps := [[true, false, true, false], [true, true, true, true], [false, false, false, false]];
      Choose(maps, 2, 0, 2, 2) == Nothing && Available(maps, 2)
  {
  }

  // ---- chains ----

  /** The first group of the chain of group `i`. */
  function ChainHead(i: nat, recs: nat): (h: nat)
    requires 0 < recs
    ensures h < recs && h <= i
    decreases i
  {
    if i < recs then i else ChainHead(i - recs, recs)
  }

  /** Groups go round the chains. */
  lemma {:induction false} NextHead(i: nat, recs: nat)
    requires 0 < recs
    ensures ChainHead(i + 1, recs) == if ChainHead(i, recs) + 1 < recs then ChainHead(i, recs) + 1 else 0
    decreases i
  {
    if i >= recs {
      NextHead(i - recs, recs);
    }
  }

  /** The clear bits of chain `c` in the first `k` groups. */
  function ChainClear(maps: seq<seq<bool>>, recs: nat, c: nat, k: nat): nat
    requires 0 < recs && k <= |maps|
  {
    if k == 0 then 0 else ChainClear(maps, recs, c, k - 1) + if ChainHead(k - 1, recs) == c then Clear(maps[k - 1])
      else 0
  }

  /** All its bits. */
  function ChainBits(maps: seq<seq<bool>>, recs: nat, c: nat, k: nat): nat
    requires 0 < recs && k <= |maps|
  {
    if k == 0 then 0 else ChainBits(maps, recs, c, k - 1) + if ChainHead(k - 1, recs) == c then |maps[k - 1]| else 0
  }

  lemma {:induction false} ChainUpdate(maps: seq<seq<bool>>, recs: nat, g: nat, m: seq<bool>, c: nat, k: nat)
    requires 0 < recs && g < |maps| && k <= |maps| && |m| == |maps[g]|
    ensures ChainClear(maps[g := m], recs, c, k)
      == ChainClear(maps, recs, c, k) + if g < k && ChainHead(g, recs) == c then Clear(m) - Clear(maps[g]) else 0
    ensures ChainBits(maps[g := m], recs, c, k) == ChainBits(maps, recs, c, k)
    decreases k
  {
    if k > 0 {
      ChainUpdate(maps, recs, g, m, c, k - 1);
    }
  }

  lemma {:induction false} ChainFront(maps: seq<seq<bool>>, recs: nat, m: seq<bool>, c: nat, k: nat)
    requires 0 < recs && k <= |maps|
    ensures ChainClear(maps + [m], recs, c, k) == ChainClear(maps, recs, c, k)
    ensures ChainBits(maps + [m], recs, c, k) == ChainBits(maps, recs, c, k)
    decreases k
  {
    if k > 0 {
      ChainFront(maps, recs, m, c, k - 1);
    }
  }

  /** A chain has nothing before its first group. */
  lemma {:induction false} NoneYet(maps: seq<seq<bool>>, recs: nat, c: nat, k: nat)
    requires 0 < recs && k <= |maps| && k <= c
    ensures ChainClear(maps, recs, c, k) == 0 && ChainBits(maps, recs, c, k) == 0
    decreases k
  {
    if k > 0 {
      NoneYet(maps, recs, c, k - 1);
    }
  }

  /** The last group of chain `c` among the first `k`, or -1. */
  function LastOf(recs: nat, c: nat, k: nat): (g: int)
    requires 0 < recs
    ensures -1 <= g < k
  {
    if k == 0 then -1 else if ChainHead(k - 1, recs) == c then k - 1 else LastOf(recs, c, k - 1)
  }

  /** The clear bits of the other groups of the chain. */
  function Debt(maps: seq<seq<bool>>, recs: nat, c: nat, k: nat): nat
    requires 0 < recs && k <= |maps|
  {
    var last := LastOf(recs, c, k);
    if last == -1 then 0 else ChainClear(maps, recs, c, last)
  }

  lemma {:induction false} DebtAndLast(maps: seq<seq<bool>>, recs: nat, c: nat, k: nat)
    requires 0 < recs && c < k <= |maps| && c < recs
    ensures LastOf(recs, c, k) != -1
    ensures ChainClear(maps, recs, c, k) == Debt(maps, recs, c, k) + Clear(maps[LastOf(recs, c, k)])
    decreases k
  {
    if ChainHead(k - 1, recs) != c {
      DebtAndLast(maps, recs, c, k - 1);
    }
  }

  lemma {:induction false} ChainEmpty(maps: seq<seq<bool>>, recs: nat, c: nat, k: nat)
    requires 0 < recs && k <= |maps|
    ensures ChainClear(maps, recs, c, k) == 0
      <==> forall i :: 0 <= i < k && ChainHead(i, recs) == c ==> Clear(maps[i]) == 0
    decreases k
  {
    if k > 0 {
      ChainEmpty(maps, recs, c, k - 1);
    }
  }

  lemma {:induction false} NoneAfterLast(recs: nat, c: nat, k: nat, i: nat)
    requires 0 < recs && LastOf(recs, c, k) < i < k
    ensures ChainHead(i, recs) != c
    decreases k
  {
    if i < k - 1 {
      NoneAfterLast(recs, c, k - 1, i);
    }
  }

  /** There is no debt exactly if the groups of the chain before its last have no clear bit. */
  lemma DebtZero(maps: seq<seq<bool>>, recs: nat, c: nat, k: nat)
    requires 0 < recs && k <= |maps|
    ensures Debt(maps, recs, c, k) == 0
      <==> forall i :: 0 <= i < k && ChainHead(i, recs) == c && i != LastOf(recs, c, k) ==> Clear(maps[i]) == 0
  {
    var last := LastOf(recs, c, k);
    forall i | last < i < k ensures ChainHead(i, recs) != c {
      NoneAfterLast(recs, c, k, i);
    }
    if last != -1 {
      ChainEmpty(maps, recs, c, last);
    }
  }

  // ---- runs of allocations ----

  function Apply(maps: seq<seq<bool>>, g: Grant): seq<seq<bool>>
    requires Fits(maps, g)
  {
    maps[g.group := Marked(maps[g.group], g.start, g.count)]
  }

  /** The ranges can be taken one after the other, and what is left. */
  predicate Legal(maps: seq<seq<bool>>, gs: seq<Grant>)
    decreases |gs|, 0
  {
    gs == [] || (Legal(maps, gs[..|gs| - 1]) && Fits(Final(maps, gs[..|gs| - 1]), gs[|gs| - 1]))
  }

  function Final(maps: seq<seq<bool>>, gs: seq<Grant>): (r: seq<seq<bool>>)
    requires Legal(maps, gs)
    ensures |r| == |maps|
    decreases |gs|, 1
  {
    if gs == [] then maps else Apply(Final(maps, gs[..|gs| - 1]), gs[|gs| - 1])
  }

  lemma LegalStep(maps: seq<seq<bool>>, gs: seq<Grant>, g: Grant)
    requires Legal(maps, gs) && Fits(Final(maps, gs), g)
    ensures Legal(maps, gs + [g]) && Final(maps, gs + [g]) == Apply(Final(maps, gs), g)
  {
  }

  /** A range once granted stays taken. */
  lemma {:induction false} StaysTaken(maps: seq<seq<bool>>, gs: seq<Grant>, i: nat)
    requires Legal(maps, gs) && i < |gs|
    ensures gs[i].group < |maps| && gs[i].start + gs[i].count <= |Final(maps, gs)[gs[i].group]|
    ensures NoneIn(Final(maps, gs)[gs[i].group], false, gs[i].start, gs[i].start + gs[i].count)
    decreases |gs|
  {
    if i < |gs| - 1 {
      StaysTaken(maps, gs[..|gs| - 1], i);
    }
  }

  /** Grants of one group do not overlap. */
  lemma {:induction false} GrantsApart(maps: seq<seq<bool>>, gs: seq<Grant>, i: nat, j: nat)
    requires Legal(maps, gs) && i < j < |gs| && gs[i].group == gs[j].group && 0 < gs[i].count && 0 < gs[j].count
    ensures gs[i].start + gs[i].count <= gs[j].start || gs[j].start + gs[j].count <= gs[i].start
    decreases |gs|
  {
    var prefix := gs[..|gs| - 1];
    if j < |gs| - 1 {
      GrantsApart(maps, prefix, i, j);
    } else {
      StaysTaken(maps, prefix, i);
      var m := Final(maps, prefix)[gs[j].group];
      var k := if gs[i].start <= gs[j].start then gs[j].start else gs[i].start;
      assert k < gs[i].start + gs[i].count ==> m[k];
    }
  }

  /** The clusters of a range, when group `g` starts at cluster `bases[g]`. */
  function First(bases: seq<nat>, g: Grant): nat
    requires g.group < |bases|
  {
    bases[g.group] + g.start
  }

  /** The groups that have clear bits cover disjoint clusters. */
  predicate Disjoint(bases: seq<nat>, maps: seq<seq<bool>>) {
    && |bases| == |maps|
    && forall i, j :: 0 <= i < |maps| && 0 <= j < |maps| && i != j && false in maps[i] && false in maps[j] ==>
         bases[i] + |maps[i]| <= bases[j] || bases[j] + |maps[j]| <= bases[i]
  }

  /** Only groups with clear bits are taken from. */
  lemma {:induction false} GrantGives(maps: seq<seq<bool>>, gs: seq<Grant>, i: nat)
    requires Legal(maps, gs) && i < |gs| && 0 < gs[i].count
    ensures gs[i].group < |maps| && gs[i].start < |maps[gs[i].group]| && !maps[gs[i].group][gs[i].start]
    ensures false in maps[gs[i].group]
    decreases |gs|
  {
    var front := gs[..|gs| - 1];
    if i < |gs| - 1 {
      GrantGives(maps, front, i);
    } else {
      SizesStay(maps, front, gs[i].group);
      if maps[gs[i].group][gs[i].start] {
        StaysSet(maps, front, gs[i].group, gs[i].start);
        assert false;
      }
    }
  }

  /** A set bit stays set. */
  lemma {:induction false} StaysSet(maps: seq<seq<bool>>, gs: seq<Grant>, g: nat, k: nat)
    requires Legal(maps, gs) && g < |maps| && k < |maps[g]| && maps[g][k]
    ensures k < |Final(maps, gs)[g]| && Final(maps, gs)[g][k]
    decreases |gs|
  {
    if gs != [] {
      StaysSet(maps, gs[..|gs| - 1], g, k);
    }
  }

  lemma {:induction false} SizesStay(maps: seq<seq<bool>>, gs: seq<Grant>, g: nat)
    requires Legal(maps, gs) && g < |maps|
    ensures |Final(maps, gs)[g]| == |maps[g]|
    decreases |gs|
  {
    if gs != [] {
      SizesStay(maps, gs[..|gs| - 1], g);
    }
  }

  /** Over any run, no cluster is handed out twice, as long as the groups that have
      something to give are disjoint. */
  lemma ClustersApart(bases: seq<nat>, maps: seq<seq<bool>>, gs: seq<Grant>, i: nat, j: nat)
    requires Disjoint(bases, maps) && Legal(maps, gs) && i < j < |gs| && 0 < gs[i].count && 0 < gs[j].count
    ensures gs[i].group < |bases| && gs[j].group < |bases|
    ensures var a, b := First(bases, gs[i]), First(bases, gs[j]); a + gs[i].count <= b || b + gs[j].count <= a
  {
    StaysTaken(maps, gs, i);
    StaysTaken(maps, gs, j);
    SizesStay(maps, gs, gs[i].group);
    SizesStay(maps, gs, gs[j].group);
    GrantGives(maps, gs, i);
    GrantGives(maps, gs, j);
    if gs[i].group == gs[j].group {
      GrantsApart(maps, gs, i, j);
    }
  }

  // ---- lists of requests ----

  datatype Outcome = Outcome(ok: bool, grants: seq<Grant>)

  /** What a list of requests is given, up to the first that cannot be served. */
  function Served(maps: seq<seq<bool>>, recs: nat, requests: seq<nat>): (o: Outcome)
    requires 0 < recs
    ensures Legal(maps, o.grants)
  {
    if requests == [] then Outcome(true, [])
    else
      var o := Served(maps, recs, requests[..|requests| - 1]);
      if !o.ok then o
      else
        var now := Final(maps, o.grants);
        var p := Choose(now, recs, 0, Chains(now, recs), requests[|requests| - 1]);
        if p.Chosen? then
          ChosenFits(now, recs, 0, Chains(now, recs), requests[|requests| - 1]);
          LegalStep(maps, o.grants, p.grant);
          Outcome(true, o.grants + [p.grant])
        else Outcome(false, o.grants)
  }

  /** The grants are those of the requests, in their order. */
  lemma {:induction false} ServedInOrder(maps: seq<seq<bool>>, recs: nat, requests: seq<nat>)
    requires 0 < recs
    ensures var o := Served(maps, recs, requests);
      && |o.grants| <= |requests| && (o.ok <==> |o.grants| == |requests|)
      && forall k :: 0 <= k < |o.grants| ==> o.grants[k].count == requests[k] > 0
    decreases |requests|
  {
    if requests != [] {
      var front := requests[..|requests| - 1];
      ServedInOrder(maps, recs, front);
      var now := Final(maps, Served(maps, recs, front).grants);
      ChosenFits(now, recs, 0, Chains(now, recs), requests[|requests| - 1]);
    }
  }

  /** After a request that cannot be served nothing more is given. */
  lemma {:induction false} ServedStops(maps: seq<seq<bool>>, recs: nat, requests: seq<nat>, k: nat)
    requires 0 < recs && k <= |requests| && !Served(maps, recs, requests[..k]).ok
    ensures Served(maps, recs, requests) == Served(maps, recs, requests[..k])
    decreases |requests|
  {
    if k == |requests| {
      assert requests[..k] == requests;
    } else {
      var front := requests[..|requests| - 1];
      assert front[..k] == requests[..k];
      ServedStops(maps, recs, front, k);
    }
  }

  /** Requests for one bit each. */
  function Singles(n: nat): (r: seq<nat>)
    ensures |r| == n
  {
    seq(n, _ => 1)
  }

  lemma {:induction false} SomeFree(maps: seq<seq<bool>>, k: nat) returns (g: nat)
    requires k <= |maps| && 0 < FreeSum(maps, k)
    ensures g < k && 0 < Clear(maps[g])
    decreases k
  {
    if Clear(maps[k - 1]) > 0 {
      g := k - 1;
    } else {
      g := SomeFree(maps, k - 1);
    }
  }

  /** What one range costs. */
  lemma GrantCost(maps: seq<seq<bool>>, g: Grant)
    requires Fits(maps, g)
    ensures FreeSum(Apply(maps, g), |maps|) == FreeSum(maps, |maps|) - g.count
  {
    MarkedClear(maps[g.group], g.start, g.count);
    FreeSumUpdate(maps, g.group, Marked(maps[g.group], g.start, g.count), |maps|);
  }

  /** Bits can be asked for one by one until none is left. */
  lemma {:induction false} Drained(maps: seq<seq<bool>>, recs: nat, n: nat)
    requires 0 < recs && n <= FreeSum(maps, |maps|)
    ensures var o := Served(maps, recs, Singles(n));
      o.ok && FreeSum(Final(maps, o.grants), |maps|) == FreeSum(maps, |maps|) - n
    decreases n
  {
    if n > 0 {
      Drained(maps, recs, n - 1);
      assert Singles(n)[..n - 1] == Singles(n - 1);
      var o := Served(maps, recs, Singles(n - 1));
      var now := Final(maps, o.grants);
      var g := SomeFree(now, |now|);
      SomeClear(now[g], 0);
      ChosenComplete(now, recs, 1);
      ChosenFits(now, recs, 0, Chains(now, recs), 1);
      var p := Choose(now, recs, 0, Chains(now, recs), 1);
      GrantCost(now, p.grant);
      LegalStep(maps, o.grants, p.grant);
    }
  }

  /** A bit that was clear and is set has been granted. */
  lemma {:induction false} Granted(maps: seq<seq<bool>>, gs: seq<Grant>, g: nat, k: nat) returns (i: nat)
    requires Legal(maps, gs) && g < |maps| && k < |maps[g]| && !maps[g][k]
    requires k < |Final(maps, gs)[g]| && Final(maps, gs)[g][k]
    ensures i < |gs| && gs[i].group == g && gs[i].start <= k < gs[i].start + gs[i].count
    decreases |gs|
  {
    var front := gs[..|gs| - 1];
    SizesStay(maps, front, g);
    if Final(maps, front)[g][k] {
      i := Granted(maps, front, g, k);
    } else {
      i := |gs| - 1;
    }
  }

  /** Once every clear bit has been asked for, each of them has been granted by itself. */
  lemma BitGranted(maps: seq<seq<bool>>, recs: nat, g: nat, k: nat) returns (i: nat)
    requires 0 < recs && g < |maps| && k < |maps[g]| && !maps[g][k]
    ensures var gs := Served(maps, recs, Singles(FreeSum(maps, |maps|))).grants;
      i < |gs| && gs[i] == Grant(g, k, 1)
  {
    var n := FreeSum(maps, |maps|);
    Drained(maps, recs, n);
    ServedInOrder(maps, recs, Singles(n));
    var gs := Served(maps, recs, Singles(n)).grants;
    var end := Final(maps, gs);
    SizesStay(maps, gs, g);
    if !end[g][k] {
      ClearRun(end[g], 0, k, 1);
      NoneFree(end, |end|, g);
      assert false;
    }
    i := Granted(maps, gs, g, k);
  }

  lemma {:induction false} NoneFree(maps: seq<seq<bool>>, k: nat, g: nat)
    requires g < k <= |maps| && FreeSum(maps, k) == 0
    ensures Clear(maps[g]) == 0
    decreases k
  {
    if g < k - 1 {
      NoneFree(maps, k - 1, g);
    }
  }
}
