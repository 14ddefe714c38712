/** mkfs.c: the allocations that make a volume, from the empty bitmap on. */
module MkfsRun {
  import opened FirstFit
  import opened MkfsAlloc

  /** A range of clusters, as the addresses that are handed out. */
  datatype Extent = Extent(start: nat, len: nat)

  /** The address of a range of bits, when group `g` starts at cluster `bases[g]`. */
  function ExtentOf(bases: seq<nat>, unit: nat, g: Grant): Extent
    requires g.group < |bases|
  {
    Extent(First(bases, g) * unit, g.count * unit)
  }

  /** The groups of the ranges exist. */
  ghost predicate Inside(grants: seq<Grant>, groups: nat) {
    forall k :: 0 <= k < |grants| ==> grants[k].group < groups
  }

  ghost function ExtentsOf(bases: seq<nat>, unit: nat, grants: seq<Grant>): (e: seq<Extent>)
    requires Inside(grants, |bases|)
    ensures |e| == |grants|
    ensures forall k :: 0 <= k < |e| ==> e[k] == ExtentOf(bases, unit, grants[k])
  {
    seq(|grants|, k requires 0 <= k < |grants| => ExtentOf(bases, unit, grants[k]))
  }

  lemma ExtentsStep(bases: seq<nat>, unit: nat, grants: seq<Grant>, g: Grant)
    requires Inside(grants + [g], |bases|)
    ensures Inside(grants, |bases|) && g.group < |bases|
    ensures ExtentsOf(bases, unit, grants + [g])
      == ExtentsOf(bases, unit, grants) + [ExtentOf(bases, unit, g)]
  {
    var all := grants + [g];
    assert all[|grants|].group < |bases|;
    forall k | 0 <= k < |grants| ensures grants[k].group < |bases| {
      assert all[k].group < |bases|;
    }
  }

  lemma LegalInside(maps: seq<seq<bool>>, grants: seq<Grant>)
    requires Legal(maps, grants)
    ensures Inside(grants, |maps|)
  {
    forall k | 0 <= k < |grants| ensures grants[k].group < |maps| {
      StaysTaken(maps, grants, k);
    }
  }

  /** The bases of a bitmap. */
  ghost predicate Based(bitmap: AllocBitmap, s: State, bases: seq<nat>)
    requires 0 < s.bpc
    reads bitmap
  {
    |bases| == |bitmap.groups| && forall g :: 0 <= g < |bases| ==> bases[g] == bitmap.Base(g, s)
  }

  /** One allocation, and the extent it hands out. */
  method AllocNext(bitmap: AllocBitmap, s: State, request: nat, ghost bases: seq<nat>)
    returns (ok: bool, e: Extent, ghost choice: Choice)
    requires bitmap.Valid() && 0 < s.bpc && Based(bitmap, s, bases)
    modifies bitmap`maps, bitmap.Repr
    ensures bitmap.Valid() && bitmap.bi.total_bits == old(bitmap.bi.total_bits) && bitmap.debt == old(bitmap.debt)
    ensures 0 < bitmap.recs
      && choice == Choose(old(bitmap.maps), bitmap.recs, 0, Chains(old(bitmap.maps), bitmap.recs), request)
    ensures ok == choice.Chosen?
    ensures ok ==>
      && Fits(old(bitmap.maps), choice.grant) && bitmap.maps == Apply(old(bitmap.maps), choice.grant)
      && choice.grant.group < |bases| && e == ExtentOf(bases, bitmap.unit, choice.grant)
    ensures !ok ==> bitmap.maps == old(bitmap.maps)
    ensures !ok && request > 0 ==> forall g :: 0 <= g < |bitmap.maps| ==> Clear(bitmap.maps[g]) < request
  {
    bitmap.Complete(request);
    choice := Choose(bitmap.maps, bitmap.recs, 0, bitmap.num_chains, request);
    ChosenFits(bitmap.maps, bitmap.recs, 0, bitmap.num_chains, request);
    var start, num;
    ok, start, num := bitmap.AllocFromBitmap(request, s);
    e := Extent(start, num);
    assert ok ==> bitmap.Base(choice.grant.group, s) + choice.grant.start == First(bases, choice.grant);
  }

  /** One allocation after the other; the program exits at the first that fails. */
  method AllocEach(bitmap: AllocBitmap, s: State, requests: seq<nat>, ghost bases: seq<nat>)
    returns (ok: bool, extents: seq<Extent>, ghost grants: seq<Grant>)
    requires bitmap.Valid() && 0 < s.bpc && Based(bitmap, s, bases)
    modifies bitmap`maps, bitmap.Repr
    ensures bitmap.Valid() && bitmap.bi.total_bits == old(bitmap.bi.total_bits) && bitmap.debt == old(bitmap.debt)
    ensures 0 < bitmap.recs && Outcome(ok, grants) == Served(old(bitmap.maps), bitmap.recs, requests)
    ensures bitmap.maps == Final(old(bitmap.maps), grants)
    ensures Inside(grants, |bases|) && extents == ExtentsOf(bases, bitmap.unit, grants)
    ensures !ok ==> |grants| < |requests| && (requests[|grants|] > 0 ==>
      forall g :: 0 <= g < |bitmap.maps| ==> Clear(bitmap.maps[g]) < requests[|grants|])
  {
    extents, grants := [], [];
    ghost var maps := bitmap.maps;
    var k := 0;
    while k < |requests|
      invariant k == |grants| <= |requests| && bitmap.Valid() && 0 < bitmap.recs && |maps| == |bases|
      invariant Served(maps, bitmap.recs, requests[..k]) == Outcome(true, grants) && bitmap.maps == Final(maps, grants)
      invariant Inside(grants, |bases|) && extents == ExtentsOf(bases, bitmap.unit, grants)
      invariant bitmap.bi.total_bits == old(bitmap.bi.total_bits) && bitmap.debt == old(bitmap.debt)
    {
      ServedNext(maps, bitmap.recs, requests, k);
      var e;
      ghost var choice;
      ok, e, choice := AllocNext(bitmap, s, requests[k], bases);
      if !ok {
        ServedStops(maps, bitmap.recs, requests, k + 1);
        return;
      }
      LegalInside(maps, grants + [choice.grant]);
      ExtentsStep(bases, bitmap.unit, grants, choice.grant);
      grants := grants + [choice.grant];
      extents := extents + [e];
      k := k + 1;
    }
    assert requests[..k] == requests;
    ok := true;
  }

  /** The next request is served from what the ones before it left. */
  lemma ServedNext(maps: seq<seq<bool>>, recs: nat, requests: seq<nat>, k: nat)
    requires 0 < recs && k < |requests| && Served(maps, recs, requests[..k]).ok
    ensures var o := Served(maps, recs, requests[..k]);
      var now := Final(maps, o.grants);
      var p := Choose(now, recs, 0, Chains(now, recs), requests[k]);
      Served(maps, recs, requests[..k + 1]) == if p.Chosen? then Outcome(true, o.grants + [p.grant])
        else Outcome(false, o.grants)
    ensures var o := Served(maps, recs, requests[..k]);
      var now := Final(maps, o.grants);
      var p := Choose(now, recs, 0, Chains(now, recs), requests[k]);
      p.Chosen? ==>
        && p.grant.count == requests[k] && Fits(now, p.grant) && Legal(maps, o.grants + [p.grant])
        && Final(maps, o.grants + [p.grant]) == Apply(now, p.grant)
  {
    assert requests[..k + 1][..k] == requests[..k];
    var o := Served(maps, recs, requests[..k]);
    var now := Final(maps, o.grants);
    var p := Choose(now, recs, 0, Chains(now, recs), requests[k]);
    ChosenFits(now, recs, 0, Chains(now, recs), requests[k]);
    if p.Chosen? {
      LegalStep(maps, o.grants, p.grant);
    }
  }

  lemma Scale(unit: nat, a: nat, n: nat, b: nat)
    requires a + n <= b
    ensures a * unit + n * unit <= b * unit
  {
  }

  /** The extents are disjoint. */
  ghost predicate Separate(extents: seq<Extent>) {
    forall i, j :: 0 <= i < j < |extents| ==>
      extents[i].start + extents[i].len <= extents[j].start || extents[j].start + extents[j].len <= extents[i].start
  }

  lemma ExtentsApart(bases: seq<nat>, unit: nat, maps: seq<seq<bool>>, grants: seq<Grant>)
    requires Disjoint(bases, maps) && Legal(maps, grants) && Inside(grants, |bases|)
    requires forall k :: 0 <= k < |grants| ==> grants[k].count > 0
    ensures Separate(ExtentsOf(bases, unit, grants))
  {
    var extents := ExtentsOf(bases, unit, grants);
    forall i, j | 0 <= i < j < |extents|
      ensures extents[i].start + extents[i].len <= extents[j].start
        || extents[j].start + extents[j].len <= extents[i].start
    {
      ClustersApart(bases, maps, grants, i, j);
      var a, b := First(bases, grants[i]), First(bases, grants[j]);
      if a + grants[i].count <= b {
        Scale(unit, a, grants[i].count, b);
      } else {
        Scale(unit, b, grants[j].count, a);
      }
    }
  }

  // ---- a whole volume ----

  /** What the requests are given on a new volume that is cut into the groups `cgs`. */
  ghost function Plan(cgs: ClusterGroupSizes, reserved: nat, unit: nat, recs: nat, requests: seq<nat>): seq<Extent>
    requires WellCut(cgs, reserved) && 0 < recs
  {
    var grants := Served(InitialMaps(cgs, reserved), recs, requests).grants;
    LegalInside(InitialMaps(cgs, reserved), grants);
    ExtentsOf(InitialBases(cgs), unit, grants)
  }

  /** The extents that are handed out overlap, for some requests, if and only if two groups
      other than the first have a bit to give. */
  lemma OverlapExact(cgs: ClusterGroupSizes, reserved: nat, unit: nat, recs: nat)
    requires WellCut(cgs, reserved) && 0 < unit && 0 < recs
    ensures Crowded(cgs) <==> exists requests :: !Separate(Plan(cgs, reserved, unit, recs, requests))
  {
    if Crowded(cgs) {
      var requests := Overlapping(cgs, reserved, unit, recs);
      assert !Separate(Plan(cgs, reserved, unit, recs, requests));
    } else {
      forall requests ensures Separate(Plan(cgs, reserved, unit, recs, requests)) {
        PlanSeparate(cgs, reserved, unit, recs, requests);
      }
    }
  }

  lemma PlanSeparate(cgs: ClusterGroupSizes, reserved: nat, unit: nat, recs: nat, requests: seq<nat>)
    requires WellCut(cgs, reserved) && 0 < recs && !Crowded(cgs)
    ensures Separate(Plan(cgs, reserved, unit, recs, requests))
  {
    var maps := InitialMaps(cgs, reserved);
    ServedInOrder(maps, recs, requests);
    InitialDisjoint(cgs, reserved);
    LegalInside(maps, Served(maps, recs, requests).grants);
    ExtentsApart(InitialBases(cgs), unit, maps, Served(maps, recs, requests).grants);
  }

  /** Such requests: every free cluster, one by one. The first clusters of the second and
      of the third group have the same address. */
  lemma Overlapping(cgs: ClusterGroupSizes, reserved: nat, unit: nat, recs: nat) returns (requests: seq<nat>)
    requires WellCut(cgs, reserved) && 0 < unit && 0 < recs && Crowded(cgs)
    ensures requests == Singles(FreeSum(InitialMaps(cgs, reserved), cgs.cluster_groups))
    ensures !Separate(Plan(cgs, reserved, unit, recs, requests))
  {
    var maps, bases := InitialMaps(cgs, reserved), InitialBases(cgs);
    requests := Singles(FreeSum(maps, |maps|));
    InitialBits(cgs, reserved, 1);
    InitialBits(cgs, reserved, 2);
    var i := BitGranted(maps, recs, 1, 1);
    var j := BitGranted(maps, recs, 2, 1);
    LegalInside(maps, Served(maps, recs, requests).grants);
    SameExtent(bases, unit, Served(maps, recs, requests).grants, i, j);
  }

  /** Equal bits of two groups at the same place. */
  lemma SameExtent(bases: seq<nat>, unit: nat, grants: seq<Grant>, i: nat, j: nat)
    requires 0 < unit && Inside(grants, |bases|) && i < |grants| && j < |grants|
    requires grants[i].group != grants[j].group && bases[grants[i].group] == bases[grants[j].group]
    requires grants[i].start == grants[j].start && grants[i].count == grants[j].count > 0
    ensures !Separate(ExtentsOf(bases, unit, grants))
  {
    var e := ExtentsOf(bases, unit, grants);
    assert e[i] == e[j] && e[i].len > 0;
  }

  /** No extent of a new volume starts before the cluster behind the descriptor of the first
      group. */
  lemma PlanBehind(cgs: ClusterGroupSizes, reserved: nat, unit: nat, recs: nat, requests: seq<nat>, k: nat)
    requires WellCut(cgs, reserved) && 0 < recs && k < |Plan(cgs, reserved, unit, recs, requests)|
    ensures (reserved + 1) * unit <= Plan(cgs, reserved, unit, recs, requests)[k].start
  {
    var maps, bases := InitialMaps(cgs, reserved), InitialBases(cgs);
    var grants := Served(maps, recs, requests).grants;
    ServedInOrder(maps, recs, requests);
    LegalInside(maps, grants);
    GrantGives(maps, grants, k);
    var g := grants[k];
    if g.group == 0 {
      assert maps[0] == Marked(Fresh(cgs.cpg), 1, reserved);
    }
    assert reserved + 1 <= First(bases, g);
    Scale(unit, 0, reserved + 1, First(bases, g));
  }

  ghost predicate AllFrom(extents: seq<Extent>, start: nat) {
    forall k :: 0 <= k < |extents| ==> start <= extents[k].start
  }

  lemma AllBehind(cgs: ClusterGroupSizes, reserved: nat, unit: nat, recs: nat, requests: seq<nat>)
    requires WellCut(cgs, reserved) && 0 < recs
    ensures AllFrom(Plan(cgs, reserved, unit, recs, requests), (reserved + 1) * unit)
  {
    forall k | 0 <= k < |Plan(cgs, reserved, unit, recs, requests)|
      ensures (reserved + 1) * unit <= Plan(cgs, reserved, unit, recs, requests)[k].start
    {
      PlanBehind(cgs, reserved, unit, recs, requests, k);
    }
  }

  /** In clusters: two full groups and one more cluster are the most that is safe. */
  lemma CrowdedFrom(clusters: nat, cgs: ClusterGroupSizes)
    requires Partition(cgs, clusters)
    requires cgs.cpg == 8 * GROUP_BITMAP_SIZE
      || (cgs.cpg == clusters < 8 * GROUP_BITMAP_SIZE && cgs.cluster_groups == 1)
    ensures Crowded(cgs) <==> clusters > 64513
  {
    var n := cgs.cluster_groups;
    BitsSumEven(cgs, n - 1);
    assert BitsSum(cgs, n) == BitsSum(cgs, n - 1) + GroupBits(cgs, n - 1);
  }

  /** The cluster allocations of mkfs: what is handed out is the plan, which on a volume of
      at most 64513 clusters has no overlaps, and used and free clusters always make up the
      volume. */
  method Format(clusters: nat, bpc: nat, unit: nat, recs: nat, requests: seq<nat>)
    returns (ok: bool, extents: seq<Extent>, bitmap: AllocBitmap, ghost cgs: ClusterGroupSizes)
    requires 0 < clusters && 0 < bpc && 2 <= recs && FirstClusterGroup(bpc) < clusters
    ensures bitmap.Valid() && bitmap.bi.total_bits == clusters
    ensures Partition(cgs, clusters) && WellCut(cgs, FirstClusterGroup(bpc))
    ensures extents == Plan(cgs, FirstClusterGroup(bpc), unit, recs, requests)
    ensures |extents| <= |requests| && (ok <==> |extents| == |requests|)
    ensures forall k :: 0 <= k < |extents| ==> extents[k].len == requests[k] * unit
    ensures clusters <= 64513 ==> Separate(extents)
    ensures Crowded(cgs) <==> clusters > 64513
    ensures |bitmap.groups| == cgs.cluster_groups > 0
    ensures 2 < bitmap.groups[0].bg_blkno <= 2 + bpc && bitmap.groups[0].bg_blkno % bpc == 0
    ensures AllFrom(extents, (bitmap.groups[0].bg_blkno / bpc + 1) * unit)
  {
    var s, sizes;
    bitmap, s, sizes := InitializeBitmap(clusters, bpc, unit, recs);
    cgs := sizes;
    ghost var bases, maps := InitialBases(cgs), bitmap.maps;
    forall g | 0 <= g < |bases| ensures bases[g] == bitmap.Base(g, s) {
      BaseIs(bitmap, s, cgs, bpc, g);
    }
    FewClusters(bpc);
    CrowdedFrom(clusters, cgs);
    ghost var grants;
    ok, extents, grants := AllocEach(bitmap, s, requests, bases);
    ServedInOrder(maps, recs, requests);
    BehindSuperblock(bpc);
    AllBehind(cgs, FirstClusterGroup(bpc), unit, recs, requests);
    if !Crowded(cgs) {
      PlanSeparate(cgs, FirstClusterGroup(bpc), unit, recs, requests);
    }
  }

  // ---- the inode group ----

  function Sum(counts: seq<nat>): nat {
    if counts == [] then 0 else Sum(counts[..|counts| - 1]) + counts[|counts| - 1]
  }

  /** Ranges taken from a new group, one after the other. Its bits never have a gap, so
      every search ends, whatever is asked for; the ranges follow each other, up to the
      first that is longer than what is left. */
  method FillGroup(nbits: nat, blkno: nat, counts: seq<nat>)
    returns (ok: bool, starts: seq<nat>, group: AllocGroup)
    requires 0 < nbits <= 8 * GROUP_BITMAP_SIZE && forall k :: 0 <= k < |counts| ==> 0 < counts[k]
    ensures group.Ok() && Packed(group.bits) && forall n :: Settles(group.bits, n)
    ensures |starts| <= |counts| && (ok <==> |starts| == |counts|)
    ensures forall k :: 0 <= k < |starts| ==> starts[k] == blkno + 1 + Sum(counts[..k])
    ensures group.bg_free_bits_count == nbits - 1 - Sum(counts[..|starts|])
    ensures !ok ==> group.bg_free_bits_count < counts[|starts|]
  {
    var bi := new BitInfo();
    group := new AllocGroup(nbits, blkno, 0, bi);
    starts := [];
    ok := true;
    while |starts| < |counts|
      invariant group.Ok() && Packed(group.bits) && |group.bits| == nbits && group.bg_blkno == blkno
      invariant ok && |starts| <= |counts| && group.bg_free_bits_count == nbits - 1 - Sum(counts[..|starts|])
      invariant forall k :: 0 <= k < |starts| ==> starts[k] == blkno + 1 + Sum(counts[..k])
      invariant fresh(group) && fresh(group.bg_bitmap) && fresh(bi)
      decreases |counts| - |starts|
    {
      var n := counts[|starts|];
      group.Open();
      PackedRun(group.bits, n);
      PackedSettles(group.bits, n);
      if n <= Clear(group.bits) {
        MarkedClear(group.bits, FirstRun(group.bits, n, 0), n);
      }
      var start, num;
      ok, start, num := group.AllocFromGroup(n, bi);
      group.Open();
      if !ok {
        break;
      }
      assert counts[..|starts| + 1][..|starts|] == counts[..|starts|];
      starts := starts + [start];
    }
    forall n ensures Settles(group.bits, n) {
      PackedSettles(group.bits, n);
    }
  }
}
