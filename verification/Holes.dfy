/** extent_map.c: the size of a hole, across the chain of leaves. */
module Holes {
  import opened Common
  import opened ExtentTree

  // ---- the flat view ----

  /** The start of the first record past `v`. */
  function NextStart(recs: seq<ExtentRec>, v: nat): Option<nat> {
    if recs == [] then None else if v < recs[0].e_cpos then Some(recs[0].e_cpos) else NextStart(recs[1..], v)
  }

  /** The size reported for a hole at `v`. */
  function HoleSize(recs: seq<ExtentRec>, v: nat): nat
    requires v < TWO64
  {
    var next := NextStart(recs, v);
    if next.Some? && v <= next.value then next.value - v else TWO64 - 1 - v
  }

  lemma {:induction false} NextStartConcat(a: seq<ExtentRec>, b: seq<ExtentRec>, v: nat)
    ensures NextStart(a + b, v) == if NextStart(a, v).Some? then NextStart(a, v) else NextStart(b, v)
  {
    if a == [] {
      assert a + b == b;
    } else {
      assert (a + b)[1..] == a[1..] + b;
      NextStartConcat(a[1..], b, v);
    }
  }

  lemma {:induction false} NextStartNone(recs: seq<ExtentRec>, v: nat)
    requires forall i :: 0 <= i < |recs| ==> recs[i].e_cpos <= v
    ensures NextStart(recs, v) == None
  {
    if recs != [] {
      NextStartNone(recs[1..], v);
    }
  }

  lemma {:induction false} NextStartAt(recs: seq<ExtentRec>, v: nat) returns (k: nat)
    ensures k <= |recs| && forall i :: 0 <= i < k ==> recs[i].e_cpos <= v
    ensures NextStart(recs, v) == if k < |recs| then Some(recs[k].e_cpos) else None
    ensures k < |recs| ==> v < recs[k].e_cpos
  {
    if recs == [] || v < recs[0].e_cpos {
      k := 0;
    } else {
      k := NextStartAt(recs[1..], v);
      k := k + 1;
      assert forall i :: 0 < i < |recs| ==> recs[i] == recs[1..][i - 1];
    }
  }

  /** The hole reported covers no mapped cluster; when there are no empty records
      it ends exactly at the next mapped one, or nothing is mapped past `v`. */
  lemma HoleSizeExact(fs: Fs, recs: seq<ExtentRec>, hi: nat, v: nat)
    requires 0 < fs.bpc && Sorted(fs, 0, recs, 0, hi) && hi < TWO64 && v < TWO64 && Lookup(fs, recs, v) == None
    ensures forall u :: v <= u < v + HoleSize(recs, v) ==> Lookup(fs, recs, u) == None
    ensures (forall i :: 0 <= i < |recs| ==> RecClusters(fs, 0, recs[i]) > 0) ==>
      if NextStart(recs, v).Some? then Lookup(fs, recs, v + HoleSize(recs, v)).Some?
      else forall u :: v <= u ==> Lookup(fs, recs, u) == None
  {
    var k := NextStartAt(recs, v);
    LookupSome(fs, recs, v);
    forall u | v <= u && (k < |recs| ==> u < recs[k].e_cpos)
      ensures Lookup(fs, recs, u) == None
    {
      LookupSome(fs, recs, u);
      forall i | 0 <= i < |recs|
        ensures !Covers(fs, 0, recs[i], u)
      {
        if i < k {
          assert !Covers(fs, 0, recs[i], v);
        } else if k < i {
          assert End(fs, 0, recs[k]) <= recs[i].e_cpos;
        }
      }
    }
    if k < |recs| {
      LookupSome(fs, recs, recs[k].e_cpos);
      if RecClusters(fs, 0, recs[k]) > 0 {
        assert Covers(fs, 0, recs[k], recs[k].e_cpos);
      }
    }
  }

  // ---- the chain of leaves ----

  /** The block of the first leaf below the `i`-th record of an interior list. */
  function FirstLeaf(fs: Fs, el: ExtentList, i: nat): nat
    requires 0 < el.l_tree_depth && i < |el.l_recs|
    decreases el.l_tree_depth
  {
    var kid := Kid(fs, el, i);
    if el.l_tree_depth == 1 || kid.l_tree_depth == 0 || kid.l_recs == [] then el.l_recs[i].e_blkno
    else FirstLeaf(fs, kid, 0)
  }

  /** The leaf that comes after the ones below the `i`-th record. */
  function NextLeaf(fs: Fs, el: ExtentList, i: nat, next: nat): nat
    requires 0 < el.l_tree_depth && i < |el.l_recs|
  {
    if i + 1 < |el.l_recs| then FirstLeaf(fs, el, i + 1) else next
  }

  ghost predicate KidChained(fs: Fs, el: ExtentList, i: nat, next: nat)
    requires 0 < el.l_tree_depth && i < |el.l_recs|
    decreases el.l_tree_depth, 0
  {
    if el.l_tree_depth > 1 then Chained(fs, Kid(fs, el, i), next)
    else
      var b := el.l_recs[i].e_blkno;
      b in fs.blocks && fs.blocks[b].h_next_leaf_block == next && (next != 0 ==> fs.blocks[b].h_list.l_recs != [])
  }

  /** The leaves below `el` are linked in order and the last one points to `next`;
      none that has a successor is empty. */
  ghost predicate Chained(fs: Fs, el: ExtentList, next: nat)
    decreases el.l_tree_depth
  {
    el.l_tree_depth > 0 ==> forall i :: 0 <= i < |el.l_recs| ==> KidChained(fs, el, i, NextLeaf(fs, el, i, next))
  }

  /** The interior records leave no gap between `lo` and `hi`. */
  ghost predicate Tiled(fs: Fs, el: ExtentList, lo: nat, hi: nat)
    requires 0 < fs.bpc
    decreases el.l_tree_depth
  {
    el.l_tree_depth > 0 ==>
      && el.l_recs != [] && el.l_recs[0].e_cpos == lo && End(fs, el.l_tree_depth, el.l_recs[|el.l_recs| - 1]) == hi
      && (forall i :: 0 < i < |el.l_recs| ==> End(fs, el.l_tree_depth, el.l_recs[i - 1]) == el.l_recs[i].e_cpos)
      && (forall i :: 0 <= i < |el.l_recs| ==>
            Tiled(fs, Kid(fs, el, i), el.l_recs[i].e_cpos, End(fs, el.l_tree_depth, el.l_recs[i])))
  }

  function LeavesFrom(fs: Fs, el: ExtentList, i: nat): seq<ExtentRec>
    requires 0 < el.l_tree_depth && i <= |el.l_recs|
    decreases |el.l_recs| - i
  {
    if i == |el.l_recs| then [] else Leaves(fs, Kid(fs, el, i)) + LeavesFrom(fs, el, i + 1)
  }

  lemma {:induction false} LeavesSplit(fs: Fs, el: ExtentList, i: nat)
    requires 0 < el.l_tree_depth && i <= |el.l_recs|
    ensures LeavesUpTo(fs, el, i) + LeavesFrom(fs, el, i) == Leaves(fs, el)
    decreases |el.l_recs| - i
  {
    if i < |el.l_recs| {
      LeavesSplit(fs, el, i + 1);
      assert LeavesUpTo(fs, el, i) + (Leaves(fs, Kid(fs, el, i)) + LeavesFrom(fs, el, i + 1))
        == LeavesUpTo(fs, el, i) + Leaves(fs, Kid(fs, el, i)) + LeavesFrom(fs, el, i + 1);
    }
  }

  /** Every record starts past `v`. */
  predicate AllPast(recs: seq<ExtentRec>, v: nat) {
    forall i :: 0 <= i < |recs| ==> v < recs[i].e_cpos
  }

  predicate NonePast(recs: seq<ExtentRec>, v: nat) {
    forall i :: 0 <= i < |recs| ==> recs[i].e_cpos <= v
  }

  lemma {:induction false} FromPast(fs: Fs, el: ExtentList, lo: nat, hi: nat, i: nat, v: nat)
    requires 0 < fs.bpc && WellFormed(fs, el, lo, hi) && 0 < el.l_tree_depth && i <= |el.l_recs|
    requires i < |el.l_recs| ==> v < el.l_recs[i].e_cpos
    ensures AllPast(LeavesFrom(fs, el, i), v)
    decreases |el.l_recs| - i
  {
    if i < |el.l_recs| {
      var rec := el.l_recs[i];
      assert KidOk(fs, el, i);
      LeavesSorted(fs, Kid(fs, el, i), rec.e_cpos, End(fs, el.l_tree_depth, rec));
      FromPast(fs, el, lo, hi, i + 1, v);
    }
  }

  lemma UpToPast(fs: Fs, el: ExtentList, lo: nat, hi: nat, i: nat, v: nat)
    requires 0 < fs.bpc && WellFormed(fs, el, lo, hi) && 0 < el.l_tree_depth && i <= |el.l_recs|
    requires UpTo(fs, el, lo, i) <= v
    ensures NonePast(LeavesUpTo(fs, el, i), v)
  {
    LeavesUpToSorted(fs, el, lo, hi, i);
  }

  /** `rest` are the records of the leaves from block `next` on, if there are any. */
  ghost predicate Front(fs: Fs, next: nat, rest: seq<ExtentRec>) {
    if next == 0 then rest == []
    else
      && CMFS_SUPER_BLOCK_BLKNO <= next <= fs.fs_blocks && next in fs.blocks
      && var leaf := fs.blocks[next].h_list;
      && |leaf.l_recs| <= leaf.l_count && leaf.l_tree_depth == 0
      && leaf.l_recs <= rest && (leaf.l_recs == [] ==> rest == [])
  }

  /** The leaves from the `i`-th record on start at its first leaf. */
  lemma {:induction false} FrontFrom(fs: Fs, el: ExtentList, lo: nat, hi: nat, i: nat, next: nat, rest: seq<ExtentRec>)
    requires 0 < fs.bpc && WellFormed(fs, el, lo, hi) && 0 < el.l_tree_depth && i < |el.l_recs|
    requires Chained(fs, el, next) && Front(fs, next, rest)
    ensures Front(fs, FirstLeaf(fs, el, i), LeavesFrom(fs, el, i) + rest) && FirstLeaf(fs, el, i) != 0
    decreases el.l_tree_depth, |el.l_recs| - i
  {
    var next', rest' := NextLeaf(fs, el, i, next), LeavesFrom(fs, el, i + 1) + rest;
    if i + 1 < |el.l_recs| {
      FrontFrom(fs, el, lo, hi, i + 1, next, rest);
    } else {
      assert [] + rest == rest;
    }
    FrontJoin(fs, el, i, rest);
    assert KidOk(fs, el, i) && KidChained(fs, el, i, next');
    if el.l_tree_depth > 1 {
      var kid, rec := Kid(fs, el, i), el.l_recs[i];
      FrontFrom(fs, kid, rec.e_cpos, End(fs, el.l_tree_depth, rec), 0, next', rest');
      AllFrom(fs, kid);
    } else {
      FrontLeaf(fs, el, lo, hi, i, next', rest');
    }
  }

  lemma FrontJoin(fs: Fs, el: ExtentList, i: nat, rest: seq<ExtentRec>)
    requires 0 < el.l_tree_depth && i < |el.l_recs|
    ensures LeavesFrom(fs, el, i) + rest == Leaves(fs, Kid(fs, el, i)) + (LeavesFrom(fs, el, i + 1) + rest)
  {
  }

  lemma AllFrom(fs: Fs, el: ExtentList)
    requires 0 < el.l_tree_depth
    ensures LeavesFrom(fs, el, 0) == Leaves(fs, el)
  {
    LeavesSplit(fs, el, 0);
    assert LeavesUpTo(fs, el, 0) + LeavesFrom(fs, el, 0) == LeavesFrom(fs, el, 0);
  }

  /** A leaf is the front of its records and those of the leaves after it. */
  lemma FrontLeaf(fs: Fs, el: ExtentList, lo: nat, hi: nat, i: nat, next: nat, rest: seq<ExtentRec>)
    requires 0 < fs.bpc && WellFormed(fs, el, lo, hi) && el.l_tree_depth == 1 && i < |el.l_recs|
    requires KidChained(fs, el, i, next) && Front(fs, next, rest)
    ensures Front(fs, FirstLeaf(fs, el, i), Leaves(fs, Kid(fs, el, i)) + rest) && FirstLeaf(fs, el, i) != 0
  {
    var kid, rec := Kid(fs, el, i), el.l_recs[i];
    assert KidOk(fs, el, i);
    assert WellFormed(fs, kid, rec.e_cpos, End(fs, el.l_tree_depth, rec));
    assert Leaves(fs, kid) == kid.l_recs <= kid.l_recs + rest;
  }

  /** Where the descent to `v` has come to: the records before, those after, and
      the leaf after the ones below `el`. */
  ghost predicate Placed(fs: Fs, el: ExtentList, lo: nat, hi: nat, v: nat, next: nat, before: seq<ExtentRec>,
                         rest: seq<ExtentRec>)
    requires 0 < fs.bpc
  {
    && WellFormed(fs, el, lo, hi) && Tiled(fs, el, lo, hi) && Chained(fs, el, next) && lo <= v
    && NonePast(before, v) && AllPast(rest, v) && Front(fs, next, rest) && (v < hi || rest == [])
  }

  /** In a tiled list the record that is picked covers `v`, or is the last and ends before it. */
  lemma PickTiled(fs: Fs, el: ExtentList, lo: nat, hi: nat, v: nat)
    requires 0 < fs.bpc && WellFormed(fs, el, lo, hi) && Tiled(fs, el, lo, hi) && 0 < el.l_tree_depth && lo <= v
      && Visible(fs, el, v)
    ensures var at := Pick(fs, el, v, 0);
      && UpTo(fs, el, lo, at) <= el.l_recs[at].e_cpos <= v
      && (v < End(fs, el.l_tree_depth, el.l_recs[at]) || at == |el.l_recs| - 1)
  {
    PickOther(fs, el, lo, hi, v, 0);
    PickTiledFrom(fs, el, lo, hi, v, 0);
  }

  lemma {:induction false} PickTiledFrom(fs: Fs, el: ExtentList, lo: nat, hi: nat, v: nat, i: nat)
    requires 0 < fs.bpc && WellFormed(fs, el, lo, hi) && Tiled(fs, el, lo, hi) && 0 < el.l_tree_depth
      && Visible(fs, el, v)
    requires i < |el.l_recs| && UpTo(fs, el, lo, i) <= v
    ensures var at := Pick(fs, el, v, i);
      && UpTo(fs, el, lo, at) <= el.l_recs[at].e_cpos <= v
      && (v < End(fs, el.l_tree_depth, el.l_recs[at]) || at == |el.l_recs| - 1)
    decreases |el.l_recs| - i
  {
    assert el.l_recs[i].e_cpos == UpTo(fs, el, lo, i);
    if i < |el.l_recs| - 1 && !InRange(fs, el.l_tree_depth, el.l_recs[i], v) {
      assert !Covers(fs, el.l_tree_depth, el.l_recs[i], v);
      PickTiledFrom(fs, el, lo, hi, v, i + 1);
    }
  }

  /** One step down. */
  lemma PlacedStep(fs: Fs, el: ExtentList, lo: nat, hi: nat, v: nat, next: nat, before: seq<ExtentRec>,
                   rest: seq<ExtentRec>)
    returns (lo': nat, hi': nat, next': nat, before': seq<ExtentRec>, rest': seq<ExtentRec>)
    requires 0 < fs.bpc && Placed(fs, el, lo, hi, v, next, before, rest) && 0 < el.l_tree_depth && Visible(fs, el, v)
    ensures var kid := Kid(fs, el, Pick(fs, el, v, 0));
      Placed(fs, kid, lo', hi', v, next', before', rest')
        && before' + Leaves(fs, kid) + rest' == before + Leaves(fs, el) + rest
    ensures el.l_tree_depth == 1 ==>
      el.l_recs[Pick(fs, el, v, 0)].e_blkno in fs.blocks
        && next' == fs.blocks[el.l_recs[Pick(fs, el, v, 0)].e_blkno].h_next_leaf_block
  {
    var at := Pick(fs, el, v, 0);
    var kid := Kid(fs, el, at);
    lo', hi' := el.l_recs[at].e_cpos, End(fs, el.l_tree_depth, el.l_recs[at]);
    next' := NextLeaf(fs, el, at, next);
    before', rest' := before + LeavesUpTo(fs, el, at), LeavesFrom(fs, el, at + 1) + rest;
    PickTiled(fs, el, lo, hi, v);
    assert KidOk(fs, el, at) && KidChained(fs, el, at, next');
    UpToPast(fs, el, lo, hi, at, v);
    RestAfter(fs, el, lo, hi, v, at, next, rest);
    LeavesSplit(fs, el, at);
    Regrouped(before, LeavesUpTo(fs, el, at), Leaves(fs, kid), LeavesFrom(fs, el, at + 1), rest);
  }

  lemma Regrouped(a: seq<ExtentRec>, b: seq<ExtentRec>, c: seq<ExtentRec>, d: seq<ExtentRec>, e: seq<ExtentRec>)
    ensures (a + b) + c + (d + e) == a + (b + (c + d)) + e
  {
  }

  /** The records after the child that is picked. */
  lemma RestAfter(fs: Fs, el: ExtentList, lo: nat, hi: nat, v: nat, at: nat, next: nat, rest: seq<ExtentRec>)
    requires 0 < fs.bpc && WellFormed(fs, el, lo, hi) && Chained(fs, el, next) && 0 < el.l_tree_depth
      && at < |el.l_recs|
    requires v < End(fs, el.l_tree_depth, el.l_recs[at]) || at == |el.l_recs| - 1
    requires AllPast(rest, v) && Front(fs, next, rest)
    ensures AllPast(LeavesFrom(fs, el, at + 1) + rest, v)
    ensures Front(fs, NextLeaf(fs, el, at, next), LeavesFrom(fs, el, at + 1) + rest)
    ensures at == |el.l_recs| - 1 ==> LeavesFrom(fs, el, at + 1) + rest == rest
  {
    FromPast(fs, el, lo, hi, at + 1, v);
    if at + 1 < |el.l_recs| {
      FrontFrom(fs, el, lo, hi, at + 1, next, rest);
    } else {
      assert [] + rest == rest;
    }
  }

  /** Where the descent ends. */
  lemma {:induction false} PlacedLeaf(fs: Fs, root: ExtentList, hi: nat, v: nat, d: nat)
    returns (lo': nat, hi': nat, next': nat, before': seq<ExtentRec>, rest': seq<ExtentRec>)
    requires 0 < fs.bpc && Placed(fs, root, 0, hi, v, 0, [], []) && d <= root.l_tree_depth && VisibleTo(fs, root, v, d)
    ensures Placed(fs, Descend(fs, root, v, d), lo', hi', v, next', before', rest')
    ensures before' + Leaves(fs, Descend(fs, root, v, d)) + rest' == Leaves(fs, root)
    ensures Descend(fs, root, v, d).l_tree_depth == root.l_tree_depth - d
    ensures d == root.l_tree_depth > 0 ==>
      var above := Descend(fs, root, v, d - 1);
      && above.l_recs != []
      && var b := above.l_recs[Pick(fs, above, v, 0)].e_blkno; b in fs.blocks && next' == fs.blocks[b].h_next_leaf_block
  {
    if d == 0 {
      lo', hi', next', before', rest' := 0, hi, 0, [], [];
      assert [] + Leaves(fs, root) + [] == Leaves(fs, root);
    } else {
      lo', hi', next', before', rest' := PlacedLeaf(fs, root, hi, v, d - 1);
      lo', hi', next', before', rest' := PlacedStep(fs, Descend(fs, root, v, d - 1), lo', hi', v, next', before',
                                                    rest');
      var above := Descend(fs, root, v, d - 1);
      assert KidOk(fs, above, Pick(fs, above, v, 0));
    }
  }

  /** The hole size of the whole file, from the leaf that was reached and the records after it. */
  lemma HoleAcross(before: seq<ExtentRec>, leaf: seq<ExtentRec>, rest: seq<ExtentRec>, v: nat)
    requires NonePast(before, v) && AllPast(rest, v) && v < TWO64
    ensures NextStart(before + leaf + rest, v)
      == if NextStart(leaf, v).Some? then NextStart(leaf, v) else if rest == [] then None else Some(rest[0].e_cpos)
  {
    NextStartConcat(before + leaf, rest, v);
    NextStartConcat(before, leaf, v);
    NextStartNone(before, v);
  }
}
