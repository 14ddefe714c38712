/** kernel-list.h: circular doubly linked lists, threaded through their members. */
module KernelList {

  /** `struct list_head`.  `id` is the address of the structure it is embedded
      in; `list_entry` recovers it. */
  class ListHead {
    var next: ListHead?
    var prev: ListHead?
    const id: nat

    constructor (id: nat)
      ensures this.id == id
    {
      this.id := id;
      next, prev := null, null;
    }
  }

  /** The `i`-th member of the list `s` headed by `head`; the head is both ends. */
  ghost function Nth(head: ListHead, s: seq<ListHead>, i: int): ListHead {
    if 0 <= i < |s| then s[i] else head
  }

  ghost predicate NoRepeats<T>(s: seq<T>) {
    forall i, j :: 0 <= i < j < |s| ==> s[i] != s[j]
  }

  /** `NoRepeats`, for the members as `Nth` names them. */
  ghost predicate Spread(head: ListHead, s: seq<ListHead>) {
    forall i, j {:trigger Nth(head, s, i), Nth(head, s, j)} :: 0 <= i < j < |s| ==> Nth(head, s, i) != Nth(head, s, j)
  }

  lemma SpreadNoRepeats(head: ListHead, s: seq<ListHead>)
    ensures Spread(head, s) <==> NoRepeats(s)
  {
    assert forall i :: 0 <= i < |s| ==> s[i] == Nth(head, s, i);
  }

  /** The pointers of `head` and of the members go round `s` in both directions. */
  ghost predicate Ring(head: ListHead, s: seq<ListHead>)
    reads head, s
  {
    && head !in s && Spread(head, s)
    && head.next == Nth(head, s, 0) && head.prev == Nth(head, s, |s| - 1)
    && (forall i {:trigger s[i].next} :: 0 <= i < |s| ==> s[i].next == Nth(head, s, i + 1))
    && (forall i {:trigger s[i].prev} :: 0 <= i < |s| ==> s[i].prev == Nth(head, s, i - 1))
  }

  method InitListHead(head: ListHead)
    modifies head
    ensures Ring(head, [])
  {
    head.next, head.prev := head, head;
  }

  /** `__list_add`: put `entry` between the neighbours `prev` and `next`. */
  method ListAddBetween(entry: ListHead, prev: ListHead, next: ListHead)
    requires entry !in {prev, next}
    modifies entry, prev`next, next`prev
    ensures next.prev == entry && prev.next == entry && entry.next == next && entry.prev == prev
  {
    next.prev := entry;
    entry.next := next;
    entry.prev := prev;
    prev.next := entry;
  }

  method ListAdd(entry: ListHead, head: ListHead, ghost s: seq<ListHead>)
    requires Ring(head, s) && entry != head && entry !in s
    modifies entry, head, s
    ensures Ring(head, [entry] + s)
  {
    SpreadNoRepeats(head, s);
    SpreadNoRepeats(head, [entry] + s);
    assert |s| > 0 ==> s[0].prev == head;
    ListAddBetween(entry, head, head.next);
  }

  method ListAddTail(entry: ListHead, head: ListHead, ghost s: seq<ListHead>)
    requires Ring(head, s) && entry != head && entry !in s
    modifies entry, head, s
    ensures Ring(head, s + [entry])
  {
    SpreadNoRepeats(head, s);
    SpreadNoRepeats(head, s + [entry]);
    assert |s| > 0 ==> s[|s| - 1].next == head;
    ListAddBetween(entry, head.prev, head);
  }

  /** `__list_del`: make two members neighbours. */
  method ListJoin(prev: ListHead, next: ListHead)
    modifies prev`next, next`prev
    ensures next.prev == prev && prev.next == next
  {
    next.prev := prev;
    prev.next := next;
  }

  ghost function Without<T>(s: seq<T>, k: nat): seq<T>
    requires k < |s|
  {
    s[..k] + s[k + 1..]
  }

  lemma WithoutMembers(s: seq<ListHead>, k: nat, head: ListHead)
    requires k < |s| && NoRepeats(s) && head !in s
    ensures NoRepeats(Without(s, k)) && s[k] !in Without(s, k) && head !in Without(s, k)
    ensures Nth(head, s, k - 1) == Nth(head, Without(s, k), k - 1) && Nth(head, s, k + 1) == Nth(head, Without(s, k), k)
    ensures Nth(head, s, k - 1) != s[k] && Nth(head, s, k + 1) != s[k]
  {
  }

  /** `list_del`: the neighbours of the entry point at each other. */
  method ListDel(entry: ListHead, head: ListHead, ghost s: seq<ListHead>, ghost k: nat)
    requires Ring(head, s) && k < |s| && s[k] == entry
    modifies head, s
    ensures Ring(head, Without(s, k)) && entry !in Without(s, k)
  {
    ghost var s' := Without(s, k);
    SpreadNoRepeats(head, s);
    SpreadNoRepeats(head, s');
    WithoutMembers(s, k, head);
    ghost var p, n := Nth(head, s', k - 1), Nth(head, s', k);
    assert entry.prev == p && entry.next == n;
    ListJoin(entry.prev, entry.next);
    forall i | 0 <= i < |s'|
      ensures s'[i].next == Nth(head, s', i + 1) && s'[i].prev == Nth(head, s', i - 1)
    {
      if i < k {
        assert s'[i] == s[i];
      } else {
        assert s'[i] == s[i + 1];
      }
    }
  }
}
