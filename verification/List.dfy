/** Circular doubly linked lists with a head, and the sequences that they stand for. */
module Lists {
  import opened Sequences

  class ListHead {
    var next: ListHead?
    var prev: ListHead?

    constructor ()
      ensures next == this && prev == this
    {
      next, prev := this, this;
    }
  }

  /** What comes after the node at `i` of a ring. */
  function After(ring: seq<ListHead>, i: nat): ListHead
    requires i < |ring|
  {
    if i + 1 < |ring| then ring[i + 1] else ring[0]
  }

  /** Different nodes have different nodes after them. */
  lemma DifferentAfter(ring: seq<ListHead>, i: nat, j: nat)
    requires NoDuplicates(ring) && i < |ring| && j < |ring| && i != j
    ensures ring[i] != ring[j] && After(ring, i) != After(ring, j)
  {
  }

  /** `next` and `prev` are inverse to each other all the way round. */
  ghost predicate Ring(ring: seq<ListHead>)
    reads ring
  {
    NoDuplicates(ring) && forall i :: 0 <= i < |ring| ==> Joined(ring[i], After(ring, i))
  }

  ghost predicate Joined(a: ListHead, b: ListHead)
    reads a, b
  {
    a.next == b && b.prev == a
  }

  /** The list at `head` has the entries of `s`. */
  ghost predicate IsList(head: ListHead, s: seq<ListHead>)
    reads head, s
  {
    Ring([head] + s)
  }

  /** No node is on both. */
  ghost predicate Disjoint(a: seq<ListHead>, b: seq<ListHead>) {
    forall i, j :: 0 <= i < |a| && 0 <= j < |b| ==> a[i] != b[j]
  }

  method InitListHead(list: ListHead)
    modifies list
    ensures IsList(list, [])
  {
    list.next := list;
    list.prev := list;
  }

  lemma AfterInsert(ring: seq<ListHead>, i: nat, x: ListHead, j: nat)
    requires i < |ring| && j <= |ring|
    ensures var r := ring[..i + 1] + [x] + ring[i + 1..];
            && r[j] == (if j <= i then ring[j] else if j == i + 1 then x else ring[j - 1])
            && After(r, j) == (if j < i then After(ring, j)
                               else if j == i then x
                               else if j == i + 1 then After(ring, i)
                               else After(ring, j - 1))
  {
  }

  /** A new node between the one at `i` and the one after it. */
  lemma RingInsert(ring: seq<ListHead>, i: nat, x: ListHead)
    requires NoDuplicates(ring) && i < |ring| && x !in ring
    requires forall j :: 0 <= j < |ring| && j != i ==> Joined(ring[j], After(ring, j))
    requires Joined(ring[i], x) && Joined(x, After(ring, i))
    ensures Ring(ring[..i + 1] + [x] + ring[i + 1..])
  {
    var r := ring[..i + 1] + [x] + ring[i + 1..];
    forall j | 0 <= j < |r| ensures Joined(r[j], After(r, j)) {
      AfterInsert(ring, i, x, j);
    }
    assert ring == ring[..i + 1] + ring[i + 1..];
    NoDuplicatesJoin(ring[..i + 1], x, ring[i + 1..]);
  }

  /** __list_add */
  method AddBetween(node: ListHead, prev: ListHead, next: ListHead, ghost ring: seq<ListHead>, ghost i: nat)
    requires Ring(ring) && i < |ring| && prev == ring[i] && next == After(ring, i) && node !in ring
    modifies node, prev, next
    ensures Ring(ring[..i + 1] + [node] + ring[i + 1..])
  {
    next.prev := node;
    node.next := next;
    node.prev := prev;
    prev.next := node;
    forall j | 0 <= j < |ring| && j != i ensures Joined(ring[j], After(ring, j)) {
      assert old(Joined(ring[j], After(ring, j)));
      assert After(ring, j) != next;
    }
    RingInsert(ring, i, node);
  }

  /** list_add */
  method ListAdd(node: ListHead, head: ListHead, ghost s: seq<ListHead>)
    requires IsList(head, s) && node !in [head] + s
    modifies node, head, head.next
    ensures IsList(head, [node] + s)
  {
    ghost var ring := [head] + s;
    assert Joined(ring[0], After(ring, 0));
    AddBetween(node, head, head.next, ring, 0);
    assert ring[..1] + [node] + ring[1..] == [head] + ([node] + s);
  }

  lemma HeadPrev(head: ListHead, s: seq<ListHead>)
    requires IsList(head, s)
    ensures head.prev == ([head] + s)[|s|] && head.prev.next == head
  {
    var ring := [head] + s;
    assert Joined(ring[|s|], After(ring, |s|));
  }

  /** list_add_tail */
  method ListAddTail(node: ListHead, head: ListHead, ghost s: seq<ListHead>)
    requires IsList(head, s) && node !in [head] + s
    modifies node, head, head.prev
    ensures IsList(head, s + [node])
  {
    ghost var ring := [head] + s;
    HeadPrev(head, s);
    AddBetween(node, head.prev, head, ring, |s|);
    assert ring[..|s| + 1] + [node] + ring[|s| + 1..] == [head] + (s + [node]);
  }

  lemma AfterRemove(ring: seq<ListHead>, i: nat, j: nat)
    requires 0 < i < |ring| && j < |ring| - 1
    ensures var r := ring[..i] + ring[i + 1..];
            r[j] == (if j < i then ring[j] else ring[j + 1])
              && After(r, j) == After(ring, if j < i - 1 then j else j + 1)
  {
  }

  /** The node at `i` taken out. */
  lemma RingRemove(ring: seq<ListHead>, i: nat)
    requires NoDuplicates(ring) && 0 < i < |ring|
    requires forall j :: 0 <= j < |ring| && j != i && j != i - 1 ==> Joined(ring[j], After(ring, j))
    requires Joined(ring[i - 1], After(ring, i))
    ensures Ring(ring[..i] + ring[i + 1..])
  {
    var r := ring[..i] + ring[i + 1..];
    forall j | 0 <= j < |r| ensures Joined(r[j], After(r, j)) {
      AfterRemove(ring, i, j);
    }
    forall j, k | 0 <= j < k < |r| ensures r[j] != r[k] {
      AfterRemove(ring, i, j);
      AfterRemove(ring, i, k);
    }
  }

  /** __list_del */
  method DelBetween(prev: ListHead, next: ListHead)
    modifies prev`next, next`prev
    ensures Joined(prev, next)
  {
    next.prev := prev;
    prev.next := next;
  }

  /** __list_del_entry */
  method DelEntry(entry: ListHead, head: ListHead, ghost s: seq<ListHead>, ghost i: nat)
    requires IsList(head, s) && i < |s| && s[i] == entry
    modifies entry.prev, entry.next
    ensures IsList(head, s[..i] + s[i + 1..])
  {
    ghost var ring := [head] + s;
    assert Joined(ring[i], ring[i + 1]) && Joined(ring[i + 1], After(ring, i + 1));
    var prev, next := entry.prev, entry.next;
    DelBetween(prev, next);
    forall j | 0 <= j < |ring| && j != i + 1 && j != i ensures Joined(ring[j], After(ring, j)) {
      assert old(Joined(ring[j], After(ring, j)));
      assert After(ring, j) != next;
    }
    RingRemove(ring, i + 1);
    assert ring[..i + 1] + ring[i + 2..] == [head] + (s[..i] + s[i + 1..]);
  }

  /** list_del */
  method ListDel(entry: ListHead, head: ListHead, ghost s: seq<ListHead>, ghost i: nat)
    requires IsList(head, s) && i < |s| && s[i] == entry
    modifies entry, entry.prev, entry.next
    ensures IsList(head, s[..i] + s[i + 1..]) && entry.next == null && entry.prev == null
  {
    EntryOut(head, s, i);
    DelEntry(entry, head, s, i);
    entry.next := null;
    entry.prev := null;
  }

  lemma EntryOut(head: ListHead, s: seq<ListHead>, i: nat)
    requires NoDuplicates([head] + s) && i < |s|
    ensures s[i] !in [head] + (s[..i] + s[i + 1..])
  {
    var ring := [head] + s;
    assert ring == ring[..i + 1] + [ring[i + 1]] + ring[i + 2..];
    NoDuplicatesAround(ring[..i + 1], ring[i + 1], ring[i + 2..]);
    assert [head] + (s[..i] + s[i + 1..]) == ring[..i + 1] + ring[i + 2..];
  }

  /** list_del_init */
  method ListDelInit(entry: ListHead, head: ListHead, ghost s: seq<ListHead>, ghost i: nat)
    requires IsList(head, s) && i < |s| && s[i] == entry
    modifies entry, entry.prev, entry.next
    ensures IsList(head, s[..i] + s[i + 1..]) && IsList(entry, [])
  {
    EntryOut(head, s, i);
    DelEntry(entry, head, s, i);
    InitListHead(entry);
  }

  /** list_empty */
  predicate ListEmpty(head: ListHead)
    reads head
  {
    head.next == head
  }

  lemma EmptyIsEmpty(head: ListHead, s: seq<ListHead>)
    requires IsList(head, s)
    ensures ListEmpty(head) <==> s == []
  {
    var ring := [head] + s;
    assert Joined(ring[0], After(ring, 0));
    if s != [] {
      assert ring[0] != ring[1];
    }
  }

  /** list_empty_careful */
  predicate ListEmptyCareful(head: ListHead)
    reads head
  {
    head.next == head && head.next == head.prev
  }

  /** The test on an entry tells whether it is on a list, if it is a list of its own when it is on none. */
  lemma EmptyIsOff(entry: ListHead, head: ListHead, s: seq<ListHead>)
    requires IsList(head, s) && entry != head && (entry !in s ==> IsList(entry, []))
    ensures ListEmptyCareful(entry) <==> entry !in s
  {
    if entry in s {
      var ring := [head] + s;
      var i :| 0 <= i < |s| && s[i] == entry;
      assert Joined(ring[i + 1], After(ring, i + 1));
    } else {
      EmptyIsEmpty(entry, []);
      HeadPrev(entry, []);
    }
  }

  /** list_is_singular */
  predicate ListIsSingular(head: ListHead)
    reads head
  {
    !ListEmpty(head) && head.next == head.prev
  }

  lemma SingularIsSingular(head: ListHead, s: seq<ListHead>)
    requires IsList(head, s)
    ensures ListIsSingular(head) <==> |s| == 1
  {
    var ring := [head] + s;
    EmptyIsEmpty(head, s);
    HeadPrev(head, s);
    assert Joined(ring[0], After(ring, 0));
    if |s| > 1 {
      assert ring[1] != ring[|s|];
    }
  }

  /** list_move_tail, to the list that the entry is on. */
  method ListMoveTail(entry: ListHead, head: ListHead, ghost s: seq<ListHead>, ghost i: nat)
    requires IsList(head, s) && i < |s| && s[i] == entry
    modifies head, s
    ensures IsList(head, s[..i] + s[i + 1..] + [entry])
  {
    ghost var ring := [head] + s;
    assert Joined(ring[i], ring[i + 1]) && Joined(ring[i + 1], After(ring, i + 1));
    EntryOut(head, s, i);
    DelEntry(entry, head, s, i);
    HeadPrev(head, s[..i] + s[i + 1..]);
    ListAddTail(entry, head, s[..i] + s[i + 1..]);
  }

  /** list_rotate_left */
  method ListRotateLeft(head: ListHead, ghost s: seq<ListHead>)
    requires IsList(head, s)
    modifies head, s
    ensures IsList(head, if s == [] then [] else s[1..] + [s[0]])
  {
    EmptyIsEmpty(head, s);
    if !ListEmpty(head) {
      ghost var ring := [head] + s;
      assert Joined(ring[0], After(ring, 0));
      ListMoveTail(head.next, head, s, 0);
      assert s[..0] + s[1..] + [s[0]] == s[1..] + [s[0]];
    }
  }

  /** list_move, to the front of the list that the entry is on. */
  method ListMove(entry: ListHead, head: ListHead, ghost s: seq<ListHead>, ghost i: nat)
    requires IsList(head, s) && i < |s| && s[i] == entry
    modifies head, s
    ensures IsList(head, [entry] + (s[..i] + s[i + 1..]))
  {
    ghost var ring := [head] + s;
    assert Joined(ring[i], ring[i + 1]) && Joined(ring[i + 1], After(ring, i + 1));
    EntryOut(head, s, i);
    DelEntry(entry, head, s, i);
    HeadNext(head, s[..i] + s[i + 1..]);
    ListAdd(entry, head, s[..i] + s[i + 1..]);
  }

  /** list_move, to another list. */
  method ListMoveTo(entry: ListHead, from: ListHead, ghost s: seq<ListHead>, ghost i: nat, head: ListHead,
                    ghost t: seq<ListHead>)
    requires IsList(from, s) && i < |s| && s[i] == entry && IsList(head, t) && Disjoint([from] + s, [head] + t)
    modifies from, s, head, t
    ensures IsList(from, s[..i] + s[i + 1..]) && IsList(head, [entry] + t)
  {
    LeaveAlone(entry, from, s, i, head, t);
    DelEntry(entry, from, s, i);
    HeadNext(head, t);
    NotOn(from, s, i, [head] + t, 0);
    NotOn(from, s, i, [head] + t, if t == [] then 0 else 1);
    ListAdd(entry, head, t);
  }

  /** list_move_tail, to another list. */
  method ListMoveTailTo(entry: ListHead, from: ListHead, ghost s: seq<ListHead>, ghost i: nat, head: ListHead,
                        ghost t: seq<ListHead>)
    requires IsList(from, s) && i < |s| && s[i] == entry && IsList(head, t) && Disjoint([from] + s, [head] + t)
    modifies from, s, head, t
    ensures IsList(from, s[..i] + s[i + 1..]) && IsList(head, t + [entry])
  {
    LeaveAlone(entry, from, s, i, head, t);
    DelEntry(entry, from, s, i);
    HeadPrev(head, t);
    NotOn(from, s, i, [head] + t, 0);
    NotOn(from, s, i, [head] + t, |t|);
    ListAddTail(entry, head, t);
  }

  lemma NotOn(from: ListHead, s: seq<ListHead>, i: nat, other: seq<ListHead>, j: nat)
    requires Disjoint([from] + s, other) && i < |s| && j < |other|
    ensures other[j] !in [from] + (s[..i] + s[i + 1..])
  {
    var left := [from] + (s[..i] + s[i + 1..]);
    forall k | 0 <= k < |left| ensures left[k] != other[j] {
      assert left[k] == ([from] + s)[if k < i + 1 then k else k + 1];
    }
  }

  lemma HeadNext(head: ListHead, s: seq<ListHead>)
    requires IsList(head, s)
    ensures head.next == After([head] + s, 0)
  {
    assert Joined(([head] + s)[0], After([head] + s, 0));
  }

  /** The neighbours of an entry, which is not on the other list. */
  lemma LeaveAlone(entry: ListHead, from: ListHead, s: seq<ListHead>, i: nat, head: ListHead, t: seq<ListHead>)
    requires IsList(from, s) && i < |s| && s[i] == entry && Disjoint([from] + s, [head] + t)
    ensures entry.prev == ([from] + s)[i] && entry.next == After([from] + s, i + 1)
    ensures entry !in [head] + t && entry !in [from] + (s[..i] + s[i + 1..])
    ensures entry.prev !in [head] + t && entry.next !in [head] + t
  {
    var ring := [from] + s;
    assert forall j, k :: 0 <= j < |ring| && 0 <= k < |[head] + t| ==> ring[j] != ([head] + t)[k];
    assert Joined(ring[i], ring[i + 1]) && Joined(ring[i + 1], After(ring, i + 1));
    EntryOut(from, s, i);
  }

  lemma RingReplace(ring: seq<ListHead>, i: nat, x: ListHead)
    requires NoDuplicates(ring) && i < |ring| && x !in ring
    requires forall j :: 0 <= j < |ring| && j != i && After(ring, j) != ring[i] ==> Joined(ring[j], After(ring, j))
    requires if |ring| == 1 then Joined(x, x)
             else Joined(ring[if i == 0 then |ring| - 1 else i - 1], x) && Joined(x, After(ring, i))
    ensures Ring(ring[i := x])
  {
    var r := ring[i := x];
    forall j | 0 <= j < |r| ensures Joined(r[j], After(r, j)) {
      if j != i && After(ring, j) != ring[i] {
        assert r[j] == ring[j] && After(r, j) == After(ring, j);
      }
    }
  }

  /** list_replace: an entry, or the head itself, gives its place to a new node. */
  method ListReplace(entry: ListHead, node: ListHead, ghost ring: seq<ListHead>, ghost i: nat)
    requires Ring(ring) && i < |ring| && ring[i] == entry && node !in ring
    modifies node, ring
    ensures Ring(ring[i := node])
  {
    ghost var before := if i == 0 then |ring| - 1 else i - 1;
    assert After(ring, before) == entry;
    assert Joined(ring[before], entry) && Joined(entry, After(ring, i)) by {
      assert Joined(ring[before], After(ring, before)) && Joined(ring[i], After(ring, i));
    }
    node.next := entry.next;
    node.next.prev := node;
    node.prev := entry.prev;
    node.prev.next := node;
    forall j | 0 <= j < |ring| && j != i && After(ring, j) != ring[i] ensures Joined(ring[j], After(ring, j)) {
      assert old(Joined(ring[j], After(ring, j)));
      DifferentAfter(ring, j, before);
      DifferentAfter(ring, j, i);
    }
    assert node.prev == (if |ring| == 1 then node else ring[before]) && node.prev.next == node;
    RingReplace(ring, i, node);
  }

  /** list_replace_init */
  method ListReplaceInit(entry: ListHead, node: ListHead, ghost ring: seq<ListHead>, ghost i: nat)
    requires Ring(ring) && i < |ring| && ring[i] == entry && node !in ring
    modifies node, ring
    ensures Ring(ring[i := node]) && IsList(entry, [])
  {
    ListReplace(entry, node, ring, i);
    assert entry !in ring[i := node];
    InitListHead(entry);
  }

  // ---------------------------------------------------------------------------------------------
  // Cutting and splicing
  // ---------------------------------------------------------------------------------------------

  lemma CutDistinct(list: ListHead, head: ListHead, s: seq<ListHead>, k: nat)
    requires NoDuplicates([head] + s) && list !in [head] + s && k < |s|
    ensures NoDuplicates([list] + s[..k + 1]) && NoDuplicates([head] + s[k + 1..])
  {
    var ring, a, b := [head] + s, [list] + s[..k + 1], [head] + s[k + 1..];
    forall i, j | 0 <= i < j < |a| ensures a[i] != a[j] {
      assert a[j] == ring[j] && (i > 0 ==> a[i] == ring[i]);
    }
    forall i, j | 0 <= i < j < |b| ensures b[i] != b[j] {
      assert b[j] == ring[j + k + 1] && b[i] == ring[if i == 0 then 0 else i + k + 1];
    }
  }

  lemma AfterCut(list: ListHead, head: ListHead, s: seq<ListHead>, k: nat, j: nat)
    requires k < |s| && 0 < j
    ensures j < k + 1 ==> ([list] + s[..k + 1])[j] == s[j - 1] && After([list] + s[..k + 1], j) == After([head] + s, j)
    ensures j < |s| - k ==> ([head] + s[k + 1..])[j] == s[j + k]
                            && After([head] + s[k + 1..], j) == After([head] + s, j + k + 1)
  {
  }

  /** A ring cut behind the node at `k`; its first part goes to `list`. */
  lemma RingCut(list: ListHead, head: ListHead, s: seq<ListHead>, k: nat)
    requires NoDuplicates([head] + s) && list !in [head] + s && k < |s|
    requires forall j :: 0 <= j < |s| && j != k ==> Joined(s[j], After([head] + s, j + 1))
    requires Joined(list, s[0]) && Joined(s[k], list) && Joined(head, After([head] + s, k + 1))
    ensures IsList(list, s[..k + 1]) && IsList(head, s[k + 1..])
  {
    var a, b := [list] + s[..k + 1], [head] + s[k + 1..];
    CutDistinct(list, head, s, k);
    forall j | 0 <= j < |a| ensures Joined(a[j], After(a, j)) {
      if 0 < j < |a| - 1 {
        AfterCut(list, head, s, k, j);
      }
    }
    forall j | 0 <= j < |b| ensures Joined(b[j], After(b, j)) {
      if 0 < j {
        AfterCut(list, head, s, k, j);
      }
    }
  }

  /** The writes of __list_cut_position. */
  method CutLinks(list: ListHead, head: ListHead, entry: ListHead, ghost first: ListHead, ghost behind: ListHead)
    requires head.next == first && entry.next == behind && first != behind && head != entry
    requires list != head && list != entry && list != first && list != behind
    modifies list, head`next, entry`next, first`prev, behind`prev
    ensures Joined(list, first) && Joined(entry, list) && Joined(head, behind)
  {
    var newFirst := entry.next;
    list.next := head.next;
    list.next.prev := list;
    list.prev := entry;
    entry.next := list;
    head.next := newFirst;
    newFirst.prev := head;
  }

  /** __list_cut_position */
  method Cut(list: ListHead, head: ListHead, entry: ListHead, ghost s: seq<ListHead>, ghost k: nat)
    requires IsList(head, s) && list !in [head] + s && k < |s| && s[k] == entry
    modifies list, head, s
    ensures IsList(list, s[..k + 1]) && IsList(head, s[k + 1..])
  {
    ghost var ring := [head] + s;
    ghost var first, behind := ring[1], After(ring, k + 1);
    assert Joined(ring[0], After(ring, 0)) && Joined(ring[k + 1], After(ring, k + 1));
    CutLinks(list, head, entry, first, behind);
    forall j | 0 <= j < |s| && j != k ensures Joined(s[j], After(ring, j + 1)) {
      DifferentAfter(ring, j + 1, k + 1);
      DifferentAfter(ring, j + 1, 0);
      assert old(Joined(ring[j + 1], After(ring, j + 1)));
    }
    RingCut(list, head, s, k);
  }

  /** list_cut_position: the part of the list up to an entry goes to another list, which becomes empty if the entry is
      the head.  Nothing is done if the list is empty, or has one entry and is asked for another. */
  method ListCutPosition(list: ListHead, head: ListHead, entry: ListHead, ghost s: seq<ListHead>, ghost k: nat)
    requires IsList(head, s) && list !in [head] + s && k <= |s|
    requires entry == ([head] + s)[k] || (|s| <= 1 && entry !in [head] + s)
    modifies list, head, s
    ensures s != [] && entry in [head] + s ==> IsList(list, s[..k]) && IsList(head, s[k..])
    ensures s == [] || entry !in [head] + s ==>
              IsList(head, s) && list.next == old(list.next) && list.prev == old(list.prev)
  {
    ghost var ring := [head] + s;
    EmptyIsEmpty(head, s);
    SingularIsSingular(head, s);
    assert Joined(ring[0], After(ring, 0));
    if ListEmpty(head) {
      return;
    }
    if ListIsSingular(head) && head.next != entry && head != entry {
      return;
    }
    if entry == head {
      assert k == 0;
      InitListHead(list);
    } else {
      Cut(list, head, entry, s, k - 1);
    }
  }

  /** A ring `[list] + a` put in behind the node at `i` of another ring, without its head. */
  lemma RingSplice(a: seq<ListHead>, ring: seq<ListHead>, i: nat)
    requires NoDuplicates(a) && NoDuplicates(ring) && Disjoint(a, ring) && a != [] && i < |ring|
    requires forall j :: 0 <= j < |ring| && j != i ==> Joined(ring[j], After(ring, j))
    requires forall j :: 0 <= j < |a| - 1 ==> Joined(a[j], a[j + 1])
    requires Joined(ring[i], a[0]) && Joined(a[|a| - 1], After(ring, i))
    ensures Ring(ring[..i + 1] + a + ring[i + 1..])
  {
    var r := ring[..i + 1] + a + ring[i + 1..];
    forall j | 0 <= j < |r| ensures Joined(r[j], After(r, j)) {
      AfterSplice(a, ring, i, j);
    }
    forall j, k | 0 <= j < k < |r| ensures r[j] != r[k] {
      AfterSplice(a, ring, i, j);
      AfterSplice(a, ring, i, k);
      if j <= i && i < k <= i + |a| {
        assert a[k - i - 1] != ring[j];
      } else if i < j <= i + |a| && k > i + |a| {
        assert a[j - i - 1] != ring[k - |a|];
      }
    }
  }

  lemma AfterSplice(a: seq<ListHead>, ring: seq<ListHead>, i: nat, j: nat)
    requires a != [] && i < |ring| && j < |ring| + |a|
    ensures var r := ring[..i + 1] + a + ring[i + 1..];
            && (j <= i ==> r[j] == ring[j] && After(r, j) == if j < i then After(ring, j) else a[0])
            && (i < j <= i + |a| ==> r[j] == a[j - i - 1]
                                     && After(r, j) == if j < i + |a| then a[j - i] else After(ring, i))
            && (j > i + |a| ==> r[j] == ring[j - |a|] && After(r, j) == After(ring, j - |a|))
  {
  }

  lemma InFrom(list: ListHead, a: seq<ListHead>, ring: seq<ListHead>)
    requires NoDuplicates([list] + a) && Disjoint([list] + a, ring)
    ensures NoDuplicates(a) && Disjoint(a, ring)
  {
    assert forall i :: 0 <= i < |a| ==> a[i] == ([list] + a)[i + 1];
  }

  /** __list_splice */
  method Splice(list: ListHead, prev: ListHead, next: ListHead, ghost a: seq<ListHead>, ghost ring: seq<ListHead>,
                ghost i: nat)
    requires IsList(list, a) && a != [] && Ring(ring) && Disjoint([list] + a, ring)
    requires i < |ring| && prev == ring[i] && next == After(ring, i)
    modifies a, prev, next
    ensures Ring(ring[..i + 1] + a + ring[i + 1..])
  {
    ghost var from := [list] + a;
    assert Joined(from[0], from[1]);
    HeadPrev(list, a);
    assert a[0] == from[1] && a[|a| - 1] == from[|a|];
    assert NoDuplicates(a) && Disjoint(a, ring) by {
      InFrom(list, a, ring);
    }
    var first, last := list.next, list.prev;
    first.prev := prev;
    prev.next := first;
    last.next := next;
    next.prev := last;
    forall j | 0 <= j < |ring| && j != i ensures Joined(ring[j], After(ring, j)) {
      assert old(Joined(ring[j], After(ring, j)));
      assert ring[j] != prev && ring[j] != last && After(ring, j) != next && After(ring, j) != first;
    }
    forall j | 0 <= j < |a| - 1 ensures Joined(a[j], a[j + 1]) {
      assert old(Joined(from[j + 1], After(from, j + 1)));
      assert a[j] == from[j + 1] && a[j + 1] == from[j + 2];
    }
    RingSplice(a, ring, i);
  }

  /** list_splice */
  method ListSplice(list: ListHead, head: ListHead, ghost a: seq<ListHead>, ghost b: seq<ListHead>)
    requires IsList(list, a) && IsList(head, b) && Disjoint([list] + a, [head] + b)
    modifies a, head, b
    ensures IsList(head, a + b)
  {
    EmptyIsEmpty(list, a);
    if !ListEmpty(list) {
      ghost var ring := [head] + b;
      assert Joined(ring[0], After(ring, 0));
      Splice(list, head, head.next, a, ring, 0);
      assert ring[..1] + a + ring[1..] == [head] + (a + b);
    } else {
      assert a + b == b;
    }
  }

  /** list_splice_tail */
  method ListSpliceTail(list: ListHead, head: ListHead, ghost a: seq<ListHead>, ghost b: seq<ListHead>)
    requires IsList(list, a) && IsList(head, b) && Disjoint([list] + a, [head] + b)
    modifies a, head, b
    ensures IsList(head, b + a)
  {
    EmptyIsEmpty(list, a);
    if !ListEmpty(list) {
      ghost var ring := [head] + b;
      HeadPrev(head, b);
      Splice(list, head.prev, head, a, ring, |b|);
      assert ring[..|b| + 1] + a + ring[|b| + 1..] == [head] + (b + a);
    } else {
      assert b + a == b;
    }
  }

  lemma HeadApart(list: ListHead, head: ListHead, a: seq<ListHead>, b: seq<ListHead>)
    requires NoDuplicates([list] + a) && Disjoint([list] + a, [head] + b)
    ensures list != head && list !in a && list !in b
  {
    var from, into := [list] + a, [head] + b;
    assert forall i :: 0 <= i < |a| ==> a[i] == from[i + 1];
    assert forall i :: 0 <= i < |b| ==> b[i] == into[i + 1];
    assert from[0] != into[0];
  }

  /** list_splice_init */
  method ListSpliceInit(list: ListHead, head: ListHead, ghost a: seq<ListHead>, ghost b: seq<ListHead>)
    requires IsList(list, a) && IsList(head, b) && Disjoint([list] + a, [head] + b)
    modifies list, a, head, b
    ensures IsList(head, a + b) && IsList(list, [])
  {
    EmptyIsEmpty(list, a);
    if !ListEmpty(list) {
      HeadApart(list, head, a, b);
      ListSplice(list, head, a, b);
      InitListHead(list);
    } else {
      assert a + b == b;
    }
  }

  /** list_splice_tail_init */
  method ListSpliceTailInit(list: ListHead, head: ListHead, ghost a: seq<ListHead>, ghost b: seq<ListHead>)
    requires IsList(list, a) && IsList(head, b) && Disjoint([list] + a, [head] + b)
    modifies list, a, head, b
    ensures IsList(head, b + a) && IsList(list, [])
  {
    EmptyIsEmpty(list, a);
    if !ListEmpty(list) {
      HeadApart(list, head, a, b);
      ListSpliceTail(list, head, a, b);
      InitListHead(list);
    } else {
      assert b + a == b;
    }
  }

  /** Cutting a list that is not empty, at one of its entries or its head, and splicing the piece back changes
      nothing. */
  method CutAndSplice(list: ListHead, head: ListHead, entry: ListHead, ghost s: seq<ListHead>, ghost k: nat)
    requires IsList(head, s) && s != [] && list !in [head] + s && k <= |s| && entry == ([head] + s)[k]
    modifies list, head, s
    ensures IsList(head, s)
  {
    ListCutPosition(list, head, entry, s, k);
    CutApart(list, head, s, k);
    ListSplice(list, head, s[..k], s[k..]);
    assert s[..k] + s[k..] == s;
  }

  lemma CutApart(list: ListHead, head: ListHead, s: seq<ListHead>, k: nat)
    requires NoDuplicates([head] + s) && list !in [head] + s && k <= |s|
    ensures Disjoint([list] + s[..k], [head] + s[k..])
  {
    var ring := [head] + s;
    forall i, j | 0 <= i < k && 0 <= j <= |s| - k ensures s[i] != ([head] + s[k..])[j] {
      assert s[i] == ring[i + 1] && ([head] + s[k..])[j] == ring[if j == 0 then 0 else j + k];
    }
  }
}
