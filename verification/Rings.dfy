/**
  The intrusive circular doubly linked list of include/zsr/list.h.

  A C struct that embeds a `list_head_t` is one `Node`: `next` and `prev` are the embedded
  links and `entry` is the rest of the struct, so that container_of is the identity. A list
  head is a `Node` whose `entry` nobody reads.
 */
module Rings {

  class Node<T(0)> {
    var next: Node?<T>
    var prev: Node?<T>
    var entry: T

    /** malloc: the links and the payload are arbitrary. */
    constructor ()
    {
    }
  }

  /** The node after (before) position `i` of the cycle `r`. */
  ghost function Succ<T(0)>(r: seq<Node<T>>, i: nat): Node<T>
    requires i < |r|
  {
    if i + 1 == |r| then r[0] else r[i + 1]
  }

  ghost function Pred<T(0)>(r: seq<Node<T>>, i: nat): Node<T>
    requires i < |r|
  {
    if i == 0 then r[|r| - 1] else r[i - 1]
  }

  ghost predicate Distinct<X>(s: seq<X>) {
    forall i, j :: 0 <= i < j < |s| ==> s[i] != s[j]
  }

  /** `r` lists, in `next` order, every node of one well-formed ring. */
  ghost predicate Cycle<T(0)>(r: seq<Node<T>>)
    reads r`next, r`prev
  {
    && |r| > 0
    && Distinct(r)
    && (forall i {:trigger r[i].next} :: 0 <= i < |r| ==> r[i].next == Succ(r, i))
    && (forall i {:trigger r[i].prev} :: 0 <= i < |r| ==> r[i].prev == Pred(r, i))
  }

  /** `head` is a list head whose list carries exactly the nodes `s`, first to last. */
  ghost predicate Ring<T(0)>(head: Node<T>, s: seq<Node<T>>)
    reads head`next, head`prev, s`next, s`prev
  {
    && head !in s && Distinct(s)
    && head.next == (if s == [] then head else s[0])
    && head.prev == (if s == [] then head else s[|s| - 1])
    && (forall i {:trigger s[i].next} :: 0 <= i < |s| ==> s[i].next == if i + 1 < |s| then s[i + 1] else head)
    && (forall i {:trigger s[i].prev} :: 0 <= i < |s| ==> s[i].prev == if i > 0 then s[i - 1] else head)
  }

  ghost predicate Apart<X>(s: seq<X>, t: seq<X>) {
    forall i, j :: 0 <= i < |s| && 0 <= j < |t| ==> s[i] != t[j]
  }

  /** Two list heads and their lists have no node in common. */
  ghost predicate ApartRings<X>(list: X, a: seq<X>, head: X, s: seq<X>) {
    list != head && list !in s && head !in a && Apart(a, s)
  }

  lemma RingGivesCycle<T(0)>(head: Node<T>, s: seq<Node<T>>)
    requires Ring(head, s)
    ensures Cycle([head] + s)
  {
    var r := [head] + s;
    forall i | 0 <= i < |r| ensures r[i].next == Succ(r, i) && r[i].prev == Pred(r, i) {
      if i > 0 {
        assert r[i] == s[i - 1];
      }
    }
  }

  lemma CycleGivesRing<T(0)>(head: Node<T>, s: seq<Node<T>>)
    requires Cycle([head] + s)
    ensures Ring(head, s)
  {
    var r := [head] + s;
    assert r[0].next == Succ(r, 0) && r[0].prev == Pred(r, 0);
    forall i | 0 <= i < |s|
      ensures s[i].next == (if i + 1 < |s| then s[i + 1] else head)
      ensures s[i].prev == (if i > 0 then s[i - 1] else head)
      ensures s[i] != head
    {
      assert r[i + 1].next == Succ(r, i + 1) && r[i + 1].prev == Pred(r, i + 1);
    }
    forall i, j | 0 <= i < j < |s| ensures s[i] != s[j] {
      assert r[i + 1] != r[j + 1];
    }
  }

  /** A head and its list are one cycle that starts at the head. */
  lemma RingIsCycle<T(0)>(head: Node<T>, s: seq<Node<T>>)
    ensures Ring(head, s) <==> Cycle([head] + s)
  {
    hide Ring, Cycle;
    if Ring(head, s) {
      RingGivesCycle(head, s);
    }
    if Cycle([head] + s) {
      CycleGivesRing(head, s);
    }
  }

  /** The payloads of a list, first to last. */
  ghost function Entries<T(0)>(s: seq<Node<T>>): (es: seq<T>)
    reads s
    ensures |es| == |s| && forall i :: 0 <= i < |s| ==> es[i] == s[i].entry
  {
    seq(|s|, i requires 0 <= i < |s| reads s => s[i].entry)
  }

  lemma EntriesAppend<T(0)>(s: seq<Node<T>>, t: seq<Node<T>>)
    ensures Entries(s + t) == Entries(s) + Entries(t)
  {
  }

  ghost function Nodes<X>(s: seq<X>): set<X> {
    set x | x in s
  }

  ghost function Without<X>(s: seq<X>, k: nat): (w: seq<X>)
    requires k < |s|
  {
    s[..k] + s[k + 1..]
  }

  lemma WithoutForgets<X>(s: seq<X>, k: nat)
    requires Distinct(s) && k < |s|
    ensures s[k] !in Without(s, k) && Distinct(Without(s, k))
  {
  }

  lemma RingWithout<T(0)>(head: Node<T>, s: seq<Node<T>>, k: nat)
    requires k < |s| && Cycle(Without([head] + s, k + 1))
    ensures Ring(head, Without(s, k))
  {
    assert Without([head] + s, k + 1) == [head] + Without(s, k);
    RingIsCycle(head, Without(s, k));
  }

  // ------------------------------------------------------------------ queries

  predicate ListEmpty<T(0)>(head: Node<T>)
    reads head
  {
    head.next == head
  }

  predicate ListIsLast<T(0)>(list: Node<T>, head: Node<T>)
    reads list
  {
    list.next == head
  }

  predicate ListEmptyCareful<T(0)>(head: Node<T>)
    reads head
  {
    var next := head.next;
    next == head && next == head.prev
  }

  predicate ListIsSingular<T(0)>(head: Node<T>)
    reads head
  {
    !ListEmpty(head) && head.next == head.prev
  }

  /** What the four tests mean for the list that a head carries. */
  lemma QueriesDecide<T(0)>(head: Node<T>, s: seq<Node<T>>, x: Node<T>)
    requires Ring(head, s)
    ensures ListEmpty(head) <==> s == []
    ensures ListEmptyCareful(head) <==> s == []
    ensures ListIsSingular(head) <==> |s| == 1
    ensures head !in s
    ensures x in s ==> (ListIsLast(x, head) <==> x == s[|s| - 1])
    ensures head.next == (if s == [] then head else s[0]) && head.prev == (if s == [] then head else s[|s| - 1])
  {
    if x in s {
      var i :| 0 <= i < |s| && s[i] == x;
      assert s[i].next == if i + 1 < |s| then s[i + 1] else head;
    }
  }

  // --------------------------------------------------- the links of a new ring

  lemma DistinctSpliced<X>(r: seq<X>, k: nat, a: seq<X>)
    requires Distinct(r) && Distinct(a) && Apart(a, r) && k < |r|
    ensures Distinct(r[..k + 1] + a + r[k + 1..])
  {
    var t := r[..k + 1] + a + r[k + 1..];
    forall i, j | 0 <= i < j < |t| ensures t[i] != t[j] {
      var x, y := t[i], t[j];
      assert x == if i <= k then r[i] else if i <= k + |a| then a[i - k - 1] else r[i - |a|];
      assert y == if j <= k then r[j] else if j <= k + |a| then a[j - k - 1] else r[j - |a|];
    }
  }

  /** The links that make the nodes `a` sit between `r[k]` and its successor in the cycle `r`. */
  ghost predicate SplicedLinks<T(0)>(r: seq<Node<T>>, k: nat, a: seq<Node<T>>)
    requires k < |r| && a != []
    reads r, a
  {
    && (forall i {:trigger r[i].next} :: 0 <= i < |r| ==> r[i].next == if i == k then a[0] else Succ(r, i))
    && (forall i {:trigger a[i].next} :: 0 <= i < |a| ==> a[i].next == if i + 1 < |a| then a[i + 1] else Succ(r, k))
    && (forall i {:trigger r[i].prev} :: 0 <= i < |r| ==>
          r[i].prev == if i == k + 1 || (i == 0 && k + 1 == |r|) then a[|a| - 1] else Pred(r, i))
    && (forall i {:trigger a[i].prev} :: 0 <= i < |a| ==> a[i].prev == if i > 0 then a[i - 1] else r[k])
  }

  lemma CycleSpliced<T(0)>(r: seq<Node<T>>, k: nat, a: seq<Node<T>>)
    requires Distinct(r) && Distinct(a) && Apart(a, r) && k < |r| && a != []
    requires SplicedLinks(r, k, a)
    ensures Cycle(r[..k + 1] + a + r[k + 1..])
  {
    DistinctSpliced(r, k, a);
    var t := r[..k + 1] + a + r[k + 1..];
    forall i | 0 <= i < |t|
      ensures t[i].next == Succ(t, i) && t[i].prev == Pred(t, i)
    {
      if i <= k {
        assert t[i] == r[i];
      } else if i <= k + |a| {
        assert t[i] == a[i - k - 1];
      } else {
        assert t[i] == r[i - |a|];
      }
    }
  }

  /** The links that put `n` in the place of `r[k]` in the cycle `r`. */
  ghost predicate ReplacedLinks<T(0)>(r: seq<Node<T>>, k: nat, n: Node<T>)
    requires k < |r|
    reads r, n
  {
    var t := r[k := n];
    && n.next == Succ(t, k) && n.prev == Pred(t, k)
    && (forall i {:trigger r[i].next} :: 0 <= i < |r| && i != k ==> r[i].next == Succ(t, i))
    && (forall i {:trigger r[i].prev} :: 0 <= i < |r| && i != k ==> r[i].prev == Pred(t, i))
  }

  lemma CycleReplaced<T(0)>(r: seq<Node<T>>, k: nat, n: Node<T>)
    requires Distinct(r) && k < |r| && (n == r[k] || n !in r) && ReplacedLinks(r, k, n)
    ensures Cycle(r[k := n])
  {
    var t := r[k := n];
    forall i | 0 <= i < |t| ensures t[i].next == Succ(t, i) && t[i].prev == Pred(t, i) {
      assert t[i] == if i == k then n else r[i];
    }
  }

  // ---------------------------------------------------------------- insertion

  method InitListHead<T(0)>(list: Node<T>)
    modifies list`next, list`prev
    ensures Ring(list, [])
  {
    list.next := list;
    list.prev := list;
  }

  /** `__list_add`: the caller knows the two neighbours, at positions `k` and `k + 1` of the ring `r`. */
  method ListAddBetween<T(0)>(n: Node<T>, prev: Node<T>, next: Node<T>, ghost r: seq<Node<T>>, ghost k: nat)
    requires Cycle(r) && n !in r
    requires k < |r| && prev == r[k] && next == Succ(r, k)
    modifies n`next, n`prev, prev`next, next`prev
    ensures Cycle(r[..k + 1] + [n] + r[k + 1..])
  {
    next.prev := n;
    n.next := next;
    n.prev := prev;
    prev.next := n;
    CycleSpliced(r, k, [n]);
  }

  method ListAdd<T(0)>(n: Node<T>, head: Node<T>, ghost s: seq<Node<T>>)
    requires Ring(head, s) && n != head && n !in s
    modifies n`next, n`prev, Nodes([head] + s)`next, Nodes([head] + s)`prev
    ensures Ring(head, [n] + s)
  {
    hide Ring, Cycle;
    ghost var r := [head] + s;
    QueriesDecide(head, s, head);
    RingIsCycle(head, s);
    ListAddBetween(n, head, head.next, r, 0);
    assert r[..1] + [n] + r[1..] == [head] + ([n] + s);
    RingIsCycle(head, [n] + s);
  }

  method ListAddTail<T(0)>(n: Node<T>, head: Node<T>, ghost s: seq<Node<T>>)
    requires Ring(head, s) && n != head && n !in s
    modifies n`next, n`prev, Nodes([head] + s)`next, Nodes([head] + s)`prev
    ensures Ring(head, s + [n])
  {
    hide Ring, Cycle;
    ghost var r := [head] + s;
    QueriesDecide(head, s, head);
    RingIsCycle(head, s);
    ListAddBetween(n, head.prev, head, r, |s|);
    assert r[..|s| + 1] + [n] + r[|s| + 1..] == [head] + (s + [n]);
    RingIsCycle(head, s + [n]);
  }

  // ----------------------------------------------------------------- deletion

  /** `__list_del`: unlinks `r[k]` from the ring `r`, given its two neighbours; `r[k]` itself keeps its links. */
  method ListDelBetween<T(0)>(prev: Node<T>, next: Node<T>, ghost r: seq<Node<T>>, ghost k: nat)
    requires Cycle(r) && k < |r| && prev == Pred(r, k) && next == Succ(r, k)
    modifies prev`next, next`prev
    ensures if |r| == 1 then Cycle(r) else Cycle(Without(r, k))
    ensures |r| > 1 ==> r[k].next == Succ(r, k) && r[k].prev == Pred(r, k)
  {
    next.prev := prev;
    prev.next := next;
  }

  method ListDelEntry<T(0)>(entry: Node<T>, ghost r: seq<Node<T>>, ghost k: nat)
    requires Cycle(r) && k < |r| && entry == r[k]
    modifies Nodes(r)`next, Nodes(r)`prev
    ensures if |r| == 1 then Cycle(r) else Cycle(Without(r, k))
    ensures entry.next == old(entry.next) && entry.prev == old(entry.prev)
  {
    ListDelBetween(entry.prev, entry.next, r, k);
  }

  /** `list_del`: the rest of the ring closes up and the entry's links become NULL. */
  method ListDel<T(0)>(entry: Node<T>, ghost r: seq<Node<T>>, ghost k: nat)
    requires Cycle(r) && k < |r| && entry == r[k]
    modifies Nodes(r)`next, Nodes(r)`prev
    ensures |r| > 1 ==> Cycle(Without(r, k))
    ensures entry.next == null && entry.prev == null
  {
    ListDelBetween(entry.prev, entry.next, r, k);
    assert |r| > 1 ==> entry !in Without(r, k);
    entry.next := null;
    entry.prev := null;
  }

  /** `list_del_init`: the rest of the ring closes up and the entry becomes an empty list head. */
  method ListDelInit<T(0)>(entry: Node<T>, ghost r: seq<Node<T>>, ghost k: nat)
    requires Cycle(r) && k < |r| && entry == r[k]
    modifies Nodes(r)`next, Nodes(r)`prev
    ensures |r| > 1 ==> Cycle(Without(r, k))
    ensures Ring(entry, [])
  {
    ListDelEntry(entry, r, k);
    assert |r| > 1 ==> entry !in Without(r, k);
    InitListHead(entry);
  }

  // -------------------------------------------------------------- replacement

  /** `list_replace`: `n` takes the place of `r[k]`, also when `r[k]` is an empty self-loop. */
  method ListReplace<T(0)>(replaced: Node<T>, n: Node<T>, ghost r: seq<Node<T>>, ghost k: nat)
    requires Cycle(r) && k < |r| && replaced == r[k]
    requires n == replaced || n !in r
    modifies n`next, n`prev, Nodes(r)`next, Nodes(r)`prev
    ensures Cycle(r[k := n])
    ensures n != replaced ==>
              replaced.next == old(replaced.next) && replaced.prev == if |r| == 1 then n else old(replaced.prev)
  {
    n.next := replaced.next;
    n.next.prev := n;
    n.prev := replaced.prev;
    n.prev.next := n;
    CycleReplaced(r, k, n);
  }

  method ListReplaceInit<T(0)>(replaced: Node<T>, n: Node<T>, ghost r: seq<Node<T>>, ghost k: nat)
    requires Cycle(r) && k < |r| && replaced == r[k] && n !in r
    modifies n`next, n`prev, Nodes(r)`next, Nodes(r)`prev
    ensures Cycle(r[k := n]) && Ring(replaced, [])
  {
    ListReplace(replaced, n, r, k);
    assert replaced !in r[k := n];
    InitListHead(replaced);
  }

  // ------------------------------------------------------------------- moving

  /**
    `src[k]` may leave its ring `src` for the list `s` of `head`: either the two are the same
    ring (`same`), or they have no node in common.
   */
  ghost predicate Movable<T(0)>(list: Node<T>, src: seq<Node<T>>, k: nat, head: Node<T>, s: seq<Node<T>>, same: bool)
    reads src, head, s
  {
    && Cycle(src) && Ring(head, s)
    && k < |src| && list == src[k] && list != head
    && (if same then src == [head] + s else head !in src && Apart(src, s))
  }

  /** The target list once `src[k]` has been unlinked from its ring. */
  ghost function Kept<X>(s: seq<X>, k: nat, same: bool): seq<X>
    requires same ==> 0 < k <= |s|
  {
    if same then Without(s, k - 1) else s
  }

  /** A ring that an entry is moved out of has no node of the target, nor, afterwards, the entry. */
  lemma MovedIsApart<T(0)>(list: Node<T>, head: Node<T>, s: seq<Node<T>>, src: seq<Node<T>>, k: nat, same: bool)
    requires Movable(list, src, k, head, s, same)
    ensures same ==> k > 0 && Nodes(Kept(s, k, same)) <= Nodes(s) && list in s
    ensures list !in Without(src, k) && list !in Kept(s, k, same)
    ensures !same ==> Apart(Without(src, k), [head] + s)
  {
    WithoutForgets(src, k);
    if same {
      assert src[0] == head && list == s[k - 1];
      WithoutForgets(s, k - 1);
    }
  }

  method Unlink<T(0)>(list: Node<T>, head: Node<T>,
                      ghost s: seq<Node<T>>, ghost src: seq<Node<T>>, ghost k: nat, ghost same: bool)
    requires Movable(list, src, k, head, s, same)
    modifies Nodes(src)`next, Nodes(src)`prev
    ensures same ==> k > 0
    ensures Ring(head, Kept(s, k, same)) && list !in Kept(s, k, same)
    ensures !same && |src| > 1 ==> Cycle(Without(src, k))
    ensures list !in Without(src, k)
  {
    hide Ring, Cycle;
    MovedIsApart(list, head, s, src, k, same);
    ListDelEntry(list, src, k);
    if same {
      RingWithout(head, s, k - 1);
    }
  }

  method ListMove<T(0)>(list: Node<T>, head: Node<T>,
                        ghost s: seq<Node<T>>, ghost src: seq<Node<T>>, ghost k: nat, ghost same: bool)
    requires Movable(list, src, k, head, s, same)
    modifies Nodes(src)`next, Nodes(src)`prev, Nodes([head] + s)`next, Nodes([head] + s)`prev
    ensures same ==> k > 0
    ensures Ring(head, [list] + Kept(s, k, same))
    ensures !same && |src| > 1 ==> Cycle(Without(src, k))
  {
    hide Ring, Cycle;
    MovedIsApart(list, head, s, src, k, same);
    Unlink(list, head, s, src, k, same);
    ListAdd(list, head, Kept(s, k, same));
  }

  method ListMoveTail<T(0)>(list: Node<T>, head: Node<T>,
                            ghost s: seq<Node<T>>, ghost src: seq<Node<T>>, ghost k: nat, ghost same: bool)
    requires Movable(list, src, k, head, s, same)
    modifies Nodes(src)`next, Nodes(src)`prev, Nodes([head] + s)`next, Nodes([head] + s)`prev
    ensures same ==> k > 0
    ensures Ring(head, Kept(s, k, same) + [list])
    ensures !same && |src| > 1 ==> Cycle(Without(src, k))
  {
    hide Ring, Cycle;
    MovedIsApart(list, head, s, src, k, same);
    Unlink(list, head, s, src, k, same);
    ListAddTail(list, head, Kept(s, k, same));
  }

  // ----------------------------------------------------------------- rotation

  ghost function RotatedLeft<X>(s: seq<X>): (t: seq<X>)
  {
    if s == [] then [] else s[1..] + [s[0]]
  }

  method ListRotateLeft<T(0)>(head: Node<T>, ghost s: seq<Node<T>>)
    requires Ring(head, s)
    modifies Nodes([head] + s)`next, Nodes([head] + s)`prev
    ensures Ring(head, RotatedLeft(s))
  {
    ghost var r := [head] + s;
    RingIsCycle(head, s);
    if !ListEmpty(head) {
      var first := head.next;
      ListMoveTail(first, head, s, r, 1, true);
      assert Without(s, 0) == s[1..];
    }
  }

  // -------------------------------------------------------- cutting, splicing

  /** `__list_cut_position`: `entry` is `s[k]`; `list` takes the prefix that ends with it. */
  method ListCutAt<T(0)>(list: Node<T>, head: Node<T>, entry: Node<T>, ghost s: seq<Node<T>>, ghost k: nat)
    requires Ring(head, s) && k < |s| && entry == s[k]
    requires list != head && list !in s
    modifies list`next, list`prev, Nodes([head] + s)`next, Nodes([head] + s)`prev
    ensures Ring(list, s[..k + 1]) && Ring(head, s[k + 1..])
  {
    var newFirst := entry.next;
    assert newFirst == if k + 1 < |s| then s[k + 1] else head;
    list.next := head.next;
    list.next.prev := list;
    list.prev := entry;
    entry.next := list;
    head.next := newFirst;
    newFirst.prev := head;
  }

  method ListCutPosition<T(0)>(list: Node<T>, head: Node<T>, entry: Node<T>, ghost s: seq<Node<T>>)
    requires Ring(head, s) && list != head && list !in s
    requires entry == head || entry in s || |s| <= 1
    modifies list`next, list`prev, Nodes([head] + s)`next, Nodes([head] + s)`prev
    ensures s == [] || (entry != head && entry !in s) ==>
              Ring(head, s) && list.next == old(list.next) && list.prev == old(list.prev)
    ensures s != [] && entry == head ==> Ring(list, []) && Ring(head, s)
    ensures forall k :: 0 <= k < |s| && entry == s[k] ==> Ring(list, s[..k + 1]) && Ring(head, s[k + 1..])
  {
    if ListEmpty(head) {
      return;
    }
    if ListIsSingular(head) && (head.next != entry && head != entry) {
      return;
    }
    if entry == head {
      InitListHead(list);
    } else {
      ghost var k :| 0 <= k < |s| && entry == s[k];
      ListCutAt(list, head, entry, s, k);
    }
  }

  /** `__list_splice` after position `k` of the ring `r`; `list` keeps its stale links. */
  method ListSpliceBetween<T(0)>(list: Node<T>, prev: Node<T>, next: Node<T>,
                                 ghost a: seq<Node<T>>, ghost r: seq<Node<T>>, ghost k: nat)
    requires Ring(list, a) && a != [] && Cycle(r) && Apart(a, r)
    requires k < |r| && prev == r[k] && next == Succ(r, k)
    modifies Nodes(a)`next, Nodes(a)`prev, Nodes(r)`next, Nodes(r)`prev
    ensures Cycle(r[..k + 1] + a + r[k + 1..])
  {
    var first := list.next;
    var last := list.prev;
    first.prev := prev;
    prev.next := first;
    last.next := next;
    next.prev := last;
    CycleSpliced(r, k, a);
  }

  method ListSplice<T(0)>(list: Node<T>, head: Node<T>, ghost a: seq<Node<T>>, ghost s: seq<Node<T>>)
    requires Ring(list, a) && Ring(head, s) && ApartRings(list, a, head, s)
    modifies Nodes(a)`next, Nodes(a)`prev, Nodes([head] + s)`next, Nodes([head] + s)`prev
    ensures Ring(head, a + s)
  {
    hide Ring, Cycle;
    ghost var r := [head] + s;
    QueriesDecide(list, a, list);
    QueriesDecide(head, s, head);
    RingIsCycle(head, s);
    if !ListEmpty(list) {
      ListSpliceBetween(list, head, head.next, a, r, 0);
      assert r[..1] + a + r[1..] == [head] + (a + s);
      RingIsCycle(head, a + s);
    } else {
      assert a + s == s;
    }
  }

  method ListSpliceTail<T(0)>(list: Node<T>, head: Node<T>, ghost a: seq<Node<T>>, ghost s: seq<Node<T>>)
    requires Ring(list, a) && Ring(head, s) && ApartRings(list, a, head, s)
    modifies Nodes(a)`next, Nodes(a)`prev, Nodes([head] + s)`next, Nodes([head] + s)`prev
    ensures Ring(head, s + a)
  {
    hide Ring, Cycle;
    ghost var r := [head] + s;
    QueriesDecide(list, a, list);
    QueriesDecide(head, s, head);
    RingIsCycle(head, s);
    if !ListEmpty(list) {
      ListSpliceBetween(list, head.prev, head, a, r, |s|);
      assert r[..|s| + 1] + a + r[|s| + 1..] == [head] + (s + a);
      RingIsCycle(head, s + a);
    } else {
      assert s + a == s;
    }
  }

  method ListSpliceInit<T(0)>(list: Node<T>, head: Node<T>, ghost a: seq<Node<T>>, ghost s: seq<Node<T>>)
    requires Ring(list, a) && Ring(head, s) && ApartRings(list, a, head, s)
    modifies Nodes([list] + a)`next, Nodes([list] + a)`prev, Nodes([head] + s)`next, Nodes([head] + s)`prev
    ensures Ring(head, a + s) && Ring(list, [])
  {
    hide Ring, Cycle;
    ghost var r := [head] + s;
    QueriesDecide(list, a, list);
    QueriesDecide(head, s, head);
    RingIsCycle(head, s);
    if !ListEmpty(list) {
      ListSpliceBetween(list, head, head.next, a, r, 0);
      assert r[..1] + a + r[1..] == [head] + (a + s);
      RingIsCycle(head, a + s);
      assert list !in a + s;
      InitListHead(list);
    } else {
      assert a == [] && a + s == s;
    }
  }

  method ListSpliceTailInit<T(0)>(list: Node<T>, head: Node<T>, ghost a: seq<Node<T>>, ghost s: seq<Node<T>>)
    requires Ring(list, a) && Ring(head, s) && ApartRings(list, a, head, s)
    modifies Nodes([list] + a)`next, Nodes([list] + a)`prev, Nodes([head] + s)`next, Nodes([head] + s)`prev
    ensures Ring(head, s + a) && Ring(list, [])
  {
    hide Ring, Cycle;
    ghost var r := [head] + s;
    QueriesDecide(list, a, list);
    QueriesDecide(head, s, head);
    RingIsCycle(head, s);
    if !ListEmpty(list) {
      ListSpliceBetween(list, head.prev, head, a, r, |s|);
      assert r[..|s| + 1] + a + r[|s| + 1..] == [head] + (s + a);
      RingIsCycle(head, s + a);
      assert list !in s + a;
      InitListHead(list);
    } else {
      assert a == [] && s + a == s;
    }
  }
}
