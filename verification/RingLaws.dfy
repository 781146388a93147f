/**
  What the list operations of include/zsr/list.h mean together: the sequence of a ring is
  determined by its links, rings do not overlap, moves conserve nodes, rotations compose to
  the identity, and a splice undoes a cut.
 */
module RingLaws {
  import opened Rings

  /** The links alone fix the list: a head carries one sequence only. */
  lemma {:induction false} RingUnique<T(0)>(head: Node<T>, s: seq<Node<T>>, t: seq<Node<T>>)
    requires Ring(head, s) && Ring(head, t)
    ensures s == t
  {
    SamePrefix(head, s, t, if |s| < |t| then |s| else |t|);
  }

  lemma {:induction false} SamePrefix<T(0)>(head: Node<T>, s: seq<Node<T>>, t: seq<Node<T>>, n: nat)
    requires Ring(head, s) && Ring(head, t) && n <= |s| && n <= |t|
    ensures s[..n] == t[..n]
    ensures n == |s| <==> n == |t|
  {
    if n > 0 {
      SamePrefix(head, s, t, n - 1);
      if n > 1 {
        assert s[n - 2] == s[..n - 1][n - 2] == t[n - 2];
        assert s[n - 2].next == s[n - 1] && t[n - 2].next == t[n - 1];
      }
      assert s[n - 1] == t[n - 1];
      assert s[n - 1].next == t[n - 1].next;
    }
  }

  /** Two lists with different heads, neither of them an entry of the other, share no entry. */
  lemma {:induction false} RingsApart<T(0)>(g: Node<T>, s: seq<Node<T>>, h: Node<T>, t: seq<Node<T>>)
    requires Ring(g, s) && Ring(h, t) && g != h && g !in t && h !in s
    ensures Apart(s, t)
  {
    forall i, j | 0 <= i < |s| && 0 <= j < |t| ensures s[i] != t[j] {
      NeverMeet(g, s, i, h, t, j);
    }
  }

  lemma {:induction false} NeverMeet<T(0)>(g: Node<T>, s: seq<Node<T>>, i: nat, h: Node<T>, t: seq<Node<T>>, j: nat)
    requires Ring(g, s) && Ring(h, t) && g != h && g !in t && h !in s
    requires i < |s| && j < |t|
    ensures s[i] != t[j]
    decreases |s| - i
  {
    if s[i] == t[j] {
      assert s[i].next == t[j].next;
      if i + 1 < |s| && j + 1 < |t| {
        NeverMeet(g, s, i + 1, h, t, j + 1);
      }
    }
  }

  // ------------------------------------------------------------- conservation

  /** A move within one list, to the front or to the back, keeps every node exactly once. */
  lemma MoveWithinConserves<X>(s: seq<X>, k: nat)
    requires k < |s|
    ensures multiset([s[k]] + Kept(s, k + 1, true)) == multiset(s)
    ensures multiset(Kept(s, k + 1, true) + [s[k]]) == multiset(s)
  {
    RemoveOne(s, k);
  }

  /** So does a move from another ring, counted over both rings. */
  lemma MoveAcrossConserves<X>(s: seq<X>, src: seq<X>, k: nat)
    requires k < |src|
    ensures multiset([src[k]] + Kept(s, k, false)) + multiset(Without(src, k)) == multiset(s) + multiset(src)
    ensures multiset(Kept(s, k, false) + [src[k]]) + multiset(Without(src, k)) == multiset(s) + multiset(src)
  {
    RemoveOne(src, k);
  }

  lemma RemoveOne<X>(s: seq<X>, k: nat)
    requires k < |s|
    ensures multiset(s) == multiset(Without(s, k)) + multiset{s[k]}
  {
    assert s == s[..k] + [s[k]] + s[k + 1..];
  }

  // ----------------------------------------------------------------- rotation

  /** `n` left rotations, one after the other. */
  ghost function Rotated<X>(s: seq<X>, n: nat): seq<X>
  {
    if n == 0 then s else RotatedLeft(Rotated(s, n - 1))
  }

  lemma {:induction false} RotatedIsCyclicShift<X>(s: seq<X>, n: nat)
    requires n <= |s|
    ensures Rotated(s, n) == s[n..] + s[..n]
  {
    if n > 0 {
      RotatedIsCyclicShift(s, n - 1);
      var t := s[n - 1..] + s[..n - 1];
      assert t[1..] + [t[0]] == s[n..] + s[..n];
    }
  }

  /** As many rotations as there are entries give the list back. */
  lemma FullTurn<X>(s: seq<X>)
    ensures Rotated(s, |s|) == s
  {
    RotatedIsCyclicShift(s, |s|);
  }

  method RotateTimes<T(0)>(head: Node<T>, n: nat, ghost s: seq<Node<T>>)
    requires Ring(head, s)
    modifies Nodes([head] + s)`next, Nodes([head] + s)`prev
    ensures Ring(head, Rotated(s, n))
    ensures n == |s| ==> Ring(head, s)
  {
    for i := 0 to n
      invariant Ring(head, Rotated(s, i)) && Nodes([head] + Rotated(s, i)) == Nodes([head] + s)
    {
      RotationKeepsNodes(Rotated(s, i), head);
      ListRotateLeft(head, Rotated(s, i));
    }
    FullTurn(s);
  }

  lemma RotationKeepsNodes<X>(s: seq<X>, head: X)
    ensures Nodes([head] + RotatedLeft(s)) == Nodes([head] + s)
  {
    if s != [] {
      assert [head] + s == [head] + [s[0]] + s[1..];
      forall x | x in [head] + s ensures x in [head] + RotatedLeft(s) {
        assert x == head || x == s[0] || x in s[1..];
      }
    }
  }

  // --------------------------------------------------------- cut, then splice

  /**
    Cutting a list at any of its entries, or at its head, and splicing the cut part back at the
    front restores it. Only an empty list needs `list` to be initialised beforehand: with
    nothing to cut, list_cut_position returns without touching `list`.
   */
  method CutThenSplice<T(0)>(list: Node<T>, head: Node<T>, entry: Node<T>, ghost s: seq<Node<T>>)
    requires Ring(head, s) && list != head && list !in s
    requires entry == head || entry in s
    requires s == [] ==> Ring(list, [])
    modifies list`next, list`prev, Nodes([head] + s)`next, Nodes([head] + s)`prev
    ensures Ring(head, s)
  {
    ghost var k := if entry == head then 0 else IndexOf(s, entry) + 1;
    CutParts(list, head, s, k);
    ListCutPosition(list, head, entry, s);
    ListSplice(list, head, s[..k], s[k..]);
  }

  lemma CutParts<X>(list: X, head: X, s: seq<X>, k: nat)
    requires Distinct(s) && list != head && list !in s && head !in s && k <= |s|
    ensures ApartRings(list, s[..k], head, s[k..]) && s[..k] + s[k..] == s
    ensures k == 0 ==> s[..k] == [] && s[k..] == s
    ensures Nodes(s[..k]) <= Nodes([head] + s) && Nodes([head] + s[k..]) <= Nodes([head] + s)
  {
    assert s[..k] + s[k..] == s;
  }

  ghost function IndexOf<X>(s: seq<X>, x: X): (k: nat)
    requires x in s
    ensures k < |s| && s[k] == x
  {
    var k :| 0 <= k < |s| && s[k] == x;
    k
  }
}
