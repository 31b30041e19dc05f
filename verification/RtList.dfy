/** The intrusive doubly linked lists of rt-thread/include/rtservice.h, node by node. Every
    wait list, ready queue and timer row of the kernel is one of these rings; the other
    modules use the sequence of its members. */
module RtList {
  import opened Ring

  class Node {
    var next: Node
    var prev: Node

    /** rt_list_init. */
    constructor ()
      ensures Circle([this])
    {
      next, prev := this, this;
    }
  }

  ghost predicate Link(a: Node, b: Node)
    reads a, b
  {
    a.next == b && b.prev == a
  }

  /** The nodes of `ring`, each linked to the one after it and the last to the first. */
  ghost predicate Circle(ring: seq<Node>)
    reads ring
  {
    && ring != [] && Distinct(ring)
    && (forall i, j :: 0 <= i && j == i + 1 < |ring| ==> Link(ring[i], ring[j]))
    && Link(ring[|ring| - 1], ring[0])
  }

  /** From each node the next one is one step away, and the way back leads to it again. */
  lemma BothWays(ring: seq<Node>, i: nat)
    requires Circle(ring) && i < |ring|
    ensures var after := if i + 1 == |ring| then ring[0] else ring[i + 1]; ring[i].next == after && after.prev == ring[i]
  {
    if i + 1 < |ring| {
      assert Link(ring[i], ring[i + 1]);
    }
  }

  /** A ring may be read from any of its nodes. */
  lemma Turned(ring: seq<Node>, k: nat)
    requires Circle(ring) && k < |ring|
    ensures Circle(ring[k..] + ring[..k])
  {
    var r, n := ring[k..] + ring[..k], |ring|;
    assert forall i :: 0 <= i < n ==> r[i] == ring[if i < n - k then i + k else i + k - n];
  }

  /** rt_list_insert_after: `n` comes right behind `l`. */
  method InsertAfter(l: Node, n: Node, ghost ring: seq<Node>)
    requires Circle(ring) && ring[0] == l && n !in ring
    modifies l, l.next, n
    ensures Circle([l, n] + ring[1..])
  {
    ghost var r := [l, n] + ring[1..];
    assert |ring| > 1 ==> Link(ring[0], ring[1]);
    l.next.prev := n;
    n.next := l.next;
    l.next := n;
    n.prev := l;
    assert forall i :: 2 <= i < |r| ==> r[i] == ring[i - 1];
  }

  /** rt_list_insert_before: `n` becomes the last node, seen from `l`. */
  method InsertBefore(l: Node, n: Node, ghost ring: seq<Node>)
    requires Circle(ring) && ring[0] == l && n !in ring
    modifies l, l.prev, n
    ensures Circle(ring + [n])
  {
    l.prev.next := n;
    n.prev := l.prev;
    l.prev := n;
    n.next := l;
  }

  /** Linking `n` in before the `k`-th node of a list, as the wait lists do: the list read from
      its head has `n` in place `k`. */
  method InsertInside(l: Node, n: Node, ghost ring: seq<Node>, ghost k: nat)
    requires Circle(ring) && k < |ring| && ring[k] == l && n !in ring
    modifies l, l.prev, n
    ensures k == 0 ==> Circle(ring + [n])
    ensures 0 < k ==> Circle(InsertAt(ring, k, n))
  {
    Turned(ring, k);
    ghost var turned := ring[k..] + ring[..k];
    assert forall x :: x in turned <==> x in ring;
    InsertBefore(l, n, turned);
    Turned(turned + [n], |ring| - k);
    assert (turned + [n])[|ring| - k..] + (turned + [n])[..|ring| - k] == ring[..k] + [n] + ring[k..];
    if k == 0 {
      assert turned == ring;
    }
  }

  /** rt_list_remove: `n` leaves its ring and is a ring of its own; a node that was alone
      stays as it is. */
  method Remove(n: Node, ghost ring: seq<Node>)
    requires Circle(ring) && ring[0] == n
    modifies n, n.next, n.prev
    ensures Circle([n]) && (|ring| == 1 || Circle(ring[1..]))
  {
    assert |ring| > 1 ==> Link(ring[0], ring[1]);
    ghost var r := ring[1..];
    assert forall i :: 0 <= i < |r| ==> r[i] == ring[i + 1];
    n.next.prev := n.prev;
    n.prev.next := n.next;
    n.next := n;
    n.prev := n;
  }

  /** rt_list_isempty: the head is alone. */
  method IsEmpty(l: Node, ghost ring: seq<Node>) returns (empty: bool)
    requires Circle(ring) && ring[0] == l
    ensures empty <==> ring == [l]
  {
    assert |ring| > 1 ==> Link(ring[0], ring[1]);
    empty := l.next == l;
  }

  /** rt_list_len: the nodes other than the head. */
  method Len(l: Node, ghost ring: seq<Node>) returns (len: nat)
    requires Circle(ring) && ring[0] == l
    ensures len == |ring| - 1
  {
    len := 0;
    var p := l;
    assert |ring| > 1 ==> Link(ring[0], ring[1]);
    while p.next != l
      invariant len < |ring| && p == ring[len]
      decreases |ring| - len
    {
      ghost var m := len + 1;
      assert m < |ring| ==> Link(ring[len], ring[m]);
      p := p.next;
      len := len + 1;
    }

    ghost var m := len + 1;
    assert m < |ring| ==> Link(ring[len], ring[m]);
  }
}
