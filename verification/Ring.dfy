/** Circular doubly linked lists threaded through an address space.

    A list is described by two maps, the `next` link and the `prev` link of every
    address that stores a node, and by the sequence of its nodes, which starts
    anywhere on the circle. */
module Ring {

  ghost predicate Distinct<T>(s: seq<T>) {
    forall i, j :: 0 <= i < j < |s| ==> s[i] != s[j]
  }

  /** The index that follows `i` on a circle of `n` nodes. */
  function After(i: nat, n: nat): (j: nat)
    requires i < n
    ensures j < n
  {
    if i + 1 == n then 0 else i + 1
  }

  /** The index that precedes `i` on a circle of `n` nodes. */
  function Before(i: nat, n: nat): (j: nat)
    requires i < n
    ensures j < n
  {
    if i == 0 then n - 1 else i - 1
  }

  function InsertAt<T>(s: seq<T>, k: nat, x: T): (r: seq<T>)
    requires k <= |s|
    ensures |r| == |s| + 1
  {
    s[..k] + [x] + s[k..]
  }

  function RemoveAt<T>(s: seq<T>, k: nat): (r: seq<T>)
    requires k < |s|
    ensures |r| == |s| - 1
  {
    s[..k] + s[k + 1..]
  }

  ghost function IndexOf<T>(s: seq<T>, x: T): (i: nat)
    requires x in s
    ensures i < |s| && s[i] == x
  {
    var i: nat :| i < |s| && s[i] == x;
    i
  }

  lemma InsertAtMembers<T>(s: seq<T>, k: nat, x: T)
    requires k <= |s|
    ensures forall y :: y in InsertAt(s, k, x) <==> y == x || y in s
  {
    assert s == s[..k] + s[k..];
  }

  lemma InsertAtIndex<T>(s: seq<T>, k: nat, x: T)
    requires k <= |s|
    ensures InsertAt(s, k, x)[k] == x
    ensures 0 < k ==> InsertAt(s, k, x)[k - 1] == s[k - 1]
    ensures k < |s| ==> InsertAt(s, k, x)[k + 1] == s[k]
  {
  }

  lemma RemoveAtIndex<T>(s: seq<T>, k: nat)
    requires k < |s|
    ensures 0 < k ==> RemoveAt(s, k)[k - 1] == s[k - 1]
    ensures k + 1 < |s| ==> RemoveAt(s, k)[k] == s[k + 1]
  {
  }

  lemma RemoveAtMembers<T>(s: seq<T>, k: nat)
    requires k < |s| && Distinct(s)
    ensures forall y :: y in RemoveAt(s, k) <==> y in s && y != s[k]
    ensures Distinct(RemoveAt(s, k))
  {
    assert s == s[..k] + [s[k]] + s[k + 1..];
  }

  /** Every node's link leads to the next node of the circle. */
  ghost predicate Forward(next: map<int, int>, s: seq<int>) {
    forall i {:trigger next[s[i]]} {:trigger s[i] in next} ::
      0 <= i < |s| ==> s[i] in next && next[s[i]] == s[After(i, |s|)]
  }

  ghost predicate Backward(prev: map<int, int>, s: seq<int>) {
    forall i {:trigger prev[s[i]]} {:trigger s[i] in prev} ::
      0 <= i < |s| ==> s[i] in prev && prev[s[i]] == s[Before(i, |s|)]
  }

  ghost predicate IsRing(next: map<int, int>, prev: map<int, int>, s: seq<int>) {
    0 < |s| && Distinct(s) && Forward(next, s) && Backward(prev, s)
  }

  /** The links lead round and back. */
  lemma Inverse(next: map<int, int>, prev: map<int, int>, s: seq<int>, i: nat)
    requires IsRing(next, prev, s) && i < |s|
    ensures var x, y := s[i], if i + 1 == |s| then s[0] else s[i + 1];
      x in next && next[x] == y && y in prev && prev[y] == x
  {
    hide Distinct;
    var j := After(i, |s|);
    assert Before(j, |s|) == i;
    assert s[i] in next && s[j] in prev;
  }

  /** A ring does not depend on links stored outside it. */
  lemma Framed(next: map<int, int>, prev: map<int, int>, s: seq<int>, next': map<int, int>, prev': map<int, int>)
    requires IsRing(next, prev, s)
    requires forall x :: x in s ==> x in next' && next'[x] == next[x]
    requires forall x :: x in s ==> x in prev' && prev'[x] == prev[x]
    ensures IsRing(next', prev', s)
  {
    forall i | 0 <= i < |s|
      ensures s[i] in next' && next'[s[i]] == s[After(i, |s|)]
      ensures s[i] in prev' && prev'[s[i]] == s[Before(i, |s|)]
    {
      var x := s[i];
      assert x in s && x in next' && x in prev';
      assert next[s[i]] == s[After(i, |s|)] && prev[s[i]] == s[Before(i, |s|)];
    }
  }

  lemma InsertedForward(next: map<int, int>, s: seq<int>, k: nat, x: int)
    requires Forward(next, s) && Distinct(s) && k < |s| && x !in s
    ensures Forward(next[x := next[s[k]]][s[k] := x], InsertAt(s, k + 1, x))
  {
    var r := InsertAt(s, k + 1, x);
    var next' := next[x := next[s[k]]][s[k] := x];
    forall i | 0 <= i < |r|
      ensures r[i] in next' && next'[r[i]] == r[After(i, |r|)]
    {
      if i != k + 1 {
        var j := if i <= k then i else i - 1;
        assert r[i] == s[j] && s[j] in next;
      } else {
        assert r[i] == x && s[k] in next;
      }
    }
  }

  lemma InsertedBackward(prev: map<int, int>, s: seq<int>, k: nat, x: int)
    requires Backward(prev, s) && Distinct(s) && k < |s| && x !in s
    ensures Backward(prev[x := s[k]][s[After(k, |s|)] := x], InsertAt(s, k + 1, x))
  {
    var r := InsertAt(s, k + 1, x);
    var prev' := prev[x := s[k]][s[After(k, |s|)] := x];
    forall i | 0 <= i < |r|
      ensures r[i] in prev' && prev'[r[i]] == r[Before(i, |r|)]
    {
      if i != k + 1 {
        var j := if i <= k then i else i - 1;
        assert r[i] == s[j] && s[j] in prev;
      }
    }
  }

  /** Linking `x` in behind the k-th node. */
  lemma Inserted(next: map<int, int>, prev: map<int, int>, s: seq<int>, k: nat, x: int)
    requires IsRing(next, prev, s) && k < |s| && x !in s
    ensures s[k] in next
    ensures IsRing(next[x := next[s[k]]][s[k] := x], prev[x := s[k]][next[s[k]] := x], InsertAt(s, k + 1, x))
  {
    InsertedForward(next, s, k, x);
    InsertedBackward(prev, s, k, x);
  }

  lemma RemovedForward(next: map<int, int>, s: seq<int>, k: nat)
    requires Forward(next, s) && Distinct(s) && k < |s| && 1 < |s|
    ensures Forward(next[s[Before(k, |s|)] := next[s[k]]], RemoveAt(s, k))
  {
    var r := RemoveAt(s, k);
    var next' := next[s[Before(k, |s|)] := next[s[k]]];
    forall i | 0 <= i < |r|
      ensures r[i] in next' && next'[r[i]] == r[After(i, |r|)]
    {
      var j := if i < k then i else i + 1;
      assert r[i] == s[j] && s[j] in next && s[k] in next;
    }
  }

  lemma RemovedBackward(prev: map<int, int>, s: seq<int>, k: nat)
    requires Backward(prev, s) && Distinct(s) && k < |s| && 1 < |s|
    ensures Backward(prev[s[After(k, |s|)] := prev[s[k]]], RemoveAt(s, k))
  {
    var r := RemoveAt(s, k);
    var prev' := prev[s[After(k, |s|)] := prev[s[k]]];
    forall i | 0 <= i < |r|
      ensures r[i] in prev' && prev'[r[i]] == r[Before(i, |r|)]
    {
      var j := if i < k then i else i + 1;
      assert r[i] == s[j] && s[j] in prev && s[k] in prev;
    }
  }

  /** Linking the k-th node out. */
  lemma Removed(next: map<int, int>, prev: map<int, int>, s: seq<int>, k: nat)
    requires IsRing(next, prev, s) && k < |s| && 1 < |s|
    ensures s[k] in next && s[k] in prev
    ensures IsRing(next[prev[s[k]] := next[s[k]]], prev[next[s[k]] := prev[s[k]]], RemoveAt(s, k))
  {
    RemovedForward(next, s, k);
    RemovedBackward(prev, s, k);
  }

  /** rt_list_remove, seen from the list: `t` is gone, and nothing else if it was not there. */
  function Without<T(==)>(s: seq<T>, t: T): (r: seq<T>)
    ensures s == [] ==> r == []
  {
    if s == [] then []
    else if s[0] == t then Without(s[1..], t)
    else [s[0]] + Without(s[1..], t)
  }

  lemma {:induction false} WithoutMember<T>(s: seq<T>, t: T, x: T)
    ensures x in Without(s, t) <==> x in s && x != t
  {
    if s != [] {
      WithoutMember(s[1..], t, x);
      assert s == [s[0]] + s[1..];
    }
  }

  lemma WithoutMembers<T>(s: seq<T>, t: T)
    ensures forall x :: x in Without(s, t) <==> x in s && x != t
  {
    forall x
      ensures x in Without(s, t) <==> x in s && x != t
    {
      WithoutMember(s, t, x);
    }
  }

  lemma {:induction false} WithoutAbsent<T>(s: seq<T>, t: T)
    requires t !in s
    ensures Without(s, t) == s
  {
    if s != [] {
      assert s == [s[0]] + s[1..];
      WithoutAbsent(s[1..], t);
    }
  }

  /** Removal keeps a list distinct and leaves the others in their order. */
  lemma {:induction false} WithoutIndex<T>(s: seq<T>, t: T, a: T, b: T)
    requires Distinct(s) && a in s && b in s && a != t && b != t && IndexOf(s, a) < IndexOf(s, b)
    ensures a in Without(s, t) && b in Without(s, t) && IndexOf(Without(s, t), a) < IndexOf(Without(s, t), b)
  {
    WithoutMember(s, t, a);
    WithoutMember(s, t, b);
    WithoutDistinct(s, t);
    var w := Without(s, t);
    if s[0] == t {
      var r := s[1..];
      assert r[IndexOf(s, a) - 1] == a && r[IndexOf(s, b) - 1] == b;
      WithoutIndex(r, t, a, b);
    } else if s[0] == a {
      assert w[0] == a;
    } else {
      var r := s[1..];
      assert s[0] != b;
      assert r[IndexOf(s, a) - 1] == a && r[IndexOf(s, b) - 1] == b;
      WithoutIndex(r, t, a, b);
      var v := Without(r, t);
      assert w[IndexOf(v, a) + 1] == a && w[IndexOf(v, b) + 1] == b;
    }
  }

  lemma {:induction false} WithoutDistinct<T>(s: seq<T>, t: T)
    requires Distinct(s)
    ensures Distinct(Without(s, t))
  {
    if s != [] {
      var r := s[1..];
      assert forall i :: 0 <= i < |r| ==> r[i] == s[i + 1];
      WithoutDistinct(r, t);
      WithoutMember(r, t, s[0]);
    }
  }
}
