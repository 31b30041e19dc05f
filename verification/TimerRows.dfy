/** Ordered timer lists and their thinned-out upper rows, as sequences.

    `d` gives each timer its unbounded deadline and `h` its height, the number of rows,
    counted from the bottom, that hold it. */
module TimerRows {
  import opened Ring

  function At<T>(m: map<T, int>, t: T): int {
    if t in m then m[t] else 0
  }

  ghost predicate Ordered<T>(s: seq<T>, d: map<T, int>) {
    forall i, j :: 0 <= i < j < |s| ==> At(d, s[i]) <= At(d, s[j])
  }

  /** Stable insertion: behind every timer that is due no later. */
  function Insert<T>(s: seq<T>, d: map<T, int>, t: T): (r: seq<T>)
    ensures |r| == |s| + 1
  {
    if s == [] || At(d, t) < At(d, s[0]) then [t] + s else [s[0]] + Insert(s[1..], d, t)
  }

  /** A row keeps the timers of at least height `n`, in order. */
  ghost function Filter<T>(s: seq<T>, h: map<T, int>, n: int): (r: seq<T>) {
    if s == [] then []
    else if n <= At(h, s[0]) then [s[0]] + Filter(s[1..], h, n)
    else Filter(s[1..], h, n)
  }

  /** Everything before `k` is due no later than `x`, everything from `k` on later. */
  ghost predicate SplitAt<T>(s: seq<T>, d: map<T, int>, x: int, k: nat) {
    && k <= |s|
    && (forall i :: 0 <= i < k ==> At(d, s[i]) <= x)
    && (forall i :: k <= i < |s| ==> x < At(d, s[i]))
  }

  /** Insert splices the timer in where the list splits. */
  lemma {:induction false} InsertSplices<T>(s: seq<T>, d: map<T, int>, t: T, k: nat)
    requires SplitAt(s, d, At(d, t), k)
    ensures Insert(s, d, t) == InsertAt(s, k, t)
  {
    if 0 < k {
      InsertSplices(s[1..], d, t, k - 1);
      assert InsertAt(s, k, t) == [s[0]] + InsertAt(s[1..], k - 1, t);
    } else {
      assert InsertAt(s, 0, t) == [t] + s;
    }
  }

  /** An ordered list splits at every deadline. */
  lemma {:induction false} Splits<T>(s: seq<T>, d: map<T, int>, x: int) returns (k: nat)
    requires Ordered(s, d)
    ensures SplitAt(s, d, x, k)
  {
    if s == [] || x < At(d, s[0]) {
      k := 0;
    } else {
      var m := Splits(s[1..], d, x);
      k := m + 1;
      assert forall i :: 0 < i < |s| ==> s[i] == s[1..][i - 1];
    }
  }

  /** Stable insertion keeps a list ordered and distinct. */
  lemma InsertOrdered<T>(s: seq<T>, d: map<T, int>, t: T)
    requires Ordered(s, d)
    ensures Ordered(Insert(s, d, t), d)
    ensures forall x :: x in Insert(s, d, t) <==> x == t || x in s
    ensures Distinct(s) && t !in s ==> Distinct(Insert(s, d, t))
  {
    hide Insert, InsertAt, Ordered, Distinct;
    var k := Splits(s, d, At(d, t));
    InsertSplices(s, d, t, k);
    InsertAtMembers(s, k, t);
    InsertAtOrdered(s, d, t, k);
    InsertAtDistinct(s, k, t);
  }

  lemma InsertAtOrdered<T>(s: seq<T>, d: map<T, int>, t: T, k: nat)
    requires Ordered(s, d) && SplitAt(s, d, At(d, t), k)
    ensures Ordered(InsertAt(s, k, t), d)
  {
    var r := InsertAt(s, k, t);
    assert forall i :: 0 <= i < |r| ==> r[i] == if i < k then s[i] else if i == k then t else s[i - 1];
  }

  lemma InsertAtDistinct<T>(s: seq<T>, k: nat, t: T)
    requires k <= |s|
    ensures Distinct(s) && t !in s ==> Distinct(InsertAt(s, k, t))
  {
    var r := InsertAt(s, k, t);
    assert forall i :: 0 <= i < |r| ==> r[i] == if i < k then s[i] else if i == k then t else s[i - 1];
  }

  lemma {:induction false} FilterConcat<T>(a: seq<T>, b: seq<T>, h: map<T, int>, n: int)
    ensures Filter(a + b, h, n) == Filter(a, h, n) + Filter(b, h, n)
  {
    if a == [] {
      assert a + b == b;
    } else {
      assert (a + b)[1..] == a[1..] + b;
      FilterConcat(a[1..], b, h, n);
    }
  }

  lemma {:induction false} FilterMember<T>(s: seq<T>, h: map<T, int>, n: int, x: T)
    ensures x in Filter(s, h, n) <==> x in s && n <= At(h, x)
  {
    if s != [] {
      FilterMember(s[1..], h, n, x);
      assert s == [s[0]] + s[1..];
    }
  }

  lemma {:induction false} FilterFramed<T>(s: seq<T>, h: map<T, int>, h': map<T, int>, n: int)
    requires forall x :: x in s ==> At(h, x) == At(h', x)
    ensures Filter(s, h, n) == Filter(s, h', n)
  {
    if s != [] {
      FilterFramed(s[1..], h, h', n);
    }
  }

  lemma {:induction false} OrderedFramed<T>(s: seq<T>, d: map<T, int>, d': map<T, int>)
    requires Ordered(s, d) && forall x :: x in s ==> At(d, x) == At(d', x)
    ensures Ordered(s, d')
  {
    assert forall i :: 0 <= i < |s| ==> s[i] in s;
  }

  /** Filtering keeps the order and the split. */
  lemma {:induction false} FilterSplit<T>(s: seq<T>, d: map<T, int>, h: map<T, int>, n: int, x: int, k: nat)
    requires SplitAt(s, d, x, k)
    ensures SplitAt(Filter(s, h, n), d, x, |Filter(s[..k], h, n)|)
    ensures Filter(s, h, n) == Filter(s[..k], h, n) + Filter(s[k..], h, n)
  {
    FilterConcat(s[..k], s[k..], h, n);
    assert s == s[..k] + s[k..];
    var a, b := Filter(s[..k], h, n), Filter(s[k..], h, n);
    forall i | 0 <= i < |a|
      ensures At(d, a[i]) <= x
    {
      var y := a[i];
      FilterMember(s[..k], h, n, y);
      assert s[..k][IndexOf(s[..k], y)] == y;
    }
    forall i | 0 <= i < |b|
      ensures x < At(d, b[i])
    {
      var y := b[i];
      FilterMember(s[k..], h, n, y);
      assert s[k..][IndexOf(s[k..], y)] == y;
    }
  }

  /** Inserting a timer into the bottom row and then thinning out is the same as inserting
      it into the row if it is high enough, and not touching the row otherwise. */
  lemma InsertFiltered<T>(s: seq<T>, d: map<T, int>, h: map<T, int>, t: T, n: int)
    requires Ordered(s, d)
    ensures Filter(Insert(s, d, t), h, n)
         == if n <= At(h, t) then Insert(Filter(s, h, n), d, t) else Filter(s, h, n)
  {
    var k := Splits(s, d, At(d, t));
    InsertSplices(s, d, t, k);
    FilterSplit(s, d, h, n, At(d, t), k);
    var a, b := s[..k], s[k..];
    FilterConcat(a + [t], b, h, n);
    FilterConcat(a, [t], h, n);
    var m := |Filter(a, h, n)|;
    InsertSplices(Filter(s, h, n), d, t, m);
    assert Filter([t], h, n) == if n <= At(h, t) then [t] else [];
    if n > At(h, t) {
      assert Filter(a, h, n) + [] == Filter(a, h, n);
    } else {
      assert InsertAt(Filter(s, h, n), m, t) == Filter(a, h, n) + [t] + Filter(b, h, n);
    }
  }

  lemma {:induction false} WithoutFiltered<T>(s: seq<T>, h: map<T, int>, t: T, n: int)
    ensures Filter(Without(s, t), h, n) == Without(Filter(s, h, n), t)
  {
    if s != [] {
      WithoutFiltered(s[1..], h, t, n);
      assert s == [s[0]] + s[1..];
    }
  }

  /** Removal keeps the order. */
  lemma {:induction false} WithoutOrdered<T>(s: seq<T>, d: map<T, int>, t: T)
    requires Ordered(s, d)
    ensures Ordered(Without(s, t), d)
    ensures Distinct(s) ==> Distinct(Without(s, t))
  {
    if s != [] {
      var rest := s[1..];
      assert forall i :: 0 <= i < |rest| ==> rest[i] == s[i + 1];
      WithoutOrdered(rest, d, t);
      var w := Without(rest, t);
      forall i | 0 <= i < |w|
        ensures At(d, s[0]) <= At(d, w[i]) && (Distinct(s) ==> w[i] != s[0])
      {
        var y := w[i];
        WithoutMember(rest, t, y);
        assert rest[IndexOf(rest, y)] == y;
      }
    }
  }

  /** Where a timer stands in a row. */
  function Position<T(==)>(s: seq<T>, x: T): (i: nat)
    requires x in s
    ensures i < |s| && s[i] == x
  {
    if s[0] == x then 0 else 1 + Position(s[1..], x)
  }

  lemma {:induction false} FilterOrdered<T>(s: seq<T>, d: map<T, int>, h: map<T, int>, n: int)
    requires Ordered(s, d)
    ensures Ordered(Filter(s, h, n), d)
  {
    if s != [] {
      var rest := s[1..];
      assert forall i :: 0 <= i < |rest| ==> rest[i] == s[i + 1];
      FilterOrdered(rest, d, h, n);
      var f := Filter(rest, h, n);
      forall i | 0 <= i < |f|
        ensures At(d, s[0]) <= At(d, f[i])
      {
        var y := f[i];
        FilterMember(rest, h, n, y);
        assert rest[IndexOf(rest, y)] == y;
      }
    }
  }

  /** The timers of `ts` inserted one after another. */
  ghost function InsertAll<T>(s: seq<T>, d: map<T, int>, ts: seq<T>): (r: seq<T>) {
    if ts == [] then s else Insert(InsertAll(s, d, ts[..|ts| - 1]), d, ts[|ts| - 1])
  }

  lemma {:induction false} InsertMember<T>(s: seq<T>, d: map<T, int>, t: T, x: T)
    ensures x in Insert(s, d, t) <==> x == t || x in s
  {
    if s != [] && At(d, s[0]) <= At(d, t) {
      InsertMember(s[1..], d, t, x);
      assert s == [s[0]] + s[1..];
    }
  }

  lemma {:induction false} InsertAllMember<T>(s: seq<T>, d: map<T, int>, ts: seq<T>, x: T)
    ensures x in InsertAll(s, d, ts) <==> x in s || x in ts
  {
    if ts != [] {
      var n := |ts| - 1;
      InsertAllMember(s, d, ts[..n], x);
      InsertMember(InsertAll(s, d, ts[..n]), d, ts[n], x);
      assert ts == ts[..n] + [ts[n]];
    }
  }

  /** Later insertions do not disturb a head that is due before all of them. */
  lemma {:induction false} InsertAllHead<T>(s: seq<T>, d: map<T, int>, ts: seq<T>)
    requires s != [] && forall t :: t in ts ==> At(d, s[0]) < At(d, t)
    ensures InsertAll(s, d, ts) == [s[0]] + InsertAll(s[1..], d, ts)
  {
    if ts == [] {
      assert s == [s[0]] + s[1..];
    } else {
      InsertAllHead(s, d, ts[..|ts| - 1]);
    }
  }

  lemma {:induction false} InsertFramed<T>(s: seq<T>, d: map<T, int>, d': map<T, int>, t: T)
    requires At(d, t) == At(d', t) && forall x :: x in s ==> At(d, x) == At(d', x)
    ensures Insert(s, d, t) == Insert(s, d', t)
  {
    if s != [] {
      InsertFramed(s[1..], d, d', t);
    }
  }

  lemma {:induction false} InsertAllFramed<T>(s: seq<T>, d: map<T, int>, d': map<T, int>, ts: seq<T>)
    requires forall x :: x in s || x in ts ==> At(d, x) == At(d', x)
    ensures InsertAll(s, d, ts) == InsertAll(s, d', ts)
  {
    if ts != [] {
      var n := |ts| - 1;
      InsertAllFramed(s, d, d', ts[..n]);
      forall x | x in InsertAll(s, d, ts[..n])
        ensures At(d, x) == At(d', x)
      {
        InsertAllMember(s, d, ts[..n], x);
      }
      InsertFramed(InsertAll(s, d, ts[..n]), d, d', ts[n]);
    }
  }

  /** With only timers of the future inserted, a due head is the head of the old list. */
  lemma DueHead<T>(s: seq<T>, d: map<T, int>, ts: seq<T>, now: int)
    requires Ordered(s, d) && forall t :: t in ts ==> now < At(d, t)
    requires var b := InsertAll(s, d, ts); b != [] && At(d, b[0]) <= now
    ensures s != [] && At(d, s[0]) <= now && InsertAll(s, d, ts) == [s[0]] + InsertAll(s[1..], d, ts)
  {
    var head := InsertAll(s, d, ts)[0];
    InsertAllMember(s, d, ts, head);
    assert s[IndexOf(s, head)] == head;
    InsertAllHead(s, d, ts);
  }

  /** Firing the head and inserting it again at a new deadline. */
  lemma Rearmed<T>(s: seq<T>, d: map<T, int>, ts: seq<T>, t: T, due: int)
    requires t !in s && t !in ts
    ensures Insert(InsertAll(s, d, ts), d[t := due], t) == InsertAll(s, d[t := due], ts + [t])
  {
    InsertAllFramed(s, d, d[t := due], ts);
    assert (ts + [t])[..|ts|] == ts;
  }
}
