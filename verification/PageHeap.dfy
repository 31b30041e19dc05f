/** The page allocator of rt-thread/src/slab.c.

    Free pages are kept as a singly linked list of runs, each described in its first page.
    Addresses are page numbers. */
module PageHeap {
  import opened Ring

  const NULL: int := -1
  const LIST_HEAD: int := -2  // the variable rt_page_list, as the place a link is stored in

  datatype Run = Run(start: int, count: int)

  predicate In(r: Run, p: int) {
    r.start <= p < r.start + r.count
  }

  ghost predicate Covers(runs: seq<Run>, p: int) {
    exists i :: 0 <= i < |runs| && In(runs[i], p)
  }

  /** The runs ascend and no two of them touch, so each is a maximal run of free pages. */
  ghost predicate Maximal(runs: seq<Run>) {
    && (forall i :: 0 <= i < |runs| ==> 0 <= runs[i].start && 0 < runs[i].count)
    && (forall i, j :: 0 <= i < j < |runs| ==> runs[i].start + runs[i].count < runs[j].start)
  }

  function StartAt(runs: seq<Run>, i: nat): int {
    if i < |runs| then runs[i].start else NULL
  }

  /** The list hanging off `head` is `runs`. */
  ghost predicate Linked(head: int, next: map<int, int>, page: map<int, int>, runs: seq<Run>) {
    && head == StartAt(runs, 0)
    && (forall i {:trigger next[runs[i].start]} {:trigger runs[i].start in next} :: 0 <= i < |runs| ==>
          runs[i].start in next && next[runs[i].start] == StartAt(runs, i + 1))
    && (forall i {:trigger page[runs[i].start]} {:trigger runs[i].start in page} :: 0 <= i < |runs| ==>
          runs[i].start in page && page[runs[i].start] == runs[i].count)
  }

  /** The start of the first run of at least `n` pages. */
  function FirstFit(runs: seq<Run>, n: int): int {
    if runs == [] then NULL else if n <= runs[0].count then runs[0].start else FirstFit(runs[1..], n)
  }

  lemma {:induction false} FirstFitAt(runs: seq<Run>, n: int, i: nat)
    requires i <= |runs| && forall j :: 0 <= j < i ==> runs[j].count < n
    requires i < |runs| ==> n <= runs[i].count
    ensures FirstFit(runs, n) == StartAt(runs, i)
  {
    if 0 < i {
      FirstFitAt(runs[1..], n, i - 1);
    }
  }

  /** A set of pages has one list of maximal runs. */
  lemma {:induction false} MaximalUnique(a: seq<Run>, b: seq<Run>)
    requires Maximal(a) && Maximal(b)
    requires forall p :: Covers(a, p) <==> Covers(b, p)
    ensures a == b
  {
    if a == [] {
      assert b != [] ==> In(b[0], b[0].start) && Covers(b, b[0].start);
    } else {
      hide Maximal;
      HeadRun(a);
      assert In(a[0], a[0].start) && Covers(a, a[0].start);
      FirstRun(a, b);
      FirstRun(b, a);
      forall p
        ensures Covers(a[1..], p) <==> Covers(b[1..], p)
      {
        TailCovers(a, p);
        TailCovers(b, p);
      }
      assert Maximal(a[1..]) && Maximal(b[1..]) by {
        TailCovers(a, 0);
        TailCovers(b, 0);
      }
      MaximalUnique(a[1..], b[1..]);
      assert a == [a[0]] + a[1..] && b == [b[0]] + b[1..];
    }
  }

  lemma HeadRun(a: seq<Run>)
    requires Maximal(a) && a != []
    ensures 0 < a[0].count
  {
  }

  lemma TailCovers(a: seq<Run>, p: int)
    requires Maximal(a) && 0 < |a|
    ensures Covers(a[1..], p) <==> Covers(a, p) && !In(a[0], p)
    ensures Maximal(a[1..])
  {
    if Covers(a[1..], p) {
      var i :| 0 <= i < |a[1..]| && In(a[1..][i], p);
      assert In(a[i + 1], p);
    }
    if Covers(a, p) && !In(a[0], p) {
      var i :| 0 <= i < |a| && In(a[i], p);
      assert In(a[1..][i - 1], p);
    }
  }

  /** The first run of `a` starts no earlier, and reaches no further, than that of `b`. */
  lemma FirstRun(a: seq<Run>, b: seq<Run>)
    requires Maximal(a) && Maximal(b) && 0 < |a|
    requires forall p :: Covers(a, p) <==> Covers(b, p)
    ensures 0 < |b| && b[0].start <= a[0].start
    ensures b[0].start == a[0].start ==> b[0].count <= a[0].count
  {
    var s := a[0].start;
    assert In(a[0], s) && Covers(a, s) && Covers(b, s);
    var e := s + a[0].count;
    assert !Covers(a, e) && !Covers(b, e);
    assert b[0].start == s && a[0].count < b[0].count ==> In(b[0], e);
  }

  lemma CoversConcat(a: seq<Run>, b: seq<Run>)
    ensures forall p :: Covers(a + b, p) <==> Covers(a, p) || Covers(b, p)
  {
    forall p
      ensures Covers(a + b, p) <==> Covers(a, p) || Covers(b, p)
    {
      var c := a + b;
      if Covers(a, p) {
        var j :| 0 <= j < |a| && In(a[j], p);
        assert In(c[j], p);
      }
      if Covers(b, p) {
        var j :| 0 <= j < |b| && In(b[j], p);
        assert In(c[|a| + j], p);
      }
    }
  }

  lemma CoversMiddle(a: seq<Run>, r: Run, b: seq<Run>)
    ensures forall p :: Covers(a + [r] + b, p) <==> Covers(a, p) || In(r, p) || Covers(b, p)
  {
    CoversConcat(a, [r]);
    CoversConcat(a + [r], b);
    assert forall p :: In(r, p) ==> In([r][0], p);
  }

  /** Lists of runs that fit behind each other make one list. */
  lemma MaximalConcat(a: seq<Run>, b: seq<Run>)
    requires Maximal(a) && Maximal(b)
    requires a != [] && b != [] ==> a[|a| - 1].start + a[|a| - 1].count < b[0].start
    ensures Maximal(a + b)
  {
    var c := a + b;
    forall j, k | 0 <= j < k < |c|
      ensures c[j].start + c[j].count < c[k].start
    {
      if j < |a| <= k {
        assert a[j].start <= a[|a| - 1].start && a[j].start + a[j].count <= a[|a| - 1].start + a[|a| - 1].count;
        assert b[0].start <= b[k - |a|].start;
      }
    }
  }

  lemma MaximalSplit(runs: seq<Run>, i: nat)
    requires Maximal(runs) && i <= |runs|
    ensures Maximal(runs[..i]) && Maximal(runs[i..])
  {
  }

  /** Between the first `i` runs and those from `k` on there is room for `r`. */
  lemma MaximalMiddle(runs: seq<Run>, i: nat, r: Run, k: nat)
    requires Maximal(runs) && i <= k <= |runs| && 0 < r.count && 0 <= r.start
    requires 0 < i ==> runs[i - 1].start + runs[i - 1].count < r.start
    requires k < |runs| ==> r.start + r.count < runs[k].start
    ensures Maximal(runs[..i] + [r] + runs[k..])
    ensures forall p :: Covers(runs[..i] + [r] + runs[k..], p) <==> Covers(runs[..i], p) || In(r, p) || Covers(runs[k..], p)
  {
    MaximalSplit(runs, i);
    MaximalSplit(runs, k);
    MaximalConcat(runs[..i], [r]);
    MaximalConcat(runs[..i] + [r], runs[k..]);
    CoversMiddle(runs[..i], r, runs[k..]);
  }

  lemma MaximalGap(runs: seq<Run>, i: nat)
    requires Maximal(runs) && i < |runs|
    ensures Maximal(runs[..i] + [] + runs[i + 1..])
    ensures forall p :: Covers(runs[..i] + [] + runs[i + 1..], p) <==> Covers(runs[..i], p) || Covers(runs[i + 1..], p)
  {
    assert runs[..i] + [] == runs[..i];
    CoversConcat(runs[..i], runs[i + 1..]);
  }

  lemma CoversTwo(runs: seq<Run>, i: nat)
    requires i + 1 < |runs|
    ensures var rest := runs[i + 1..]; forall p :: Covers(rest, p) <==> In(runs[i + 1], p) || Covers(runs[i + 2..], p)
  {
    CoversMiddle([], runs[i + 1], runs[i + 2..]);
    assert runs[i + 1..] == [] + [runs[i + 1]] + runs[i + 2..];
  }

  lemma CoversSplit(runs: seq<Run>, i: nat)
    requires Maximal(runs) && i < |runs|
    ensures forall p :: Covers(runs, p) <==> Covers(runs[..i], p) || In(runs[i], p) || Covers(runs[i + 1..], p)
    ensures forall p :: In(runs[i], p) ==> !Covers(runs[..i], p) && !Covers(runs[i + 1..], p)
  {
    CoversMiddle(runs[..i], runs[i], runs[i + 1..]);
    assert runs == runs[..i] + [runs[i]] + runs[i + 1..];
  }

  /** The pages `freed` join the runs around them: those from `i` up to `k`. */
  lemma Absorbed(runs: seq<Run>, i: nat, r: Run, k: nat, freed: Run)
    requires Maximal(runs) && i <= k <= |runs| && k <= i + 2 && 0 < freed.count
    requires 0 < i ==> runs[i - 1].start + runs[i - 1].count < r.start
    requires k < |runs| ==> r.start + r.count < runs[k].start
    requires k == i ==> r == freed && 0 <= freed.start
    requires k == i + 1 ==>
               || (r.start == runs[i].start && freed.start == runs[i].start + runs[i].count && r.count == runs[i].count + freed.count)
               || (0 <= freed.start == r.start && freed.start + freed.count == runs[i].start && r.count == runs[i].count + freed.count)
    requires k == i + 2 ==>
               && r.start == runs[i].start && freed.start == runs[i].start + runs[i].count
               && freed.start + freed.count == runs[i + 1].start && r.count == runs[i].count + freed.count + runs[i + 1].count
    ensures Maximal(runs[..i] + [r] + runs[k..])
    ensures forall p :: Covers(runs[..i] + [r] + runs[k..], p) <==> Covers(runs, p) || In(freed, p)
  {
    hide Covers, Maximal;
    AllPositive(runs);
    MaximalMiddle(runs, i, r, k);
    if k == i {
      CoversConcat(runs[..i], runs[i..]);
      assert runs == runs[..i] + runs[i..];
    } else {
      CoversSplit(runs, i);
      if k == i + 2 {
        CoversTwo(runs, i);
      }
    }
  }

  lemma AllPositive(runs: seq<Run>)
    requires Maximal(runs)
    ensures forall j :: 0 <= j < |runs| ==> 0 <= runs[j].start && 0 < runs[j].count
  {
  }

  /** Replacing the runs from `i` up to `k` by `mid`, at most one run, in the linked list:
      only the links at `relinked` and the counts at `resized` have changed. */
  lemma Spliced(head: int, next: map<int, int>, page: map<int, int>, runs: seq<Run>, i: nat, mid: seq<Run>, k: nat,
                head': int, next': map<int, int>, page': map<int, int>, relinked: set<int>, resized: set<int>)
    requires Linked(head, next, page, runs) && i <= k <= |runs| && |mid| <= 1
    requires var target := if mid != [] then mid[0].start else StartAt(runs, k);
             if i == 0 then head' == target
             else head' == head && runs[i - 1].start in next' && next'[runs[i - 1].start] == target
    requires forall x :: x in next && x !in relinked ==> x in next' && next'[x] == next[x]
    requires forall x :: x in page && x !in resized ==> x in page' && page'[x] == page[x]
    requires forall j :: (0 <= j < i - 1 || k <= j < |runs|) ==> runs[j].start !in relinked
    requires forall j :: (0 <= j < i || k <= j < |runs|) ==> runs[j].start !in resized
    requires mid != [] ==>
               && mid[0].start in next' && next'[mid[0].start] == StartAt(runs, k)
               && mid[0].start in page' && page'[mid[0].start] == mid[0].count
    ensures Linked(head', next', page', runs[..i] + mid + runs[k..])
  {
    var rs := runs[..i] + mid + runs[k..];
    forall j | 0 <= j < |rs|
      ensures rs[j].start in next' && next'[rs[j].start] == StartAt(rs, j + 1)
      ensures rs[j].start in page' && page'[rs[j].start] == rs[j].count
    {
      if j < i {
        assert rs[j] == runs[j] && runs[j].start in next && runs[j].start in page;
      } else if j >= i + |mid| {
        var m := j - i - |mid| + k;
        assert rs[j] == runs[m] && runs[m].start in next && runs[m].start in page;
      }
    }
  }

  class PageHeap {
    var head: int
    var next: map<int, int>
    var page: map<int, int>
    ghost var runs: seq<Run>

    ghost predicate Valid()
      reads this
    {
      Maximal(runs) && Linked(head, next, page, runs)
    }

    /** rt_page_init: all of the `npages` pages from page 0 on become one free run. */
    constructor (npages: nat)
      requires 0 < npages
      ensures Valid() && runs == [Run(0, npages)]
    {
      head, next, page, runs := NULL, map[], map[], [];
      new;
      Free(0, npages);
      ghost var all := [Run(0, npages)];
      assert forall p :: In(Run(0, npages), p) <==> In(all[0], p);
      MaximalUnique(runs, all);
    }

    /** Stores a link in the list head or in a free run. */
    method SetLink(at: int, v: int)
      modifies this`head, this`next
      ensures at == LIST_HEAD ==> head == v && next == old(next)
      ensures at != LIST_HEAD ==> head == old(head) && next == old(next)[at := v]
    {
      if at == LIST_HEAD {
        head := v;
      } else {
        next := next[at := v];
      }
    }

    ghost predicate At(prev: int, i: nat)
      reads this
    {
      i <= |runs| && prev == if i == 0 then LIST_HEAD else runs[i - 1].start
    }

    /** The i-th run, at `b`, gives up its first `n` pages. */
    method Split(prev: int, b: int, n: nat, ghost i: nat)
      requires Valid() && At(prev, i) && i < |runs| && b == runs[i].start && 0 < n < runs[i].count
      modifies this
      ensures Valid()
      ensures forall p :: Covers(runs, p) <==> Covers(old(runs), p) && !(b <= p < b + n)
      ensures forall p :: b <= p < b + n ==> Covers(old(runs), p)
    {
      hide Covers, Maximal, Linked;
      Facts(i);
      ListFacts();
      ghost var r := Run(b + n, runs[i].count - n);
      ghost var h, nx, pg, rs := head, next, page, runs[..i] + [r] + runs[i + 1..];
      MaximalMiddle(runs, i, r, i + 1);
      CoversSplit(runs, i);
      next := next[b + n := next[b]];
      page := page[b + n := page[b] - n];
      SetLink(prev, b + n);
      Spliced(h, nx, pg, runs, i, [r], i + 1, head, next, page, {b + n, prev}, {b + n});
      runs := rs;
      forall p
        ensures Covers(rs, p) <==> Covers(old(runs), p) && !(b <= p < b + n)
        ensures b <= p < b + n ==> Covers(old(runs), p)
      {
        assert In(old(runs)[i], p) <==> In(r, p) || b <= p < b + n;
      }
    }

    lemma ListFacts()
      requires Valid()
      ensures head == StartAt(runs, 0)
      ensures forall j :: 0 <= j < |runs| ==> 0 <= runs[j].start && 0 < runs[j].count
      ensures forall j, k :: 0 <= j < k < |runs| ==> runs[j].start < runs[k].start
    {
    }

    lemma Entry(i: nat)
      requires Valid() && i < |runs|
      ensures runs[i].start in next && next[runs[i].start] == StartAt(runs, i + 1)
      ensures runs[i].start in page && page[runs[i].start] == runs[i].count
      ensures i + 1 < |runs| ==> runs[i].start + runs[i].count < runs[i + 1].start
    {
    }

    lemma Facts(i: nat)
      requires Valid() && i < |runs|
      ensures runs[i].start in next && next[runs[i].start] == StartAt(runs, i + 1)
      ensures runs[i].start in page && page[runs[i].start] == runs[i].count
      ensures 0 <= runs[i].start && 0 < runs[i].count
      ensures 0 < i ==> runs[i - 1].start + runs[i - 1].count < runs[i].start && runs[i - 1].start in next && runs[i - 1].start != LIST_HEAD
      ensures i + 1 < |runs| ==> runs[i].start + runs[i].count < runs[i + 1].start
      ensures forall j :: 0 <= j < |runs| ==> runs[j].start in next && runs[j].start in page
      ensures forall j :: 0 <= j < |runs| && j != i ==> !(runs[i].start <= runs[j].start <= runs[i].start + runs[i].count)
      ensures forall j :: 0 <= j < |runs| && 0 < i && j != i - 1 ==> runs[j].start != runs[i - 1].start
    {
      assert forall j {:trigger runs[j].start in next} :: 0 <= j < |runs| ==> runs[j].start in next && runs[j].start in page;
    }

    /** Takes the whole i-th run, at `b`, off the list. */
    method Drop(prev: int, b: int, ghost i: nat)
      requires Valid() && At(prev, i) && i < |runs| && b == runs[i].start
      modifies this
      ensures Valid()
      ensures forall p :: Covers(runs, p) <==> Covers(old(runs), p) && !In(old(runs[i]), p)
      ensures forall p :: In(old(runs[i]), p) ==> Covers(old(runs), p)
    {
      hide Covers, Maximal, Linked;
      Facts(i);
      ListFacts();
      ghost var h, nx, pg, rs := head, next, page, runs[..i] + [] + runs[i + 1..];
      MaximalGap(runs, i);
      CoversSplit(runs, i);
      SetLink(prev, next[b]);
      Spliced(h, nx, pg, runs, i, [], i + 1, head, next, page, {prev}, {});
      runs := rs;
      forall p
        ensures Covers(rs, p) <==> Covers(old(runs), p) && !In(old(runs)[i], p)
        ensures In(old(runs)[i], p) ==> Covers(old(runs), p)
      {
      }
    }

    /** rt_page_alloc: the first run of enough pages gives up its front. */
    method Alloc(npages: nat) returns (b: int)
      requires Valid()
      modifies this
      ensures Valid()
      ensures b == NULL <==> npages == 0 || forall r :: r in old(runs) ==> r.count < npages
      ensures b == NULL ==> unchanged(this)
      ensures b != NULL ==> 0 <= b
      ensures b != NULL ==> forall p :: b <= p < b + npages ==> Covers(old(runs), p)
      ensures b != NULL ==> forall p :: Covers(runs, p) <==> Covers(old(runs), p) && !(b <= p < b + npages)
      ensures b == if npages == 0 then NULL else FirstFit(old(runs), npages)
      ensures b != NULL ==> forall r :: r in old(runs) && npages <= r.count ==> b <= r.start
    {
      hide Covers, Maximal, Linked, FirstFit;
      ListFacts();
      b := NULL;
      if npages == 0 {
        return;
      }
      b := head;
      var prev := LIST_HEAD;
      ghost var i := 0;
      while b != NULL
        invariant 0 <= i <= |runs| && b == StartAt(runs, i)
        invariant At(prev, i)
        invariant forall j :: 0 <= j < i ==> runs[j].count < npages
        invariant unchanged(this)
        decreases |runs| - i
      {
        Facts(i);
        if npages <= page[b] {
          FirstFitAt(runs, npages, i);
        }
        if npages < page[b] {
          Split(prev, b, npages, i);
          return;
        }
        if page[b] == npages {
          Drop(prev, b, i);
          return;
        }
        prev := b;
        b := next[b];
        i := i + 1;
      }
      FirstFitAt(runs, npages, i);
    }

    /** The i-th run ends where the freed pages start: it takes them in, and the next run
        too if they close the gap to it. */
    method JoinBelow(b: int, npages: nat, ghost i: nat)
      requires Valid() && i < |runs| && b == runs[i].start && 0 < npages
      requires i + 1 < |runs| ==> b + runs[i].count + npages <= runs[i + 1].start
      modifies this
      ensures Valid()
      ensures var freed := Run(b + old(runs[i].count), npages);
              forall p :: Covers(runs, p) <==> Covers(old(runs), p) || In(freed, p)
    {
      hide Covers, Maximal, Linked, In;
      Entry(i);
      if 0 < i {
        Entry(i - 1);
      }
      if i + 1 < |runs| {
        Entry(i + 1);
      }
      ListFacts();
      ghost var h, nx, pg, freed := head, next, page, Run(b + runs[i].count, npages);
      page := page[b := page[b] + npages];
      if b + page[b] == next[b] {
        ghost var r := Run(b, runs[i].count + npages + runs[i + 1].count);
        Absorbed(runs, i, r, i + 2, freed);
        page := page[b := page[b] + page[next[b]]];
        next := next[b := next[next[b]]];
        Spliced(h, nx, pg, runs, i, [r], i + 2, head, next, page, {b}, {b});
        runs := runs[..i] + [r] + runs[i + 2..];
      } else {
        ghost var r := Run(b, runs[i].count + npages);
        Absorbed(runs, i, r, i + 1, freed);
        Spliced(h, nx, pg, runs, i, [r], i + 1, head, next, page, {b}, {b});
        runs := runs[..i] + [r] + runs[i + 1..];
      }
    }

    /** The freed pages end where the i-th run, at `b`, starts: the run moves down to `n`. */
    method JoinAbove(prev: int, b: int, n: int, npages: nat, ghost i: nat)
      requires Valid() && At(prev, i) && i < |runs| && b == runs[i].start && 0 < npages && 0 <= n && b == n + npages
      requires 0 < i ==> runs[i - 1].start + runs[i - 1].count < n
      modifies this
      ensures Valid()
      ensures forall p :: Covers(runs, p) <==> Covers(old(runs), p) || In(Run(n, npages), p)
    {
      hide Covers, Maximal, Linked, In;
      Facts(i);
      ListFacts();
      Apart(i, n, npages);
      ghost var h, nx, pg := head, next, page;
      ghost var r := Run(n, runs[i].count + npages);
      Absorbed(runs, i, r, i + 1, Run(n, npages));
      page := page[n := page[b] + npages];
      next := next[n := next[b]];
      SetLink(prev, n);
      Spliced(h, nx, pg, runs, i, [r], i + 1, head, next, page, {n, prev}, {n});
      runs := runs[..i] + [r] + runs[i + 1..];
    }

    /** The freed pages touch no run: they become a run of their own before the i-th. */
    method Insert(prev: int, b: int, n: int, npages: nat, ghost i: nat)
      requires Valid() && At(prev, i) && b == StartAt(runs, i) && 0 < npages && 0 <= n
      requires 0 < i ==> runs[i - 1].start + runs[i - 1].count < n
      requires i < |runs| ==> n + npages < b
      modifies this
      ensures Valid()
      ensures forall p :: Covers(runs, p) <==> Covers(old(runs), p) || In(Run(n, npages), p)
    {
      hide Covers, Maximal, Linked, In;
      ListFacts();
      LinksPresent();
      Apart(i, n, npages);
      ghost var h, nx, pg, r := head, next, page, Run(n, npages);
      Absorbed(runs, i, r, i, r);
      page := page[n := npages];
      next := next[n := b];
      SetLink(prev, n);
      Spliced(h, nx, pg, runs, i, [r], i, head, next, page, {n, prev}, {n});
      runs := runs[..i] + [r] + runs[i..];
    }

    lemma LinksPresent()
      requires Valid()
      ensures forall j :: 0 <= j < |runs| ==> runs[j].start in next && runs[j].start in page
    {
      assert forall j {:trigger runs[j].start in next} :: 0 <= j < |runs| ==> runs[j].start in next && runs[j].start in page;
    }

    /** Where pages behind the first `i` runs and before the rest start, no run starts. */
    lemma Apart(i: nat, n: int, npages: nat)
      requires Valid() && i <= |runs| && 0 <= n && 0 < npages
      requires 0 < i ==> runs[i - 1].start + runs[i - 1].count < n
      requires i < |runs| ==> n + npages <= runs[i].start
      ensures forall j :: 0 <= j < |runs| ==> runs[j].start != n
      ensures 0 < i ==> runs[i - 1].start != LIST_HEAD
    {
      assert forall j :: 0 <= j < i - 1 ==> runs[j].start < runs[i - 1].start;
      assert forall j :: i < j < |runs| ==> runs[i].start < runs[j].start;
    }

    /** rt_page_free. */
    method Free(n: int, npages: nat)
      requires Valid() && 0 <= n && 0 < npages
      requires forall p :: Covers(runs, p) ==> !In(Run(n, npages), p)
      modifies this
      ensures Valid()
      ensures forall p :: Covers(runs, p) <==> Covers(old(runs), p) || In(Run(n, npages), p)
    {
      hide Covers, Maximal, Linked;
      ListFacts();
      var b, prev := head, LIST_HEAD;
      ghost var i := 0;
      while b != NULL
        invariant 0 <= i <= |runs| && b == StartAt(runs, i) && At(prev, i)
        invariant 0 < i ==> runs[i - 1].start + runs[i - 1].count < n
        invariant unchanged(this)
        decreases |runs| - i
      {
        Facts(i);
        Disjoint(i, n, npages);
        if b + page[b] == n {
          JoinBelow(b, npages, i);
          return;
        }
        if b == n + npages {
          JoinAbove(prev, b, n, npages, i);
          return;
        }
        if n + npages < b {
          break;
        }
        prev := b;
        b := next[b];
        i := i + 1;
      }
      Insert(prev, b, n, npages, i);
    }

    lemma Disjoint(i: nat, n: int, npages: nat)
      requires Valid() && i < |runs| && 0 < npages
      requires forall p :: Covers(runs, p) ==> !In(Run(n, npages), p)
      ensures runs[i].start + runs[i].count <= n || n + npages <= runs[i].start
      ensures i + 1 < |runs| && runs[i].start + runs[i].count == n ==> n + npages <= runs[i + 1].start
    {
      assert In(runs[i], runs[i].start) && Covers(runs, runs[i].start);
      assert In(Run(n, npages), n) && !Covers(runs, n) && !In(runs[i], n);
      if i + 1 < |runs| {
        assert In(runs[i + 1], runs[i + 1].start) && Covers(runs, runs[i + 1].start);
      }
    }
  }

  /** Freeing a run of pages right after allocating it restores exactly the old list. */
  method AllocThenFree(heap: PageHeap, npages: nat)
    requires heap.Valid()
    modifies heap
    ensures heap.Valid() && heap.runs == old(heap.runs)
  {
    ghost var runs := heap.runs;
    var b := heap.Alloc(npages);
    if b != NULL {
      heap.Free(b, npages);
      MaximalUnique(runs, heap.runs);
    }
  }
}
