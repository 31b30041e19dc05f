/** The wait lists of rt-thread/src/ipc.c. */
module Ipc {
  import opened Ring

  datatype Error = Eok | Etimeout | Efull | Eerror

  /** The RT_EVENT_FLAG_AND, _OR and _CLEAR bits of event_info. */
  datatype Options = Options(all: bool, any: bool, clear: bool)

  /** What the IPC objects see of a thread. */
  class Thread {
    var priority: int  // current_priority, 0 is the most urgent
    var error: Error
    var timer: bool    // thread_timer is running
    var eventSet: bv32
    var eventInfo: Options

    constructor (p: int)
      ensures priority == p && error == Eok && !timer
    {
      priority, error, timer, eventSet, eventInfo := p, Eok, false, 0, Options(false, false, false);
    }
  }

  datatype Flag = Fifo | Prio

  /** Behind every thread that is at least as urgent. */
  ghost function Enqueued(list: seq<Thread>, t: Thread): (r: seq<Thread>)
    reads list`priority, t`priority
  {
    if list == [] || t.priority < list[0].priority then [t] + list
    else [list[0]] + Enqueued(list[1..], t)
  }

  /** Where a thread stands among the threads already waiting. */
  ghost predicate Precedes(a: Thread, b: Thread, stamp: map<Thread, int>)
    reads a`priority, b`priority
  {
    a.priority < b.priority || (a.priority == b.priority && a in stamp && b in stamp && stamp[a] < stamp[b])
  }

  /** Most urgent first, and among equals whoever came first; `stamp` is the time of arrival. */
  ghost predicate Ranked(list: seq<Thread>, stamp: map<Thread, int>)
    reads list`priority
  {
    forall i, j :: 0 <= i < j < |list| ==> Precedes(list[i], list[j], stamp)
  }

  lemma {:induction false} EnqueuedAt(list: seq<Thread>, t: Thread, k: nat)
    requires k <= |list|
    requires forall i :: 0 <= i < k ==> list[i].priority <= t.priority
    requires k < |list| ==> t.priority < list[k].priority
    ensures Enqueued(list, t) == InsertAt(list, k, t)
  {
    if 0 < k {
      EnqueuedAt(list[1..], t, k - 1);
      assert InsertAt(list, k, t) == [list[0]] + InsertAt(list[1..], k - 1, t);
    } else {
      assert InsertAt(list, 0, t) == [t] + list;
    }
  }

  /** A latecomer stands in front of the first thread that is less urgent. */
  lemma {:induction false} EnqueuedBefore(list: seq<Thread>, t: Thread) returns (k: nat)
    ensures k <= |list| && Enqueued(list, t) == list[..k] + [t] + list[k..]
    ensures forall i :: 0 <= i < k ==> list[i].priority <= t.priority
    ensures k < |list| ==> t.priority < list[k].priority
  {
    if list == [] || t.priority < list[0].priority {
      k := 0;
    } else {
      k := EnqueuedBefore(list[1..], t);
      k := k + 1;
      assert list == [list[0]] + list[1..];
      assert forall i :: 1 <= i < k ==> list[i] == list[1..][i - 1];
    }
  }

  lemma {:induction false} EnqueuedMember(list: seq<Thread>, t: Thread, x: Thread)
    ensures x in Enqueued(list, t) <==> x == t || x in list
  {
    if list != [] && list[0].priority <= t.priority {
      EnqueuedMember(list[1..], t, x);
      assert list == [list[0]] + list[1..];
    }
  }

  lemma EnqueuedMembers(list: seq<Thread>, t: Thread)
    ensures forall x :: x in Enqueued(list, t) <==> x == t || x in list
  {
    forall x
      ensures x in Enqueued(list, t) <==> x == t || x in list
    {
      EnqueuedMember(list, t, x);
    }
  }

  lemma EnqueuedDistinct(list: seq<Thread>, t: Thread)
    requires Distinct(list) && t !in list
    ensures Distinct(Enqueued(list, t))
  {
    if list != [] && list[0].priority <= t.priority {
      var rest := list[1..];
      assert forall i :: 0 <= i < |rest| ==> rest[i] == list[i + 1];
      EnqueuedDistinct(rest, t);
      EnqueuedMember(rest, t, list[0]);
    }
  }

  /** A latecomer keeps the list ranked. */
  lemma {:induction false} EnqueuedRanked(list: seq<Thread>, t: Thread, stamp: map<Thread, int>, now: int)
    requires Ranked(list, stamp) && t !in list
    requires forall x :: x in list ==> x in stamp && stamp[x] < now
    ensures Ranked(Enqueued(list, t), stamp[t := now])
  {
    var stamp' := stamp[t := now];
    assert forall i :: 0 <= i < |list| ==> list[i] in list;
    if list == [] || t.priority < list[0].priority {
      var r := [t] + list;
      forall i, j | 0 <= i < j < |r|
        ensures Precedes(r[i], r[j], stamp')
      {
        assert list != [] && r[j] == list[j - 1];
        if 1 < j {
          assert Precedes(list[0], list[j - 1], stamp);
        }
        if 0 < i {
          assert Precedes(list[i - 1], list[j - 1], stamp);
        }
      }
    } else {
      var rest := list[1..];
      assert forall i :: 0 <= i < |rest| ==> rest[i] == list[i + 1];
      EnqueuedRanked(rest, t, stamp, now);
      var r := Enqueued(rest, t);
      forall j | 0 <= j < |r|
        ensures Precedes(list[0], r[j], stamp')
      {
        EnqueuedMember(rest, t, r[j]);
        if r[j] != t {
          var k := IndexOf(rest, r[j]);
          assert Precedes(list[0], list[k + 1], stamp);
        }
      }
    }
  }

  lemma AppendedDistinct(list: seq<Thread>, t: Thread)
    requires Distinct(list) && t !in list
    ensures Distinct(list + [t])
  {
    assert forall i :: 0 <= i < |list| ==> list[i] in list;
  }

  lemma OneLess(s: set<Thread>, t: Thread)
    ensures |s| - 1 <= |s - {t}| <= |s|
  {
    if t !in s {
      assert s - {t} == s;
    }
  }

  /** What is left when the first thread leaves. */
  lemma FirstLeaves(list: seq<Thread>)
    requires list != [] && Distinct(list)
    ensures Distinct(list[1..]) && list[0] in list
    ensures forall t :: t in list[1..] <==> t in list && t != list[0]
  {
    var r := list[1..];
    assert forall i :: 0 <= i < |r| ==> r[i] == list[i + 1];
    assert list == [list[0]] + r;
  }

  /** The first of a ranked list is the most urgent, and the rest is ranked. */
  lemma FirstIsUrgent(list: seq<Thread>, stamp: map<Thread, int>)
    requires list != []
    ensures Ranked(list, stamp) ==> Ranked(list[1..], stamp) && forall x :: x in list ==> list[0].priority <= x.priority
  {
    if Ranked(list, stamp) {
      forall x | x in list
        ensures list[0].priority <= x.priority
      {
        var k := IndexOf(list, x);
        if 0 < k {
          assert Precedes(list[0], list[k], stamp);
        }
      }
      var r := list[1..];
      assert forall i :: 0 <= i < |r| ==> r[i] == list[i + 1];
    }
  }

  /** The threads next to place `k` of a ranked list leave room there for the priority `p`. */
  ghost predicate HasRoom(list: seq<Thread>, stamp: map<Thread, int>, k: nat, p: int)
    requires k < |list| && forall x :: x in list ==> x in stamp
    reads list`priority
  {
    && (0 < k ==> list[k - 1].priority < p || (list[k - 1].priority == p && stamp[list[k - 1]] < stamp[list[k]]))
    && (k + 1 < |list| ==> p < list[k + 1].priority || (p == list[k + 1].priority && stamp[list[k]] < stamp[list[k + 1]]))
  }

  /** rt_thread_control with RT_THREAD_CTRL_CHANGE_PRIORITY for a thread that waits: it is not
      moved in the list, which stays ranked exactly if its neighbours leave it room. */
  method ChangePriority(list: seq<Thread>, ghost stamp: map<Thread, int>, t: Thread, ghost k: nat, p: int)
    requires Ranked(list, stamp) && Distinct(list) && k < |list| && list[k] == t && forall x :: x in list ==> x in stamp
    modifies t`priority
    ensures t.priority == p
    ensures Ranked(list, stamp) <==> old(HasRoom(list, stamp, k, p))
  {
    ghost var room := HasRoom(list, stamp, k, p);
    t.priority := p;
    assert forall i :: 0 <= i < |list| ==> list[i] in list && (i != k ==> list[i].priority == old(list[i].priority));
    if room {
      forall i, j | 0 <= i < j < |list|
        ensures Precedes(list[i], list[j], stamp)
      {
        assert old(Precedes(list[i], list[j], stamp));
        if j == k && i < k - 1 {
          assert old(Precedes(list[i], list[k - 1], stamp));
        } else if i == k && k + 1 < j {
          assert old(Precedes(list[k + 1], list[j], stamp));
        }
      }
    } else {
      assert 0 < k && Ranked(list, stamp) ==> Precedes(list[k - 1], list[k], stamp);
      assert k + 1 < |list| && Ranked(list, stamp) ==> Precedes(list[k], list[k + 1], stamp);
    }
  }

  /** What is left when any thread leaves. */
  lemma OneLeaves(list: seq<Thread>, w: Thread)
    requires Distinct(list)
    ensures Distinct(Without(list, w)) && forall x :: x in Without(list, w) <==> x in list && x != w
  {
    WithoutDistinct(list, w);
    WithoutMembers(list, w);
  }

  lemma {:induction false} WithoutRanked(list: seq<Thread>, stamp: map<Thread, int>, w: Thread)
    requires Ranked(list, stamp)
    ensures Ranked(Without(list, w), stamp)
  {
    if list != [] {
      var rest := list[1..];
      assert forall i :: 0 <= i < |rest| ==> rest[i] == list[i + 1];
      WithoutRanked(rest, stamp, w);
      var r := Without(rest, w);
      forall j | 0 <= j < |r|
        ensures Precedes(list[0], r[j], stamp)
      {
        WithoutMember(rest, w, r[j]);
        var k := IndexOf(rest, r[j]) + 1;
        assert Precedes(list[0], list[k], stamp);
      }
    }
  }

  /** rt_ipc_list_suspend, the insertion into the list. */
  method ListSuspend(list: seq<Thread>, t: Thread, flag: Flag) returns (r: seq<Thread>)
    ensures r == if flag.Fifo? then list + [t] else Enqueued(list, t)
    ensures forall x :: x in r <==> x == t || x in list
  {
    EnqueuedMembers(list, t);
    match flag
    case Fifo =>
      r := list + [t];
    case Prio =>
      var n := 0;
      while n < |list|
        invariant n <= |list|
        invariant forall i :: 0 <= i < n ==> list[i].priority <= t.priority
      {
        if t.priority < list[n].priority {
          EnqueuedAt(list, t, n);
          return InsertAt(list, n, t);
        }
        n := n + 1;
      }
      EnqueuedAt(list, t, n);
      assert InsertAt(list, n, t) == list + [t];
      r := list + [t];
  }

  ghost function Members(list: seq<Thread>): set<Thread> {
    set t | t in list
  }

  /** rt_ipc_list_resume: the first thread leaves the list, and its timer stops. */
  method ResumeFirst(list: seq<Thread>) returns (rest: seq<Thread>)
    requires list != []
    modifies Members(list)`timer
    ensures rest == list[1..] && !list[0].timer
    ensures forall t :: t in list && t != list[0] ==> t.timer == old(t.timer)
  {
    list[0].timer := false;
    rest := list[1..];
  }

  /** rt_ipc_list_resume_all: every thread of the list is resumed with an error. */
  method ResumeAll(list: seq<Thread>) returns (rest: seq<Thread>)
    modifies Members(list)`error, Members(list)`timer
    ensures rest == [] && forall t :: t in list ==> t.error == Eerror && !t.timer
  {
    rest := list;
    while rest != []
      invariant |rest| <= |list| && rest == list[|list| - |rest|..]
      invariant forall t :: t in list[..|list| - |rest|] ==> t.error == Eerror && !t.timer
      decreases |rest|
    {
      var t := rest[0];
      t.error := Eerror;
      rest := ResumeFirst(rest);
      assert list[..|list| - |rest|] == list[..|list| - |rest| - 1] + [t];
    }
    assert list[..|list|] == list;
  }
}
