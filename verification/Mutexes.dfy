/** The mutex of rt-thread/src/ipc.c with priority inheritance. Every method is one section
    with interrupts disabled; signals are not modelled. */
module Mutexes {
  import opened Ring
  import opened Ipc

  const NO_PRIORITY: int := 0xFF
  const HOLD_LIMIT: int := 256  // hold is an rt_uint8_t

  datatype Outcome = Taken | Refused | Blocked

  class Mutex {
    const flag: Flag
    var value: int
    var owner: Thread?
    var originalPriority: int
    var hold: int
    var waiters: seq<Thread>
    // how often the owner has taken the mutex; the arrival times of the waiters
    ghost var nest: nat
    ghost var stamp: map<Thread, int>
    ghost var clock: int

    ghost predicate Valid()
      reads this, waiters`priority, Owner()`priority
    {
      && (owner == null <==> nest == 0) && (owner == null <==> value == 1)
      && (value == 0 || value == 1) && hold == nest % HOLD_LIMIT
      && (owner == null ==> waiters == [] && originalPriority == NO_PRIORITY)
      && Distinct(waiters) && owner !in waiters
      && (forall w :: w in waiters ==> w in stamp && stamp[w] < clock)
      && (flag.Prio? ==> Ranked(waiters, stamp) && OwnerUrgent())
    }

    ghost function Owner(): set<Thread>
      reads this
    {
      if owner == null then {} else {owner}
    }

    /** The owner is at least as urgent as every waiter. */
    ghost predicate OwnerUrgent()
      reads this, waiters`priority, Owner()`priority
    {
      owner != null ==> forall w :: w in waiters ==> owner.priority <= w.priority
    }

    /** rt_mutex_init. */
    constructor (f: Flag)
      ensures Valid() && owner == null && flag == f && waiters == []
    {
      flag, value, owner, originalPriority, hold, waiters := f, 1, null, NO_PRIORITY, 0, [];
      nest, stamp, clock := 0, map[], 0;
    }

    /** rt_mutex_take by the running thread `t`, up to the point where it has to wait. */
    method Take(t: Thread, time: int) returns (r: Outcome)
      requires Valid() && t !in waiters
      modifies this, t`error, t`timer, Owner()`priority
      ensures Valid() && t.priority == old(t.priority) && (r != Blocked ==> t.timer == old(t.timer))
      ensures old(owner) == t ==>
        r == Taken && owner == t && nest == old(nest) + 1
        && originalPriority == old(originalPriority) && waiters == old(waiters)
      ensures old(owner) == null ==>
        r == Taken && owner == t && nest == 1 && originalPriority == t.priority && waiters == []
      ensures old(owner) != t && old(owner) != null ==>
        && owner == old(owner) && nest == old(nest) && originalPriority == old(originalPriority)
        && r == if time == 0 then Refused else Blocked
      ensures r == Taken ==> t.error == Eok
      ensures r == Refused ==> t.error == Etimeout && waiters == old(waiters) && owner.priority == old(owner.priority)
      ensures r == Blocked ==>
        && t.error == Eok && t.timer == (0 < time)
        && waiters == (if flag.Fifo? then old(waiters) + [t] else Enqueued(old(waiters), t))
        && owner.priority == (if t.priority < old(owner.priority) then t.priority else old(owner.priority))
    {
      hide Ranked;
      t.error := Eok;
      if owner == t {
        hold := (hold + 1) % HOLD_LIMIT;
        nest := nest + 1;
        return Taken;
      }
      if 0 < value {
        value := value - 1;
        owner := t;
        originalPriority := t.priority;
        hold := (hold + 1) % HOLD_LIMIT;
        nest := nest + 1;
        return Taken;
      }
      if time == 0 {
        t.error := Etimeout;
        return Refused;
      }
      Wait(t, time);
      r := Blocked;
    }

    /** The waiting part: the owner inherits the priority of `t`, and `t` joins the list. */
    method Wait(t: Thread, time: int)
      requires Valid() && owner != null && owner != t && t !in waiters
      modifies this`waiters, this`stamp, this`clock, t`timer, Owner()`priority
      ensures Valid() && owner == old(owner) && t.timer == (0 < time)
      ensures t.priority == old(t.priority)
      ensures waiters == if flag.Fifo? then old(waiters) + [t] else Enqueued(old(waiters), t)
      ensures owner.priority == if t.priority < old(owner.priority) then t.priority else old(owner.priority)
    {
      hide Valid, Enqueued;
      Inherit(t.priority);
      t.timer := false;
      Join(t);
      if 0 < time {
        t.timer := true;
      }
    }

    method Join(t: Thread)
      requires Valid() && owner != null && owner != t && t !in waiters && owner.priority <= t.priority
      modifies this`waiters, this`stamp, this`clock
      ensures Valid() && waiters == if flag.Fifo? then old(waiters) + [t] else Enqueued(old(waiters), t)
    {
      hide Ranked, Enqueued, Distinct;
      ghost var before := waiters;
      waiters := ListSuspend(waiters, t, flag);
      Arrive(before, t, stamp, clock, flag, waiters);
      stamp := stamp[t := clock];
      clock := clock + 1;
    }

    method Inherit(p: int)
      requires Valid() && owner != null
      modifies Owner()`priority
      ensures Valid() && owner.priority == if p < old(owner.priority) then p else old(owner.priority)
    {
      if p < owner.priority {
        owner.priority := p;
      }
    }

    /** The priority of a waiter changes from outside, as when it owns another mutex that a more
        urgent thread wants. With the PRIO flag the mutex keeps its invariant exactly if the
        waiter still fits its place and is not made more urgent than the owner. */
    method ChangeWaiter(w: Thread, p: int)
      requires Valid() && w in waiters
      modifies w`priority
      ensures w.priority == p && owner != null
      ensures forall x :: x in waiters ==> x in stamp
      ensures flag.Fifo? ==> Valid()
      ensures flag.Prio? ==>
        (Valid() <==> old(HasRoom(waiters, stamp, IndexOf(waiters, w), p)) && owner.priority <= p)
    {
      hide Ranked, Distinct, HasRoom;
      if flag.Prio? {
        ChangePriority(waiters, stamp, w, IndexOf(waiters, w), p);
      } else {
        w.priority := p;
      }
    }

    /** The priority of the owner changes from outside, as when it releases another mutex. With
        the PRIO flag the mutex keeps its invariant exactly if the owner stays at least as
        urgent as every waiter. */
    method ChangeOwner(p: int)
      requires Valid() && owner != null
      modifies Owner()`priority
      ensures owner.priority == p
      ensures Valid() <==> flag.Fifo? || forall w :: w in waiters ==> p <= w.priority
    {
      hide Distinct;
      owner.priority := p;
      assert forall i :: 0 <= i < |waiters| ==> waiters[i] in waiters;
      assert old(flag.Prio? ==> Ranked(waiters, stamp));
    }

    /** The count of the code tells that there is no owner, except that it is also zero after
        256 takes, or 512 and so on. */
    lemma HoldTells()
      requires Valid()
      ensures (hold == 0 <==> owner == null) <==> nest == 0 || nest % HOLD_LIMIT != 0
    {
    }

    /** rt_mutex_release by the running thread `t`. The release that brings the count to zero
        gives `t` the priority back that it had when it took the mutex, and the first waiter
        becomes the owner; that is the last release of up to 256 (see NestsUpTo). That
        owner is at least as urgent as the threads still waiting exactly if it was the most
        urgent waiter, as it always is with the priority flag. */
    method Release(t: Thread) returns (ok: bool)
      requires Valid() && t !in waiters
      modifies this, t`priority, t`error, waiters`timer
      ensures Valid() && ok == (old(owner) == t)
      ensures !ok ==> t.error == Eerror && t.priority == old(t.priority) && unchanged(this)
      ensures ok && old(nest) % HOLD_LIMIT != 1 ==>
        && owner == t && nest == old(nest) - 1 && t.priority == old(t.priority)
        && originalPriority == old(originalPriority) && waiters == old(waiters)
      ensures ok && old(nest) % HOLD_LIMIT == 1 ==>
        && t.priority == old(originalPriority)
        && (old(waiters) == [] ==> owner == null && originalPriority == 0xFF)
        && (old(waiters) != [] ==>
              && owner == old(waiters)[0] && waiters == old(waiters)[1..] && nest == 1
              && originalPriority == owner.priority && !owner.timer && (forall w :: w in waiters ==> w.timer == old(w.timer))
              && (OwnerUrgent() <==> forall w :: w in old(waiters) ==> old(waiters)[0].priority <= w.priority))
    {
      ok := t == owner;
      if !ok {
        t.error := Eerror;
        return;
      }
      hold := (hold - 1) % HOLD_LIMIT;
      nest := nest - 1;
      if hold == 0 {
        if originalPriority != owner.priority {
          owner.priority := originalPriority;
        }
        if waiters != [] {
          HandOff();
        } else {
          value := value + 1;
          owner := null;
          originalPriority := NO_PRIORITY;
          nest := 0;
        }
      }
    }

    /** The first waiter becomes the owner and is resumed. */
    method HandOff()
      requires waiters != [] && Distinct(waiters) && value == 0 && hold == 0
      requires forall w :: w in waiters ==> w in stamp && stamp[w] < clock
      requires flag.Prio? ==> Ranked(waiters, stamp)
      modifies this`owner, this`originalPriority, this`hold, this`waiters, this`nest, waiters`timer
      ensures Valid() && owner == old(waiters)[0] && waiters == old(waiters)[1..] && nest == 1
      ensures originalPriority == owner.priority && !owner.timer && forall w :: w in waiters ==> w.timer == old(w.timer)
      ensures OwnerUrgent() <==> forall w :: w in old(waiters) ==> old(waiters)[0].priority <= w.priority
    {
      var next := waiters[0];
      owner := next;
      originalPriority := next.priority;
      hold := hold + 1;
      nest := 1;
      FirstLeaves(waiters);
      FirstIsUrgent(waiters, stamp);
      waiters := waiters[1..];
      next.timer := false;
    }

    /** The timer of a waiter expires (rt_thread_timeout): it leaves the list with an error,
        and the owner keeps what it inherited. */
    method Timeout(w: Thread)
      requires Valid() && w in waiters && w.timer
      modifies this`waiters, w`timer, w`error
      ensures Valid() && w.error == Etimeout && !w.timer && waiters == Without(old(waiters), w) && w !in waiters
      ensures owner == old(owner) && originalPriority == old(originalPriority)
    {
      hide Ranked, Distinct, Without;
      w.timer := false;
      w.error := Etimeout;
      OneLeaves(waiters, w);
      if flag.Prio? {
        WithoutRanked(waiters, stamp, w);
      }
      waiters := Without(waiters, w);
    }
  }

  /** What a new waiter does to the list, whatever the flag. */
  lemma Arrive(list: seq<Thread>, t: Thread, stamp: map<Thread, int>, now: int, flag: Flag, r: seq<Thread>)
    requires Distinct(list) && t !in list && forall x :: x in list ==> x in stamp && stamp[x] < now
    requires flag.Prio? ==> Ranked(list, stamp)
    requires r == if flag.Fifo? then list + [t] else Enqueued(list, t)
    ensures Distinct(r)
    ensures flag.Prio? ==> Ranked(r, stamp[t := now])
  {
    hide Ranked;
    if flag.Prio? {
      EnqueuedRanked(list, t, stamp, now);
      EnqueuedDistinct(list, t);
    }
  }

  /** With the FIFO flag a hand-off can leave the new owner less urgent than a waiter. */
  method FifoHandOff() returns (m: Mutex)
    ensures m.Valid() && m.flag.Fifo? && m.owner != null && !m.OwnerUrgent()
  {
    hide Ranked, Distinct, Enqueued;
    m := new Mutex(Fifo);
    var a := new Thread(20);
    var b := new Thread(15);
    var c := new Thread(10);
    var r := m.Take(a, 0);
    r := m.Take(b, -1);
    r := m.Take(c, -1);
    assert m.waiters == [b, c];
    assert c in m.waiters;
    var ok := m.Release(a);
    assert m.owner == b && c in m.waiters;
  }

  /** `t` takes `m1`, inherits from `h`, which waits for it, and then takes `m2`. */
  method TakeBoth(t: Thread, h: Thread, m1: Mutex, m2: Mutex)
    requires m1 != m2 && t != h && h.priority < t.priority
    requires m1.Valid() && m2.Valid() && m1.owner == null && m2.owner == null
    modifies m1, m2, t, h
    ensures m1.Valid() && m1.owner == t && m1.nest == 1 && m1.waiters == [h] && m1.originalPriority == old(t.priority)
    ensures m2.Valid() && m2.owner == t && m2.nest == 1 && m2.waiters == [] && m2.originalPriority == h.priority
    ensures h.priority == old(h.priority)
  {
    hide Ranked, Distinct, Enqueued;
    var r := m1.Take(t, 0);
    FirstToWait(h);
    r := m1.Take(h, -1);
    r := m2.Take(t, 0);
  }

  /** A thread that takes a second mutex while it has inherited a priority, and releases the
      first one first, is left with the inherited priority when it holds nothing any more. */
  method TwoMutexes(t: Thread, h: Thread, m1: Mutex, m2: Mutex)
    requires m1 != m2 && t != h && h.priority < t.priority
    requires m1.Valid() && m2.Valid() && m1.owner == null && m2.owner == null
    modifies m1, m2, t, h
    ensures m1.owner == h && m2.owner == null
    ensures t.priority == old(h.priority) < old(t.priority)
  {
    hide Ranked, Distinct, Enqueued;
    TakeBoth(t, h, m1, m2);
    var ok := m1.Release(t);
    ok := m2.Release(t);
  }

  /** The owner of `m1` releases `m2`. Unless it still holds `m2` it drops to the priority it had
      when it took `m2`, and `m1` stays sound exactly if that is as urgent as every thread that
      waits for `m1`. */
  method ReleaseOther(t: Thread, m1: Mutex, m2: Mutex)
    requires m1 != m2 && m1.Valid() && m2.Valid() && m1.owner == t && m2.owner == t
    modifies m2, t`priority, t`error, m2.waiters`timer
    ensures m2.Valid() && m1.owner == t
    ensures old(m2.nest) % HOLD_LIMIT != 1 ==> m1.Valid()
    ensures old(m2.nest) % HOLD_LIMIT == 1 ==>
              (m1.Valid() <==> m1.flag.Fifo? || forall w :: w in m1.waiters ==> old(m2.originalPriority) <= w.priority)
  {
    hide Distinct;
    ghost var wait := m1.waiters;
    assert m1.flag.Prio? ==> Ranked(wait, m1.stamp);
    var ok := m2.Release(t);
    assert forall i :: 0 <= i < |wait| ==> wait[i] in wait && wait[i].priority == old(wait[i].priority);
  }

  /** A thread that takes two mutexes and inherits the priority of `h`, which waits for the
      first, loses it by releasing the second: the owner is less urgent than the waiter. */
  method InheritanceLost(t: Thread, h: Thread, m1: Mutex, m2: Mutex)
    requires m1 != m2 && t != h && h.priority < t.priority && m1.flag.Prio?
    requires m1.Valid() && m2.Valid() && m1.owner == null && m2.owner == null
    modifies m1, m2, t, h
    ensures m1.owner == t && m1.waiters == [h] && m2.owner == null
    ensures h.priority == old(h.priority) < t.priority == old(t.priority) && !m1.Valid()
  {
    hide Ranked, Distinct, Enqueued;
    var r := m1.Take(t, 0);
    r := m2.Take(t, 0);
    FirstToWait(h);
    r := m1.Take(h, -1);
    assert h in m1.waiters;
    var ok := m2.Release(t);
    assert h in m1.waiters && !m1.OwnerUrgent();
  }

  /** A thread takes a free mutex `k` times and then releases it until it has lost it, after
      `j` releases: all `k` of them exactly if there were no more than 256 takes. */
  method NestsUpTo(m: Mutex, t: Thread, k: nat) returns (j: nat)
    requires m.Valid() && m.owner == null && 0 < k
    modifies m, t
    ensures m.Valid() && m.owner == null && j == (k - 1) % 256 + 1 <= k
    ensures j == k <==> k <= 256
  {
    hide Ranked, Distinct, Enqueued;
    var r := m.Take(t, 0);
    for i := 1 to k
      invariant m.Valid() && m.owner == t && m.nest == i && m.waiters == []
    {
      r := m.Take(t, 0);
    }
    j := 0;
    while m.owner == t
      invariant m.Valid() && j <= k && m.waiters == []
      invariant m.owner == t ==> m.nest + j == k && 0 < m.nest && j <= (k - 1) % HOLD_LIMIT
      invariant m.owner != t ==> m.owner == null && j == (k - 1) % HOLD_LIMIT + 1
      decreases k - j
    {
      ReleasesLeft(k, j);
      var ok := m.Release(t);
      j := j + 1;
    }
  }

  /** Which release brings the count to zero. */
  lemma ReleasesLeft(k: nat, j: nat)
    requires j < k && j <= (k - 1) % HOLD_LIMIT
    ensures (k - j) % HOLD_LIMIT == 1 <==> j == (k - 1) % HOLD_LIMIT
  {
  }

  lemma FirstToWait(t: Thread)
    ensures Enqueued([], t) == [t]
  {
  }
}
