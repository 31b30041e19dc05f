/** The single-core scheduler: rt-thread/src/scheduler.c, the state changes of
    rt-thread/src/thread.c and the time slice of rt-thread/src/clock.c. Every method is one
    section with interrupts disabled. */
module Scheduler {
  import opened Arithmetic
  import opened Bitmap
  import opened Ring

  const LOCK_LIMIT: int := 0x8000  // rt_scheduler_lock_nest is an rt_int16_t
  const TICK_LIMIT: int := 0x1_0000_0000

  datatype Stat = Init | Ready | Suspend | Running

  class Thread {
    const initPriority: bv8
    const initTick: int
    var stat: Stat
    var yieldBit: bool  // RT_THREAD_STAT_YIELD
    var priority: bv8
    var number: bv8
    var numberMask: bv32
    var highMask: bv32
    var remaining: int
    var timedOut: bool

    /** _rt_thread_init. */
    constructor (p: bv8, slice: int)
      ensures number == 0 && numberMask == highMask == 0
      ensures stat == Init && initPriority == priority == p && initTick == remaining == slice && !yieldBit
    {
      initPriority, priority, initTick, remaining := p, p, slice, slice;
      number, numberMask, highMask := 0, 0, 0;
      stat, yieldBit, timedOut := Init, false, false;
    }
  }

  type Table = map<Index, seq<Thread>>

  /** The ready queue of a priority, rt_thread_priority_table[p]. */
  function At(queue: Table, p: bv8): seq<Thread> {
    if Index(p) in queue then queue[Index(p)] else []
  }

  function Nonempty(queue: Table): bv8 -> bool {
    p => At(queue, p) != []
  }

  /** Each queue holds READY threads of its priority, once, and every READY thread, except
      possibly `x`, is in the queue of its current priority. */
  ghost predicate QueuesFit(queue: Table, threads: set<Thread>, x: Thread?)
    reads threads`stat, threads`priority
  {
    && (forall p: bv8 :: Distinct(At(queue, p)))
    && (forall p: bv8, t :: t in At(queue, p) ==> t in threads && t != x && t.stat.Ready? && t.priority == p)
    && (forall t :: t in threads && t != x && t.stat.Ready? ==> t in At(queue, t.priority))
  }

  function Since(stamp: map<Thread, int>, t: Thread): int {
    if t in stamp then stamp[t] else -1
  }

  /** In every queue the threads stand in the order in which they came. */
  ghost predicate InArrival(queue: Table, stamp: map<Thread, int>, clock: int) {
    && 0 <= clock && (forall t :: t in stamp ==> stamp[t] < clock)
    && (forall p: bv8 :: Ascending(At(queue, p), stamp))
  }

  ghost predicate Ascending(s: seq<Thread>, stamp: map<Thread, int>) {
    forall i, j :: 0 <= i < j < |s| ==> Since(stamp, s[i]) < Since(stamp, s[j])
  }

  lemma LaterAscending(s: seq<Thread>, stamp: map<Thread, int>, t: Thread, clock: int, tail: seq<Thread>)
    requires Ascending(s, stamp) && t !in s && (tail == [] || tail == [t])
    requires 0 <= clock && forall x :: x in stamp ==> stamp[x] < clock
    ensures Ascending(s + tail, stamp[t := clock])
  {
    assert forall i :: 0 <= i < |s| ==> s[i] in s;
  }

  lemma CameLast(queue: Table, threads: set<Thread>, stamp: map<Thread, int>, clock: int, t: Thread)
    requires InArrival(queue, stamp, clock) && QueuesFit(queue, threads, t)
    ensures InArrival(queue[Index(t.priority) := At(queue, t.priority) + [t]], stamp[t := clock], clock + 1)
  {
    hide Ascending, Distinct;
    var queue' := queue[Index(t.priority) := At(queue, t.priority) + [t]];
    forall p: bv8
      ensures Ascending(At(queue', p), stamp[t := clock])
    {
      var tail := if p == t.priority then [t] else [];
      LaterAscending(At(queue, p), stamp, t, clock, tail);
      assert At(queue', p) == At(queue, p) + tail;
    }
  }

  lemma {:induction false} WithoutAscending(s: seq<Thread>, stamp: map<Thread, int>, t: Thread)
    requires Ascending(s, stamp)
    ensures Ascending(Without(s, t), stamp)
  {
    if s != [] {
      var rest := s[1..];
      assert forall i :: 0 <= i < |rest| ==> rest[i] == s[i + 1];
      WithoutAscending(rest, stamp, t);
      var r := Without(rest, t);
      forall j | 0 <= j < |r|
        ensures Since(stamp, s[0]) < Since(stamp, r[j])
      {
        WithoutMember(rest, t, r[j]);
        assert rest[IndexOf(rest, r[j])] == r[j];
      }
    }
  }

  lemma OneGone(queue: Table, stamp: map<Thread, int>, clock: int, t: Thread)
    requires InArrival(queue, stamp, clock)
    ensures InArrival(queue[Index(t.priority) := Without(At(queue, t.priority), t)], stamp, clock)
  {
    hide Without, Ascending;
    var queue' := queue[Index(t.priority) := Without(At(queue, t.priority), t)];
    WithoutAscending(At(queue, t.priority), stamp, t);
    assert forall p: bv8 :: At(queue', p) == if p == t.priority then Without(At(queue, p), t) else At(queue, p);
  }

  lemma InsertedFits(queue: Table, threads: set<Thread>, t: Thread)
    requires QueuesFit(queue, threads, t) && t in threads && t.stat.Ready?
    ensures var queue' := queue[Index(t.priority) := At(queue, t.priority) + [t]];
      QueuesFit(queue', threads, null)
  {
    hide Distinct;
    var queue' := queue[Index(t.priority) := At(queue, t.priority) + [t]];
    AppendDistinct(At(queue, t.priority), t);
    assert forall p: bv8 :: At(queue', p) == if p == t.priority then At(queue, p) + [t] else At(queue, p);
    assert forall p: bv8, x :: x in At(queue', p) ==> x in At(queue, p) || (x == t && p == t.priority);
  }

  lemma AppendDistinct(s: seq<Thread>, t: Thread)
    requires Distinct(s) && t !in s
    ensures Distinct(s + [t])
  {
  }

  lemma RemovedFits(queue: Table, threads: set<Thread>, t: Thread)
    requires QueuesFit(queue, threads, null) && t in threads
    ensures var queue' := queue[Index(t.priority) := Without(At(queue, t.priority), t)];
      QueuesFit(queue', threads, t) && forall p: bv8 :: At(queue', p) == Without(At(queue, p), t)
  {
    hide Distinct, Without;
    var rest := Without(At(queue, t.priority), t);
    var queue' := queue[Index(t.priority) := rest];
    WithoutDistinct(At(queue, t.priority), t);
    forall p: bv8
      ensures At(queue', p) == Without(At(queue, p), t)
    {
      if p != t.priority {
        WithoutAbsent(At(queue, p), t);
      }
    }
    assert forall p: bv8 :: At(queue', p) == if p == t.priority then rest else At(queue, p);
    forall x
      ensures x in rest <==> x in At(queue, t.priority) && x != t
    {
      WithoutMember(At(queue, t.priority), t, x);
    }
  }

  class Scheduler {
    const wide: bool  // RT_THREAD_PRIORITY_MAX > 32
    const idle: Thread
    var bits: Bits
    var queue: Table
    var current: Thread?
    var lockNest: int
    ghost var threads: set<Thread>
    ghost var ticks: nat  // how many ticks there have been
    // when each thread last went to the end of a queue, by a count of such arrivals
    ghost var stamp: map<Thread, int>
    ghost var clock: int

    /** All READY threads, except possibly `x`, are queued, and no others. */
    ghost predicate QueuesOk(x: Thread?)
      reads this`queue, this`threads, threads`stat, threads`priority
    {
      QueuesFit(queue, threads, x)
    }

    /** A bit is set exactly if its queue is not empty. */
    ghost predicate BitsOk()
      reads this`bits, this`queue
    {
      bits.Wide? == wide && bits.Shows(Nonempty(queue))
    }

    ghost predicate Attributes(t: Thread)
      reads t`priority, t`number, t`numberMask, t`highMask
    {
      && (wide || t.priority < 32)
      && t.number == Number(wide, t.priority)
      && t.numberMask == NumberMask(wide, t.priority)
      && t.highMask == HighMask(wide, t.priority)
    }

    ghost predicate ThreadsOk()
      reads this`threads, threads`stat, threads`priority, threads`number, threads`numberMask, threads`highMask
    {
      && (forall t :: t in threads && !t.stat.Init? ==> Attributes(t))
      && (forall t :: t in threads ==> wide || t.initPriority < 32)
    }

    /** Only the current thread is RUNNING, and the idle thread never blocks, unless it is `x`. */
    ghost predicate CurrentOk(x: Thread?)
      reads this, threads`stat
    {
      && (current != null ==> current in threads && (current.stat.Running? || current.stat.Suspend?))
      && (forall t :: t in threads && t.stat.Running? ==> t == current)
      && idle in threads && (idle != x ==> !idle.stat.Suspend?) && (current != null ==> !idle.stat.Init?)
    }

    ghost predicate ArrivalOk()
      reads this`queue, this`stamp, this`clock
    {
      InArrival(queue, stamp, clock)
    }

    ghost predicate Valid()
      reads this, threads
    {
      ValidBut(null)
    }

    /** The same, except that `x` may be the idle thread on its way to be READY. */
    ghost predicate ValidBut(x: Thread?)
      reads this, threads
    {
      QueuesOk(null) && ArrivalOk() && BitsOk() && ThreadsOk() && CurrentOk(x) && -LOCK_LIMIT <= lockNest < LOCK_LIMIT
    }

    /** rt_system_scheduler_init, with all threads still to be started. */
    constructor (wideTable: bool, idleThread: Thread, all: set<Thread>)
      requires idleThread in all
      requires forall t :: t in all ==> t.stat.Init? && (wideTable || t.initPriority < 32)
      ensures Valid() && current == null && lockNest == 0 && threads == all && wide == wideTable
      ensures idle == idleThread
    {
      wide, idle, queue, current, lockNest, threads := wideTable, idleThread, map[], null, 0, all;
      stamp, clock := map[], 0;
      bits := if wideTable then Wide(0, map[]) else Narrow(0);
      new;
      NothingShown(bits, Nonempty(queue));
    }

    /** rt_schedule_insert_thread: the current thread is RUNNING again, any other thread goes
        to the end of its queue. */
    method Insert(t: Thread)
      requires QueuesOk(t) && ArrivalOk() && BitsOk() && ThreadsOk() && t in threads && !t.stat.Init?
      modifies this`bits, this`queue, this`stamp, this`clock, t`stat
      ensures QueuesOk(null) && ArrivalOk() && BitsOk() && ThreadsOk()
      ensures forall x :: x != t ==> Since(stamp, x) == Since(old(stamp), x)
      ensures t.stat == if t == current then Running else Ready
      ensures forall p: bv8 ::
        At(queue, p) == if t != current && p == t.priority then At(old(queue), p) + [t] else At(old(queue), p)
    {
      hide Mask, Bits.Shows, Bits.Set, Number, NumberMask, HighMask, Nonempty, QueuesFit, Distinct, InArrival;
      if t == current {
        SetStat(t, Running);
        NotReadyFits(queue, threads, t);
        return;
      }
      CameLast(queue, threads, stamp, clock, t);
      stamp, clock := stamp[t := clock], clock + 1;
      SetStat(t, Ready);
      InsertedFits(queue, threads, t);
      SetQueued(bits, queue, t.priority, At(queue, t.priority) + [t]);
      queue := queue[Index(t.priority) := At(queue, t.priority) + [t]];
      bits := bits.Set(t.number, t.numberMask, t.highMask);
    }

    method SetStat(t: Thread, stat: Stat)
      requires QueuesOk(t) && ThreadsOk() && t in threads && (t.stat.Init? ==> Attributes(t)) && !stat.Init?
      modifies t`stat
      ensures QueuesOk(t) && ThreadsOk() && t.stat == stat
    {
      t.stat := stat;
    }

    /** rt_schedule_remove_thread; a thread that is in no queue stays in none. */
    method Remove(t: Thread)
      requires QueuesOk(null) && ArrivalOk() && BitsOk() && ThreadsOk() && t in threads && !t.stat.Init?
      modifies this`bits, this`queue
      ensures QueuesOk(t) && ArrivalOk() && BitsOk()
      ensures forall p: bv8 :: At(queue, p) == Without(At(old(queue), p), t)
    {
      hide Mask, Bits.Shows, Bits.Clear, Number, NumberMask, HighMask, Nonempty, QueuesFit, Distinct, InArrival;
      OneGone(queue, stamp, clock, t);
      RemovedFits(queue, threads, t);
      ClearEmptied(bits, queue, t.priority, Without(At(queue, t.priority), t));
      queue := queue[Index(t.priority) := Without(At(queue, t.priority), t)];
      if At(queue, t.priority) == [] {
        bits := bits.Clear(t.number, t.numberMask, t.highMask);
      }
    }

    /** What _get_highest_priority_thread finds: the first thread of the most urgent queue. */
    lemma HighestThread()
      requires QueuesOk(null) && BitsOk()
      ensures bits.group == 0 <==> forall t :: t in threads ==> !t.stat.Ready?
      ensures bits.group != 0 ==> At(queue, bits.Highest()) != []
      ensures bits.group != 0 ==> var to := At(queue, bits.Highest())[0];
        to in threads && to.stat.Ready? && to.priority == bits.Highest() && Foremost(to)
    {
      hide Bits.Shows, Bits.Highest, Rank;
      HighestIsLeast(bits, Nonempty(queue));
      forall t | t in threads && t.stat.Ready?
        ensures bits.group != 0 && Rank(bits.Highest()) <= Rank(t.priority)
      {
        RankOrder(bits.Highest(), t.priority);
        assert Nonempty(queue)(t.priority);
      }
      if bits.group != 0 {
        var p: bv8 :| Nonempty(queue)(p);
        assert Nonempty(queue)(bits.Highest());
        var to := At(queue, bits.Highest())[0];
        assert to in At(queue, bits.Highest());
        assert to in threads && to.stat.Ready?;
      }
    }

    /** A READY thread that the current one has to make way for. */
    ghost predicate Outranks(t: Thread)
      requires current != null
      reads this`current, t`stat, t`priority, current`stat, current`priority, current`yieldBit
    {
      && t.stat.Ready?
      && (!current.stat.Running? || Rank(t.priority) < Rank(current.priority)
          || (Rank(t.priority) == Rank(current.priority) && current.yieldBit))
    }

    ghost predicate MostUrgent()
      requires current != null
      reads this`current, this`threads, threads`stat, threads`priority, current`stat, current`priority
    {
      current.stat.Running? && Foremost(current)
    }

    /** No READY thread is more urgent than `to`. */
    ghost predicate Foremost(to: Thread)
      reads this`threads, threads`stat, threads`priority, to`priority
    {
      forall t :: t in threads && t.stat.Ready? ==> Rank(to.priority) <= Rank(t.priority)
    }

    /** rt_schedule: the first thread of the most urgent queue takes over exactly if it
        outranks the current thread and the scheduler is not locked. */
    method Schedule()
      requires Valid() && current != null
      modifies this`bits, this`queue, this`stamp, this`clock, this`current, threads`stat, threads`yieldBit
      ensures Valid() && current != null
      ensures current != old(current) <==> old(lockNest == 0 && exists t :: t in threads && Outranks(t))
      ensures lockNest == 0 ==> MostUrgent()
      ensures lockNest != 0 ==> queue == old(queue) && (old(MostUrgent()) ==> MostUrgent())
      ensures old(MostUrgent() && !current.yieldBit) ==> current == old(current)
      ensures lockNest == 0 && old(MostUrgent() && current.yieldBit) ==> Rotated(old(queue), old(current))
      ensures Switched(old(queue), old(current), old(current.stat))
      ensures forall t :: t in threads && t != current && t != old(current) ==> t.stat == old(t.stat)
      ensures forall t :: t in threads && old(t.stat.Ready? || t.stat.Running?) ==> t.stat.Ready? || t.stat.Running?
      ensures forall t :: t in threads ==>
        t.yieldBit == (old(t.yieldBit) && !(t == old(current) != current && old(current.stat).Running?))
      ensures forall x :: x in threads && x != old(current) ==> Since(stamp, x) == Since(old(stamp), x)
    {
      hide Valid, At, Without, Rank, Foremost, Outranks;
      NoneOutranks();
      if lockNest == 0 {
        ghost var from, turn := current, MostUrgent() && current.yieldBit;
        if turn {
          EqualOutranks();
          RotateOnce(At(queue, current.priority), current);
        }
        ScheduleUnlocked();
        if turn && current != from {
          RankOrder(current.priority, from.priority);
          OfForemost(current, from);
        }
      }
    }

    /** What rt_schedule does unless the scheduler is locked. */
    method ScheduleUnlocked()
      requires Valid() && current != null && lockNest == 0
      modifies this`bits, this`queue, this`stamp, this`clock, this`current, threads`stat, threads`yieldBit
      ensures Valid() && current != null && MostUrgent()
      ensures current != old(current) <==> old(exists t :: t in threads && Outranks(t))
      ensures Switched(old(queue), old(current), old(current.stat))
      ensures forall t :: t in threads && t != current && t != old(current) ==> t.stat == old(t.stat)
      ensures forall t :: t in threads && old(t.stat.Ready? || t.stat.Running?) ==> t.stat.Ready? || t.stat.Running?
      ensures forall t :: t in threads ==>
        t.yieldBit == (old(t.yieldBit) && !(t == old(current) != current && old(current.stat).Running?))
      ensures forall x :: x in threads && x != old(current) ==> Since(stamp, x) == Since(old(stamp), x)
    {
      hide ArrivalOk, QueuesFit, BitsOk, ThreadsOk, Bits.Highest, At, Without, Requeue, Outranks, MostUrgent, Rank;
      NobodyReady();
      if bits.group != 0 {
        var to := Choose();
        if to != current {
          Switch(to);
        } else {
          Stay();
        }
      }
    }

    /** `from`, which had the state `stat`, goes on, or it gives way to the head of a queue; if
        it was RUNNING it is then READY and last in its own queue. */
    ghost predicate Switched(was: Table, from: Thread, stat: Stat)
      requires current != null
      reads this`current, this`queue, from`stat, from`priority, current`priority
    {
      && from.stat == (if stat.Running? && current != from then Ready else stat)
      && (current == from ==> forall p: bv8 :: At(queue, p) == At(was, p))
      && (current != from ==>
            var to: Thread := current;
            && At(was, to.priority) != [] && to == At(was, to.priority)[0]
            && forall p: bv8 :: At(queue, p) == Without(Requeue(was, from, stat, p), to))
    }

    /** The thread rt_schedule wants to run; a current thread that has to make way loses its
        YIELD bit. */
    method Choose() returns (to: Thread)
      requires Valid() && current != null && bits.group != 0
      modifies current`yieldBit
      ensures Valid() && to in threads
      ensures to == current <==> old(!exists t :: t in threads && Outranks(t))
      ensures to == current ==> current.stat.Running? && MostUrgent() && current.yieldBit == old(current.yieldBit)
      ensures to != current ==>
        && to.stat.Ready? && At(queue, to.priority) != [] && to == At(queue, to.priority)[0] && Foremost(to)
        && (current.stat.Running? ==> Rank(to.priority) <= Rank(current.priority))
        && current.yieldBit == (old(current.yieldBit) && !current.stat.Running?)
    {
      hide ArrivalOk, QueuesFit, BitsOk, ThreadsOk, Bits.Highest, At, Outranks, MostUrgent, Rank, Foremost;
      HighestThread();
      var highest := bits.Highest();
      to := At(queue, highest)[0];
      Compare(to);
      assert Foremost(to);
      OutranksNow(to);
      if current.stat.Running? {
        if Rank(current.priority) < Rank(highest) {
          to := current;
        } else if Rank(current.priority) == Rank(highest) && !current.yieldBit {
          to := current;
        } else {
          current.yieldBit := false;
        }
      }
    }

    /** It is enough to compare the current thread with one most urgent READY thread. */
    lemma Compare(to: Thread)
      requires current != null && to in threads && to.stat.Ready? && Foremost(to)
      ensures (exists t :: t in threads && Outranks(t)) <==> Outranks(to)
      ensures !Outranks(to) ==> MostUrgent()
    {
    }

    /** Equal threads wait until the YIELD bit of the most urgent one is set. */
    lemma NoneOutranks()
      requires current != null
      ensures MostUrgent() && !current.yieldBit ==> forall t :: t in threads ==> !Outranks(t)
    {
    }

    lemma OutranksNow(t: Thread)
      requires current != null
      ensures Outranks(t) <==>
        (t.stat.Ready? && (!current.stat.Running? || Rank(t.priority) < Rank(current.priority)
                           || (Rank(t.priority) == Rank(current.priority) && current.yieldBit)))
    {
    }

    /** If `to` came first before, and only `from`, no more urgent, became READY, it still does. */
    lemma StillForemost(to: Thread, from: Thread, before: set<Thread>)
      requires forall t :: t in before ==> Rank(to.priority) <= Rank(t.priority)
      requires forall t :: t in threads && t.stat.Ready? ==> t in before || t == from
      requires from.stat.Ready? ==> Rank(to.priority) <= Rank(from.priority)
      ensures Foremost(to)
    {
    }

    lemma NobodyReady()
      requires Valid() && current != null
      ensures bits.group == 0 ==> MostUrgent() && forall t :: t in threads ==> !Outranks(t)
    {
      HighestThread();
    }

    method Switch(to: Thread)
      requires Valid() && current != null && to in threads && to.stat.Ready? && Foremost(to)
      requires current.stat.Running? ==> Rank(to.priority) <= Rank(current.priority)
      modifies this`bits, this`queue, this`stamp, this`clock, this`current, to`stat, current`stat
      ensures Valid() && current == to && MostUrgent() && to.stat.Running?
      ensures old(current).stat == if old(current.stat).Running? then Ready else old(current.stat)
      ensures forall p: bv8 :: At(queue, p) == Without(Requeue(old(queue), old(current), old(current.stat), p), to)
      ensures forall x :: x in threads && x != old(current) ==> Since(stamp, x) == Since(old(stamp), x)
    {
      hide ArrivalOk, QueuesFit, BitsOk, ThreadsOk, At, Without, Foremost, Rank;
      var from := current;
      ghost var before := ReadyOnes(to);
      current := to;
      if from.stat.Running? {
        NotQueued(queue, threads, from);
        Insert(from);
      }
      Remove(to);
      SetStat(to, Running);
      NotReadyFits(queue, threads, to);
      StillForemost(to, from, before);
    }

    lemma ReadyOnes(to: Thread) returns (before: set<Thread>)
      requires Foremost(to)
      ensures forall t :: t in before <==> t in threads && t.stat.Ready?
      ensures forall t :: t in before ==> Rank(to.priority) <= Rank(t.priority)
    {
      before := set t | t in threads && t.stat.Ready?;
    }

    method Stay()
      requires Valid() && current != null && current.stat.Running?
      modifies this`bits, this`queue, current`stat
      ensures Valid() && current.stat.Running? && (old(MostUrgent()) ==> MostUrgent())
      ensures forall p: bv8 :: At(queue, p) == At(old(queue), p)
    {
      hide ArrivalOk, QueuesFit, BitsOk, ThreadsOk, At, Without, Rank;
      NotQueued(queue, threads, current);
      Remove(current);
      SetStat(current, Running);
      NotReadyFits(queue, threads, current);
    }

    /** rt_system_scheduler_start. */
    method Start()
      requires Valid() && current == null && idle.stat.Ready?
      modifies this`bits, this`queue, this`current, threads`stat
      ensures Valid() && current != null && MostUrgent()
      ensures forall t :: t in threads && t != current ==> t.stat == old(t.stat)
      ensures var to: Thread := current;
        At(old(queue), to.priority) != [] && to == At(old(queue), to.priority)[0]
        && forall p: bv8 :: At(queue, p) == Without(At(old(queue), p), to)
    {
      hide ArrivalOk, QueuesFit, BitsOk, ThreadsOk, Bits.Highest, At, Without, Foremost, Rank;
      HighestThread();
      var to := At(queue, bits.Highest())[0];
      ghost var before := ReadyOnes(to);
      current := to;
      Remove(to);
      SetStat(to, Running);
      NotReadyFits(queue, threads, to);
      StillForemost(to, to, before);
    }

    /** rt_thread_suspend. A RUNNING thread is the current one. */
    method Suspend(t: Thread) returns (ok: bool)
      requires Valid() && t in threads && t != idle
      modifies this`bits, this`queue, t`stat
      ensures Valid() && ok == (old(t.stat).Ready? || old(t.stat).Running?)
      ensures t.stat == if ok then Stat.Suspend else old(t.stat)
      ensures forall p: bv8 :: At(queue, p) == if ok then Without(At(old(queue), p), t) else At(old(queue), p)
    {
      hide ArrivalOk, QueuesFit, BitsOk, ThreadsOk, At, Without;
      if !t.stat.Ready? && !t.stat.Running? {
        return false;
      }
      Remove(t);
      SetStat(t, Stat.Suspend);
      NotReadyFits(queue, threads, t);
      return true;
    }

    /** `x` will outrank the current thread once `t`, which is not READY or RUNNING, goes on
        with the priority `p`: as the current thread it is then RUNNING, and otherwise READY. */
    ghost predicate WillOutrank(x: Thread, t: Thread, p: bv8)
      requires current != null
      reads this`current, x`stat, x`priority, current`stat, current`priority, current`yieldBit
    {
      var mine, other := if current == t then p else current.priority, if x == t then p else x.priority;
      && x != current && (x == t || x.stat.Ready?)
      && ((current != t && !current.stat.Running?) || Rank(other) < Rank(mine)
          || (Rank(other) == Rank(mine) && current.yieldBit))
    }

    /** A suspended thread goes on. */
    method GoOn(t: Thread)
      requires ValidBut(t) && t in threads && t.stat.Suspend?
      modifies this`bits, this`queue, this`stamp, this`clock, t`stat
      ensures Valid() && t.stat == if t == current then Running else Ready
      ensures current != null ==> forall x :: x in threads ==> (Outranks(x) <==> old(WillOutrank(x, t, t.priority)))
      ensures forall p: bv8 ::
        At(queue, p) == if t != current && p == t.priority then At(old(queue), p) + [t] else At(old(queue), p)
      ensures forall x :: x in threads && x != t ==> Since(stamp, x) == Since(old(stamp), x)
    {
      hide ArrivalOk, QueuesFit, BitsOk, ThreadsOk, At, Rank;
      NotQueued(queue, threads, t);
      Insert(t);
    }

    /** rt_thread_resume. */
    method Resume(t: Thread) returns (ok: bool)
      requires Valid() && t in threads
      modifies this`bits, this`queue, this`stamp, this`clock, t`stat
      ensures Valid() && ok == old(t.stat).Suspend?
      ensures t.stat == if !ok then old(t.stat) else if t == current then Running else Ready
      ensures forall p: bv8 :: 
        At(queue, p) == if ok && t != current && p == t.priority then At(old(queue), p) + [t] else At(old(queue), p)
      ensures forall x :: x in threads && x != t ==> Since(stamp, x) == Since(old(stamp), x)
    {
      hide ArrivalOk, QueuesFit, BitsOk, ThreadsOk, At;
      if !t.stat.Suspend? {
        return false;
      }
      GoOn(t);
      return true;
    }

    /** rt_thread_timeout: the timer of a suspended thread has expired. */
    method Timeout(t: Thread)
      requires Valid() && current != null && t in threads && t.stat.Suspend?
      modifies this`bits, this`queue, this`stamp, this`clock, this`current, threads`stat, threads`yieldBit, t`timedOut
      ensures Valid() && current != null && t.timedOut && !t.stat.Suspend?
      ensures current != old(current) <==> old(lockNest == 0 && exists x :: x in threads && WillOutrank(x, t, t.priority))
      ensures lockNest == 0 ==> MostUrgent()
      ensures current == old(current) ==> forall p: bv8 ::
        At(queue, p) == if t != current && p == t.priority then At(old(queue), p) + [t] else At(old(queue), p)
      ensures forall x :: x in threads && x != t && x != old(current) ==> Since(stamp, x) == Since(old(stamp), x)
      ensures forall x :: x in threads && x != t && x != old(current) ==>
        x.yieldBit == old(x.yieldBit) && (x != current ==> x.stat == old(x.stat))
    {
      hide ArrivalOk, QueuesFit, BitsOk, ThreadsOk, At, Rank, WillOutrank;
      t.timedOut := true;
      GoOnAndSchedule(t);
    }

    /** A suspended thread goes on, and runs at once if it may. */
    method GoOnAndSchedule(t: Thread)
      requires ValidBut(t) && current != null && t in threads && t.stat.Suspend?
      modifies this`bits, this`queue, this`stamp, this`clock, this`current, threads`stat, threads`yieldBit
      ensures Valid() && current != null && !t.stat.Suspend? && !t.stat.Init?
      ensures current != old(current) <==> old(lockNest == 0 && exists x :: x in threads && WillOutrank(x, t, t.priority))
      ensures lockNest == 0 ==> MostUrgent()
      ensures current == old(current) ==> forall p: bv8 ::
        At(queue, p) == if t != current && p == t.priority then At(old(queue), p) + [t] else At(old(queue), p)
      ensures forall x :: x in threads && x != t && x != old(current) ==> Since(stamp, x) == Since(old(stamp), x)
      ensures forall x :: x in threads && x != t && x != old(current) ==>
        x.yieldBit == old(x.yieldBit) && (x != current ==> x.stat == old(x.stat))
    {
      hide Valid, MostUrgent, Rotated, Requeue, Without, At, Rank, Outranks, WillOutrank;
      GoOn(t);
      Schedule();
    }

    method SetPriority(t: Thread, p: bv8)
      requires QueuesOk(t) && ThreadsOk() && t in threads && (wide || p < 32)
      modifies t`priority, t`number, t`numberMask, t`highMask
      ensures QueuesOk(t) && ThreadsOk() && t.priority == p && Attributes(t)
    {
      hide Number, NumberMask, HighMask;
      t.priority := p;
      t.number := Number(wide, p);
      t.numberMask := NumberMask(wide, p);
      t.highMask := HighMask(wide, p);
    }

    /** A thread that starts is suspended first. */
    method Prepare(t: Thread)
      requires Valid() && t in threads && t.stat.Init?
      modifies t`stat, t`priority, t`number, t`numberMask, t`highMask
      ensures ValidBut(t) && t.stat.Suspend? && t.priority == t.initPriority && t != current
    {
      hide ArrivalOk, QueuesFit, BitsOk, Number, NumberMask, HighMask;
      NotQueued(queue, threads, t);
      SetPriority(t, t.initPriority);
      SetStat(t, Stat.Suspend);
      NotReadyFits(queue, threads, t);
    }

    /** rt_thread_startup. */
    method Startup(t: Thread)
      requires Valid() && t in threads && t.stat.Init?
      modifies this`bits, this`queue, this`stamp, this`clock, this`current, threads`stat, threads`yieldBit,
               t`priority, t`number, t`numberMask, t`highMask
      ensures Valid() && !t.stat.Init? && !t.stat.Suspend? && t.priority == t.initPriority
      ensures current == null <==> old(current) == null
      ensures current != null ==>
        (current != old(current) <==> old(lockNest == 0 && exists x :: x in threads && WillOutrank(x, t, t.initPriority)))
      ensures current == old(current) ==> forall p: bv8 ::
        At(queue, p) == if p == t.priority then At(old(queue), p) + [t] else At(old(queue), p)
      ensures current != null && lockNest == 0 ==> MostUrgent()
      ensures forall x :: x in threads && x != t && x != old(current) ==> Since(stamp, x) == Since(old(stamp), x)
      ensures forall x :: x in threads && x != t && x != old(current) ==>
        x.yieldBit == old(x.yieldBit) && (x != current ==> x.stat == old(x.stat))
    {
      hide Valid, MostUrgent, At, Rank;
      Prepare(t);
      if current != null {
        GoOnAndSchedule(t);
      } else {
        GoOn(t);
      }
    }

    /** rt_thread_control with RT_THREAD_CTRL_CHANGE_PRIORITY: a READY thread moves to the end
        of its new queue. No schedule follows, so a READY thread may be left more urgent than
        the current one until the next one. */
    method ChangePriority(t: Thread, p: bv8)
      requires Valid() && t in threads && (wide || p < 32)
      modifies this`bits, this`queue, this`stamp, this`clock, t`stat, t`priority, t`number, t`numberMask, t`highMask
      ensures Valid() && t.priority == p && t.stat == old(t.stat)
      ensures forall q: bv8 ::
        At(queue, q) == if t.stat.Ready? then Moved(Without(At(old(queue), q), t), t, q == p) else At(old(queue), q)
      ensures forall x :: x in threads && x != t ==> Since(stamp, x) == Since(old(stamp), x)
    {
      hide ArrivalOk, QueuesFit, BitsOk, ThreadsOk, At, Without, Number, NumberMask, HighMask;
      if t.stat.Ready? {
        Remove(t);
        SetPriority(t, p);
        Insert(t);
      } else {
        NotQueued(queue, threads, t);
        SetPriority(t, p);
        NotReadyFits(queue, threads, t);
      }
    }

    /** rt_thread_yield. It does not set the YIELD bit, so equal threads wait for the tick. */
    method Yield()
      requires Valid() && current != null
      modifies this`bits, this`queue, this`stamp, this`clock, this`current, threads`stat, threads`yieldBit
      ensures old(MostUrgent() && !current.yieldBit) ==> current == old(current)
      ensures Valid() && current != null && (lockNest == 0 ==> MostUrgent())
      ensures current != old(current) <==> old(lockNest == 0 && exists t :: t in threads && Outranks(t))
      ensures forall x :: x in threads && x != old(current) ==> Since(stamp, x) == Since(old(stamp), x)
      ensures forall x :: x in threads && x != old(current) ==>
        x.yieldBit == old(x.yieldBit) && (x != current ==> x.stat == old(x.stat))
      ensures old(current) != null ==>
        old(current).stat == if old(current.stat).Running? && current != old(current) then Ready else old(current.stat)
    {
      hide Valid, MostUrgent, Outranks, Rotated;
      Schedule();
    }

    /** rt_enter_critical; the counter has 16 bits. The scheduler is locked afterwards. */
    method EnterCritical()
      requires Valid()
      modifies this`lockNest
      ensures Valid() && lockNest == Entered(old(lockNest)) && (0 <= old(lockNest) ==> lockNest != 0)
      ensures lockNest == if old(lockNest) < 32767 then old(lockNest) + 1 else -32768
    {
      hide ArrivalOk, QueuesFit, BitsOk, ThreadsOk;
      lockNest := if lockNest == LOCK_LIMIT - 1 then -LOCK_LIMIT else lockNest + 1;
    }

    /** rt_exit_critical: the outermost exit schedules. */
    method ExitCritical()
      requires Valid()
      modifies this`lockNest, this`bits, this`queue, this`stamp, this`clock, this`current, threads`stat, threads`yieldBit
      ensures Valid() && (current == null <==> old(current) == null)
      ensures lockNest == Exited(old(lockNest))
      ensures 1 < old(lockNest) ==> lockNest == old(lockNest) - 1
      ensures -32768 < old(lockNest) <= 1 ==> lockNest == 0
      ensures old(current != null && MostUrgent() && !current.yieldBit) ==> current == old(current)
      ensures lockNest == 0 && current != null ==> MostUrgent()
      ensures old(current) != null ==>
        (current != old(current) <==> lockNest == 0 && old(exists t :: t in threads && Outranks(t)))
      ensures lockNest == 0 && old(current) != null && old(MostUrgent() && current.yieldBit) ==>
        Rotated(old(queue), old(current))
      ensures lockNest != 0 ==> queue == old(queue) && forall t :: t in threads ==> t.yieldBit == old(t.yieldBit)
      ensures lockNest != 0 && current != null ==> (old(MostUrgent()) ==> MostUrgent())
      ensures forall x :: x in threads && x != old(current) ==> Since(stamp, x) == Since(old(stamp), x)
      ensures forall x :: x in threads && x != old(current) ==>
        x.yieldBit == old(x.yieldBit) && (x != current ==> x.stat == old(x.stat))
      ensures old(current) != null ==>
        old(current).stat == if old(current.stat).Running? && current != old(current) then Ready else old(current.stat)
    {
      hide ArrivalOk, QueuesFit, BitsOk, ThreadsOk, At;
      lockNest := if lockNest == -LOCK_LIMIT then LOCK_LIMIT - 1 else lockNest - 1;
      if lockNest <= 0 {
        lockNest := 0;
        if current != null {
          Schedule();
        }
      }
    }

    /** The time slice part of rt_tick_increase. */
    method TickSlice()
      requires Valid() && current != null
      modifies this`bits, this`queue, this`stamp, this`clock, this`current, this`ticks, threads`stat, threads`yieldBit, threads`remaining
      ensures Valid() && current != null && ticks == old(ticks) + 1
      ensures lockNest != 0 ==> current == old(current)
      ensures forall t :: t in threads && t != old(current) ==> t.remaining == old(t.remaining)
      ensures var left := (old(current.remaining) - 1) % 0x1_0000_0000;
        old(current).remaining == if left == 0 then old(current).initTick else left
      ensures (old(current.remaining) - 1) % 0x1_0000_0000 != 0 ==>
        current == old(current) && queue == old(queue) && current.stat == old(current.stat)
        && (old(MostUrgent()) ==> MostUrgent())
      ensures (old(current.remaining) - 1) % 0x1_0000_0000 == 0 && lockNest == 0 ==>
        MostUrgent() && (old(MostUrgent()) ==> Rotated(old(queue), old(current)))
      ensures forall x :: x in threads && x != old(current) ==> Since(stamp, x) == Since(old(stamp), x)
      ensures forall x :: x in threads && x != old(current) ==>
        x.yieldBit == old(x.yieldBit) && (x != current ==> x.stat == old(x.stat))
      ensures old(current) != null ==>
        old(current).stat == if old(current.stat).Running? && current != old(current) then Ready else old(current.stat)
      ensures (old(current.remaining) - 1) % 0x1_0000_0000 == 0 && lockNest != 0 ==>
        current.yieldBit && queue == old(queue) && current.stat == old(current.stat)
        && (old(MostUrgent()) ==> MostUrgent())
    {
      hide ArrivalOk, QueuesFit, BitsOk, ThreadsOk, At, Without, Rank, Foremost;
      ticks := ticks + 1;
      current.remaining := (current.remaining - 1) % TICK_LIMIT;
      if current.remaining == 0 {
        current.remaining := current.initTick;
        SliceEnds();
      }
    }

    /** A time slice that ends inside critical sections is not lost: with the last exit the next
        thread of the same priority runs, and the one that ran is last in line. */
    method SliceThenExits()
      requires Valid() && current != null && MostUrgent() && 0 < lockNest && current.remaining == 1
      modifies this`lockNest, this`bits, this`queue, this`stamp, this`clock, this`current, this`ticks,
               threads`stat, threads`yieldBit, threads`remaining
      ensures Valid() && lockNest == 0 && current != null && MostUrgent() && Rotated(old(queue), old(current))
    {
      hide Valid, MostUrgent, Rotated;
      ghost var from, was := current, queue;
      TickSlice();
      while lockNest != 0
        invariant Valid() && 0 <= lockNest && current != null && MostUrgent()
        invariant lockNest != 0 ==> current == from && current.yieldBit && queue == was
        invariant lockNest == 0 ==> Rotated(was, from)
        decreases lockNest
      {
        CurrentKnown();
        ExitCritical();
      }
    }

    /** The time slice of the current thread is over: it yields. */
    method SliceEnds()
      requires Valid() && current != null
      modifies this`bits, this`queue, this`stamp, this`clock, this`current, threads`stat, threads`yieldBit
      ensures Valid() && current != null
      ensures lockNest == 0 ==> MostUrgent() && (old(MostUrgent()) ==> Rotated(old(queue), old(current)))
      ensures lockNest != 0 ==>
        && current == old(current) && current.yieldBit && queue == old(queue) && current.stat == old(current.stat)
        && (old(MostUrgent()) ==> MostUrgent())
      ensures forall x :: x in threads && x != old(current) ==> Since(stamp, x) == Since(old(stamp), x)
      ensures forall x :: x in threads && x != old(current) ==>
        x.yieldBit == old(x.yieldBit) && (x != current ==> x.stat == old(x.stat))
      ensures old(current) != null ==>
        old(current).stat == if old(current.stat).Running? && current != old(current) then Ready else old(current.stat)
    {
      hide Valid, MostUrgent, Rotated;
      CurrentKnown();
      SetYield();
      Schedule();
    }

    lemma CurrentKnown()
      requires Valid() && current != null
      ensures current in threads && !current.stat.Init? && !current.stat.Ready?
    {
    }

    method SetYield()
      requires Valid() && current != null
      modifies current`yieldBit
      ensures Valid() && current.yieldBit && current in threads && (old(MostUrgent()) ==> MostUrgent())
    {
      hide ArrivalOk, QueuesFit, BitsOk, ThreadsOk;
      current.yieldBit := true;
    }

    lemma OfForemost(to: Thread, t: Thread)
      requires Foremost(to) && t in threads && t.stat.Ready?
      ensures Rank(to.priority) <= Rank(t.priority)
    {
    }

    /** When nothing is more urgent than a current thread whose YIELD bit is set, the READY
        threads that outrank it are those in its own queue. */
    lemma EqualOutranks()
      requires Valid() && current != null && MostUrgent() && current.yieldBit
      ensures (exists t :: t in threads && Outranks(t)) <==> At(queue, current.priority) != []
      ensures forall p: bv8 :: At(queue, p) != [] ==> Rank(current.priority) <= Rank(p)
      ensures Distinct(At(queue, current.priority)) && current !in At(queue, current.priority)
    {
      hide Rank, BitsOk, ThreadsOk;
      var line := At(queue, current.priority);
      if line != [] {
        assert line[0] in line;
        assert Outranks(line[0]);
      }
      forall t | t in threads && Outranks(t)
        ensures line != []
      {
        RankOrder(t.priority, current.priority);
      }
      forall p: bv8 | At(queue, p) != []
        ensures Rank(current.priority) <= Rank(p)
      {
        assert At(queue, p)[0] in At(queue, p);
        OfForemost(current, At(queue, p)[0]);
      }
    }

    /** The queue of the current thread was empty and it goes on, or its head runs and the
        thread that ran before is last in line. */
    ghost predicate Rotated(was: Table, from: Thread)
      requires current != null
      reads this`current, this`queue, from`priority, current`priority
    {
      var line := At(was, from.priority);
      && current.priority == from.priority
      && current == (if line == [] then from else line[0])
      && At(queue, from.priority) == (if line == [] then [] else line[1..] + [from])
    }

    /** The current thread and the READY threads of its priority, in the order they run. */
    ghost function Round(): seq<Thread>
      reads this`current, this`queue, (if current == null then {} else {current})`priority
    {
      if current == null then [] else [current] + At(queue, current.priority)
    }

    /** The scheduler is not locked, nothing is more urgent than the current thread, and the
        threads of its priority have sound slices. */
    ghost predicate Steady()
      reads this, threads, current
    {
      && Valid() && current != null && lockNest == 0 && MostUrgent()
      && forall t :: t in threads && t in Round() ==> 0 < t.remaining < TICK_LIMIT && 0 < t.initTick < TICK_LIMIT
    }

    /** All but the last of the ticks that the current thread has left: nothing else runs. */
    method RunDown() returns (log: seq<Thread>)
      requires Valid() && current != null && lockNest == 0 && MostUrgent() && 0 < current.remaining < TICK_LIMIT
      modifies this`bits, this`queue, this`stamp, this`clock, this`current, this`ticks, threads`stat, threads`yieldBit, threads`remaining
      ensures Valid() && current == old(current) && queue == old(queue) && MostUrgent() && current.remaining == 1
      ensures ticks == old(ticks) + |log| && |log| == old(current.remaining) - 1
      ensures forall k :: 0 <= k < |log| ==> log[k] == current
      ensures forall t :: t in threads && t != current ==> t.remaining == old(t.remaining)
    {
      hide Valid, MostUrgent, At, Rotated;
      ghost var from: Thread, before := current, queue;
      var n := current.remaining;
      log := [];
      while current.remaining != 1
        invariant Valid() && current == from && queue == before && lockNest == 0 && MostUrgent()
        invariant 0 < from.remaining < TICK_LIMIT && |log| + from.remaining == n && ticks == old(ticks) + |log|
        invariant forall k :: 0 <= k < |log| ==> log[k] == from
        invariant forall t :: t in threads && t != from ==> t.remaining == old(t.remaining)
        decreases current.remaining
      {
        TickSlice();
        log := log + [current];
      }
    }

    /** The ticks that the current thread has left, during which nothing else runs; `log` is
        the thread that runs after each. Then the next in line runs. */
    method Turn() returns (log: seq<Thread>)
      requires Steady()
      modifies this`bits, this`queue, this`stamp, this`clock, this`current, this`ticks, threads`stat, threads`yieldBit, threads`remaining
      ensures ticks == old(ticks) + |log|
      ensures Steady() && |log| == old(current.remaining) && log[|log| - 1] == current
      ensures forall k :: 0 <= k < |log| - 1 ==> log[k] == old(current)
      ensures Round() == old(Round()[1..] + [current])
      ensures forall t :: t in threads && t != old(current) ==> t.remaining == old(t.remaining)
    {
      hide Valid, MostUrgent, At;
      InThreads();
      log := RunDown();
      TickSlice();
      log := log + [current];
    }

    lemma InThreads()
      requires Valid() && current != null
      ensures forall t :: t in Round() ==> t in threads
    {
    }

    /** Round robin: the READY thread in place `i` among those of the current thread's
        priority runs after exactly the ticks that the threads before it have left, and not
        before. */
    method RunsAfter(i: nat) returns (log: seq<Thread>)
      requires Steady() && i < |Round()|
      modifies this`bits, this`queue, this`stamp, this`clock, this`current, this`ticks, threads`stat, threads`yieldBit, threads`remaining
      ensures Steady() && current == old(Round()[i]) && ticks == old(ticks) + |log|
      ensures |log| == old(Slices(Round()[..i])) && (0 < i ==> 0 < |log| && log[|log| - 1] == current)
      ensures forall k :: 0 <= k < |log| - 1 ==> log[k] != current
      decreases i
    {
      hide Steady, Distinct, Slices;
      RoundFacts();
      ghost var round := Round();
      NoSlices(round[..0]);
      if i == 0 {
        return [];
      }
      ghost var ahead := round[1..i];
      FirstSlice(round, i);
      log := Turn();
      RoundFacts();
      assert Round()[..i - 1] == ahead && Round()[i - 1] == round[i];
      var rest := RunsAfter(i - 1);
      log := log + rest;
    }

    /** Of m threads that share the top priority, each with at most `slice` ticks left, every
        one runs within (m - 1) * slice ticks. */
    method RunsWithin(t: Thread, slice: int)
      requires Steady() && t in Round() && forall x :: x in Round() ==> x.remaining <= slice
      modifies this`bits, this`queue, this`stamp, this`clock, this`current, this`ticks, threads`stat, threads`yieldBit, threads`remaining
      ensures Steady() && current == t && ticks <= old(ticks) + (|old(Round())| - 1) * slice
    {
      hide *;
      RoundFacts();
      var i := Place(t);
      Ahead(Round(), i, slice);
      var log := RunsAfter(i);
    }

    method Place(t: Thread) returns (i: nat)
      requires current != null && t in Round()
      ensures i < |Round()| && Round()[i] == t
    {
      hide At;
      if current == t {
        return 0;
      }
      i := Find(At(queue, current.priority), t);
      i := i + 1;
    }

    lemma RoundFacts()
      requires Steady()
      ensures current != null && Round() != [] && Round()[0] == current && Distinct(Round())
      ensures forall t :: t in Round() ==> t in threads
      ensures 0 < current.remaining
    {
      hide BitsOk, ThreadsOk, ArrivalOk;
      assert current in Round();
    }
  }

  /** The nesting count after an enter and after an exit: a signed 16-bit number, which an exit
      does not leave negative. */
  function Entered(n: int): int {
    if n == LOCK_LIMIT - 1 then -LOCK_LIMIT else n + 1
  }

  function Exited(n: int): int {
    var m := if n == -LOCK_LIMIT then LOCK_LIMIT - 1 else n - 1;
    if m <= 0 then 0 else m
  }

  /** The count after `k` enters, and after `j` exits from `n`. */
  function Enters(k: nat): int {
    if k == 0 then 0 else Entered(Enters(k - 1))
  }

  function Exits(n: int, j: nat): int {
    if j == 0 then n else Exited(Exits(n, j - 1))
  }

  lemma {:induction false} EntersWrap(k: nat)
    ensures Enters(k) == (k + LOCK_LIMIT) % (2 * LOCK_LIMIT) - LOCK_LIMIT
  {
    if k != 0 {
      EntersWrap(k - 1);
    }
  }

  lemma {:induction false} ExitsCount(n: int, j: nat)
    requires -LOCK_LIMIT <= n < LOCK_LIMIT
    ensures var m := if n == -LOCK_LIMIT then LOCK_LIMIT else n;
      0 < j ==> Exits(n, j) == if m <= j then 0 else m - j
  {
    if j != 0 {
      ExitsCount(n, j - 1);
    }
  }

  /** The count after `k` enters and then `j` exits. */
  function Nested(k: nat, j: nat): int {
    Exits(Enters(k), j)
  }

  lemma NestedCount(k: nat, j: nat)
    ensures j == 0 ==> Nested(k, j) == (k + LOCK_LIMIT) % (2 * LOCK_LIMIT) - LOCK_LIMIT
    ensures 0 < j ==>
      var n := (k + LOCK_LIMIT) % (2 * LOCK_LIMIT) - LOCK_LIMIT;
      var m := if n == -LOCK_LIMIT then LOCK_LIMIT else n;
      Nested(k, j) == if m <= j then 0 else m - j
  {
    EntersWrap(k);
    ExitsCount(Enters(k), j);
  }

  /** Nested critical sections keep the scheduler locked until the last exit exactly if there
      are no more than 32768 of them. */
  lemma NestsUpTo(k: nat)
    ensures (forall j: nat :: j < k ==> Nested(k, j) != 0) <==> k <= 32768
  {
    hide Nested;
    if k <= LOCK_LIMIT {
      forall j: nat | j < k
        ensures Nested(k, j) != 0
      {
        NestedCount(k, j);
      }
    } else {
      var n := (k + LOCK_LIMIT) % (2 * LOCK_LIMIT) - LOCK_LIMIT;
      var j: nat := if n == -LOCK_LIMIT then LOCK_LIMIT else if n <= 1 then 1 else n;
      NestedCount(k, j);
      assert Nested(k, j) == 0 && j < k;
    }
  }

  method Find(line: seq<Thread>, t: Thread) returns (i: nat)
    requires t in line
    ensures i < |line| && line[i] == t
  {
    i := 0;
    while line[i] != t
      invariant i < |line| && t in line[i..]
      decreases |line| - i
    {
      assert line[i..] == [line[i]] + line[i + 1..];
      i := i + 1;
    }
  }

  lemma RotateOnce(line: seq<Thread>, from: Thread)
    requires Distinct(line) && from !in line
    ensures line != [] ==> Without(line + [from], line[0]) == line[1..] + [from]
  {
    if line != [] {
      assert line + [from] == [line[0]] + (line[1..] + [from]);
      WithoutAbsent(line[1..] + [from], line[0]);
    }
  }

  function Moved(s: seq<Thread>, t: Thread, here: bool): seq<Thread> {
    if here then s + [t] else s
  }

  ghost function Slices(ts: seq<Thread>): int
    reads ts`remaining
  {
    if ts == [] then 0 else ts[0].remaining + Slices(ts[1..])
  }

  lemma NoSlices(ts: seq<Thread>)
    requires ts == []
    ensures Slices(ts) == 0
  {
  }

  lemma FirstSlice(round: seq<Thread>, i: nat)
    requires 0 < i < |round| && Distinct(round)
    ensures Slices(round[..i]) == round[0].remaining + Slices(round[1..i])
    ensures round[0] !in round[1..i] && round[0] != round[i] && (1 < i ==> round[1] != round[i])
  {
    assert round[..i][1..] == round[1..i];
  }

  /** Between any two states, however many calls apart, two threads of one queue that have not
      come to it again since keep their order: it is the order in which they came. */
  lemma OrderKept(queue: Table, stamp: map<Thread, int>, clock: int, queue': Table, stamp': map<Thread, int>, clock': int,
                  p: bv8, a: Thread, b: Thread)
    requires InArrival(queue, stamp, clock) && InArrival(queue', stamp', clock')
    requires a in At(queue, p) && b in At(queue, p) && a in At(queue', p) && b in At(queue', p)
    requires Since(stamp, a) == Since(stamp', a) && Since(stamp, b) == Since(stamp', b)
    ensures IndexOf(At(queue, p), a) < IndexOf(At(queue, p), b) <==> IndexOf(At(queue', p), a) < IndexOf(At(queue', p), b)
    ensures IndexOf(At(queue, p), a) < IndexOf(At(queue, p), b) <==> Since(stamp, a) < Since(stamp, b)
  {
    assert Ascending(At(queue, p), stamp) && Ascending(At(queue', p), stamp');
  }

  lemma Ahead(round: seq<Thread>, i: nat, slice: int)
    requires i < |round| && 0 <= round[0].remaining && forall t :: t in round ==> t.remaining <= slice
    ensures Slices(round[..i]) <= (|round| - 1) * slice
  {
    hide Slices;
    var m := |round| - 1 - i;
    WaitBound(round[..i], slice);
    Distribute(m, i, slice);
    NonNegative(m, slice);
  }

  /** No thread waits longer than (m - 1) full slices, when m threads share the priority. */
  lemma {:induction false} WaitBound(ts: seq<Thread>, slice: int)
    requires forall t :: t in ts ==> t.remaining <= slice
    ensures Slices(ts) <= |ts| * slice
  {
    if ts != [] {
      WaitBound(ts[1..], slice);
      Distribute(|ts| - 1, 1, slice);
    }
  }

  lemma NotQueued(queue: Table, threads: set<Thread>, t: Thread)
    requires QueuesFit(queue, threads, null) && !t.stat.Ready?
    ensures forall p: bv8 :: Without(At(queue, p), t) == At(queue, p)
    ensures QueuesFit(queue, threads, t)
  {
    forall p: bv8
      ensures Without(At(queue, p), t) == At(queue, p)
    {
      WithoutAbsent(At(queue, p), t);
    }
  }

  /** The queue of priority `p` with a thread that was RUNNING put at its end. */
  function Requeue(queue: Table, from: Thread, stat: Stat, p: bv8): seq<Thread>
    reads from`priority
  {
    if stat.Running? && p == from.priority then At(queue, p) + [from] else At(queue, p)
  }

  lemma NotReadyFits(queue: Table, threads: set<Thread>, t: Thread)
    requires QueuesFit(queue, threads, t) && !t.stat.Ready?
    ensures QueuesFit(queue, threads, null)
  {
  }

  lemma NothingShown(b: Bits, ready: bv8 -> bool)
    requires b == Narrow(0) || b == Wide(0, map[])
    requires forall p: bv8 :: !ready(p)
    ensures b.Shows(ready)
  {
  }

  lemma SetQueued(b: Bits, q: Table, p: bv8, s: seq<Thread>)
    requires b.Shows(Nonempty(q)) && s != [] && (b.Narrow? ==> p < 32)
    ensures var b' := b.Set(Number(b.Wide?, p), NumberMask(b.Wide?, p), HighMask(b.Wide?, p));
      b'.Shows(Nonempty(q[Index(p) := s])) && b'.Wide? == b.Wide?
  {
    hide Bits.Shows;
    SetShows(b, Nonempty(q), p);
    ShowsSame(b.Set(Number(b.Wide?, p), NumberMask(b.Wide?, p), HighMask(b.Wide?, p)),
              r => r == p || Nonempty(q)(r), Nonempty(q[Index(p) := s]));
  }

  lemma ClearEmptied(b: Bits, q: Table, p: bv8, s: seq<Thread>)
    requires b.Shows(Nonempty(q)) && (b.Narrow? ==> p < 32) && (At(q, p) == [] ==> s == [])
    ensures var b' := if s == [] then b.Clear(Number(b.Wide?, p), NumberMask(b.Wide?, p), HighMask(b.Wide?, p)) else b;
      b'.Shows(Nonempty(q[Index(p) := s])) && b'.Wide? == b.Wide?
  {
    hide Bits.Shows;
    if s == [] {
      ClearShows(b, Nonempty(q), p);
      ShowsSame(b.Clear(Number(b.Wide?, p), NumberMask(b.Wide?, p), HighMask(b.Wide?, p)),
                r => r != p && Nonempty(q)(r), Nonempty(q[Index(p) := s]));
    } else {
      ShowsSame(b, Nonempty(q), Nonempty(q[Index(p) := s]));
    }
  }
}
