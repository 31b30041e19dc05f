/** The hard timers of rt-thread/src/timer.c: a skip list of timers ordered by expiry,
    compared through 32-bit ticks that wrap around. */
module Timers {
  import opened Arithmetic
  import opened Ring
  import opened TimerRows

  const TICK_LIMIT: int := 0x1_0000_0000
  const TICK_MAX: int := 0xFFFF_FFFF  // RT_TICK_MAX
  const HALF: int := TICK_MAX / 2
  const SKIP_LIST_MASK: int := 3

  /** The difference of two rt_tick_t values. */
  function TickDiff(a: int, b: int): (r: int)
    ensures 0 <= r < TICK_LIMIT
  {
    (a - b) % TICK_LIMIT
  }

  /** Wrap-around subtraction tells how two deadlines less than half the range apart relate. */
  lemma DiffOfDeadlines(a: int, b: int)
    requires -HALF < a - b < HALF
    ensures var diff := TickDiff(a % TICK_LIMIT, b % TICK_LIMIT);
            && (diff == 0 <==> a == b)
            && (0 < diff < HALF <==> b < a)
  {
  }

  /** The rows that the counter gives a timer: one, and one more for each pair of low zero
      bits, as far as there are rows. */
  function Height(counter: nat, levels: nat): nat {
    if levels <= 1 || counter % (SKIP_LIST_MASK + 1) != 0 then 1
    else 1 + Height(counter / (SKIP_LIST_MASK + 1), levels - 1)
  }

  function Fours(k: nat): (f: nat)
    ensures 0 < f
  {
    if k == 0 then 1 else 4 * Fours(k - 1)
  }

  lemma QuarterFirst(c: nat, f: nat)
    requires 0 < f
    ensures c % (4 * f) == 0 <==> c % 4 == 0 && c / 4 % f == 0
  {
    var q, r := c / 4 / f, c / 4 % f;
    assert c == 4 * (q * f + r) + c % 4;
    assert c == q * (4 * f) + (4 * r + c % 4);
    RemainderOf(c, 4 * f, q, 4 * r + c % 4);
  }

  /** The counter puts a timer into the lowest `n` rows exactly if it is a multiple of the
      (n - 1)-th power of four: of four timers, three are in the bottom row only. */
  lemma {:induction false} HeightIs(counter: nat, levels: nat, n: nat)
    requires 0 < n <= levels
    ensures n <= Height(counter, levels) <==> counter % Fours(n - 1) == 0
    ensures 1 <= Height(counter, levels) <= levels
  {
    if 1 < levels && counter % (SKIP_LIST_MASK + 1) == 0 {
      HeightIs(counter / (SKIP_LIST_MASK + 1), levels - 1, if 1 < n then n - 1 else 1);
    }
    if 1 < n {
      QuarterFirst(counter, Fours(n - 2));
    }
  }

  lemma DeadlineTick(now: int, delay: int)
    ensures TickDiff(now % TICK_LIMIT + delay, 0) == (now + delay) % TICK_LIMIT
  {
  }

  class Timer {
    const initTick: int
    const periodic: bool
    var timeoutTick: int
    var activated: bool

    /** _rt_timer_init; the rows of a new timer are linked to nothing. */
    constructor (time: nat, isPeriodic: bool)
      ensures initTick == time && periodic == isPeriodic && !activated && timeoutTick == 0
    {
      initTick, timeoutTick, activated, periodic := time, 0, false, isPeriodic;
    }
  }

  class TimerList {
    const levels: nat  // RT_TIMER_SKIP_LIST_LEVEL
    var rows: seq<seq<Timer>>
    var tick: int
    var randomNr: int
    // unbounded time; the deadline and the height of every linked timer; the lower end of
    // the window, below half the tick range wide, that holds all of them
    ghost var now: int
    ghost var low: int
    ghost var deadline: map<Timer, int>
    ghost var height: map<Timer, int>
    ghost var rounds: nat  // how many timers have fired

    ghost function Bottom(): seq<Timer>
      reads this`rows
    {
      if rows == [] then [] else rows[|rows| - 1]
    }

    ghost function Linked(): set<Timer>
      reads this`rows
    {
      set t | t in Bottom()
    }

    /** The bottom row is ordered by deadline, and every upper row thins out the same row. */
    ghost predicate RowsOk()
      reads this`rows, this`deadline, this`height
    {
      && |rows| == levels && 0 < levels
      && Distinct(Bottom()) && Ordered(Bottom(), deadline)
      && (forall i :: 0 <= i < levels ==> rows[i] == Filter(Bottom(), height, levels - i))
      && (forall t :: t in Bottom() ==> 1 <= At(height, t))
    }

    ghost predicate TimeOk(t: Timer)
      reads this`deadline, this`low, t`activated, t`timeoutTick
    {
      && t.activated && low <= At(deadline, t) < low + HALF
      && t.timeoutTick == At(deadline, t) % TICK_LIMIT
    }

    ghost predicate Valid()
      reads this, Bottom()
    {
      && RowsOk() && 0 <= low <= now < low + HALF && tick == now % TICK_LIMIT && 0 <= randomNr < TICK_LIMIT
      && forall t :: t in Bottom() ==> TimeOk(t)
    }

    constructor (rowCount: nat, start: nat)
      requires 0 < rowCount
      ensures Valid() && Bottom() == [] && now == start && low == start && levels == rowCount
    {
      levels, rows, randomNr := rowCount, seq(rowCount, _ => []), 0;
      tick, now, low := start % TICK_LIMIT, start, start;
      deadline, height := map[], map[];
    }

    /** _rt_timer_remove. */
    method Unlink(t: Timer)
      requires RowsOk()
      modifies this`rows
      ensures RowsOk() && Bottom() == Without(old(Bottom()), t)
      ensures forall x :: x in Bottom() <==> x in old(Bottom()) && x != t
    {
      hide Filter, Without, Ordered, Distinct;
      ghost var bottom := Bottom();
      for i := 0 to levels
        invariant |rows| == levels
        invariant forall j :: 0 <= j < levels ==> rows[j] == if j < i then Without(old(rows)[j], t) else old(rows)[j]
      {
        rows := rows[i := Without(rows[i], t)];
      }
      WithoutOrdered(bottom, deadline, t);
      forall i | 0 <= i < levels
        ensures rows[i] == Filter(Bottom(), height, levels - i)
      {
        WithoutFiltered(bottom, height, t, levels - i);
      }
      WithoutMembers(bottom, t);
    }

    /** _rt_timer_remove of a timer in a sound list. */
    method Remove(t: Timer)
      requires Valid()
      modifies this`rows
      ensures Valid() && Bottom() == Without(old(Bottom()), t)
      ensures forall x :: x in Bottom() <==> x in old(Bottom()) && x != t
    {
      hide RowsOk, Without;
      assert forall x :: x in Bottom() ==> TimeOk(x);
      Unlink(t);
      assert forall x :: x in Bottom() ==> TimeOk(x);
    }

    /** The flags of a timer that is not linked do not matter to the list. */
    method SetInactive(t: Timer)
      requires Valid() && t !in Bottom()
      modifies t`activated
      ensures Valid() && !t.activated
    {
      hide RowsOk;
      assert forall x :: x in Bottom() ==> x != t && TimeOk(x);
      t.activated := false;
      assert forall x :: x in Bottom() ==> TimeOk(x);
    }

    lemma RowFacts(i: nat)
      requires RowsOk() && i < levels
      ensures Ordered(rows[i], deadline)
      ensures forall x :: x in rows[i] ==> x in Bottom() && (i + 1 < levels ==> x in rows[i + 1])
    {
      FilterOrdered(Bottom(), deadline, height, levels - i);
      forall x | x in rows[i]
        ensures x in Bottom() && (i + 1 < levels ==> x in rows[i + 1])
      {
        FilterMember(Bottom(), height, levels - i, x);
        FilterMember(Bottom(), height, levels - i - 1, x);
      }
    }

    /** Moves row_head along row `lvl`, past every timer due no later than `t`. */
    method Walk(lvl: nat, t: Timer, start: nat, ghost due: int) returns (k: nat)
      requires RowsOk() && lvl < levels && low <= due < low + HALF && t.timeoutTick == due % TICK_LIMIT
      requires forall x :: x in Bottom() ==> TimeOk(x)
      requires start <= |rows[lvl]| && forall i :: 0 <= i < start ==> At(deadline, rows[lvl][i]) <= due
      ensures SplitAt(rows[lvl], deadline, due, k)
    {
      hide Filter;
      RowFacts(lvl);
      k := start;
      while k < |rows[lvl]|
        invariant k <= |rows[lvl]|
        invariant forall i :: 0 <= i < k ==> At(deadline, rows[lvl][i]) <= due
      {
        var p := rows[lvl][k];
        assert p in rows[lvl] && p in Bottom() && TimeOk(p);
        DiffOfDeadlines(At(deadline, p), due);
        var diff := TickDiff(p.timeoutTick, t.timeoutTick);
        if diff == 0 {
          k := k + 1;
          continue;
        } else if diff < HALF {
          break;
        }
        k := k + 1;
      }
    }

    /** The search of rt_timer_start: `pos[i]` counts the nodes of row i up to row_head[i]. */
    method Search(t: Timer, ghost due: int) returns (pos: seq<nat>)
      requires RowsOk() && low <= due < low + HALF && t.timeoutTick == due % TICK_LIMIT
      requires forall x :: x in Bottom() ==> TimeOk(x)
      ensures |pos| == levels && forall i :: 0 <= i < levels ==> SplitAt(rows[i], deadline, due, pos[i])
    {
      hide Filter, Ordered, Distinct;
      pos := [];
      var k: nat := 0;
      for lvl := 0 to levels
        invariant |pos| == lvl && forall i :: 0 <= i < lvl ==> SplitAt(rows[i], deadline, due, pos[i])
        invariant lvl < levels ==> k <= |rows[lvl]|
        invariant lvl < levels ==> forall i :: 0 <= i < k ==> At(deadline, rows[lvl][i]) <= due
      {
        k := Walk(lvl, t, k, due);
        pos := pos + [k];
        if lvl != levels - 1 {
          // the same node, one row down
          k := Descend(lvl, k, due);
        }
      }
    }

    /** row_head moves from row `lvl` to the node of the same timer in the row below. */
    method Descend(lvl: nat, k: nat, ghost due: int) returns (r: nat)
      requires RowsOk() && lvl + 1 < levels && SplitAt(rows[lvl], deadline, due, k)
      ensures var below := rows[lvl + 1];
        r <= |below| && forall i :: 0 <= i < r ==> At(deadline, below[i]) <= due
      ensures if k == 0 then r == 0 else 0 < r && rows[lvl + 1][r - 1] == rows[lvl][k - 1]
    {
      hide Filter;
      RowFacts(lvl);
      RowFacts(lvl + 1);
      r := 0;
      if k != 0 {
        assert rows[lvl][k - 1] in rows[lvl];
        r := Position(rows[lvl + 1], rows[lvl][k - 1]) + 1;
      }
    }

    /** The insertions of rt_timer_start: always into the bottom row, and into one more row
        for every two low zero bits of the insertion counter. */
    method Splice(t: Timer, pos: seq<nat>) returns (h: int)
      requires 0 < levels == |rows| == |pos| && 0 <= randomNr
      requires forall i :: 0 <= i < levels ==> pos[i] <= |rows[i]|
      modifies this`rows, this`randomNr
      ensures randomNr == (old(randomNr) + 1) % TICK_LIMIT && h == Height(randomNr, levels) && |rows| == levels
      ensures var was := old(rows);
        forall i :: 0 <= i < levels ==> rows[i] == if levels - i <= h then InsertAt(was[i], pos[i], t) else was[i]
    {
      hide InsertAt;
      ghost var was := rows;
      randomNr := (randomNr + 1) % TICK_LIMIT;
      var tst := randomNr;
      h := 1;
      rows := rows[levels - 1 := InsertAt(rows[levels - 1], pos[levels - 1], t)];
      while h < levels && tst % (SKIP_LIST_MASK + 1) == 0
        modifies this`rows
        invariant 1 <= h <= levels && |rows| == levels && 0 <= tst
        invariant h - 1 + Height(tst, levels - h + 1) == Height(randomNr, levels)
        invariant forall i :: 0 <= i < levels ==>
          rows[i] == if levels - i <= h then InsertAt(was[i], pos[i], t) else was[i]
      {
        h := h + 1;
        rows := rows[levels - h := InsertAt(rows[levels - h], pos[levels - h], t)];
        tst := tst / (SKIP_LIST_MASK + 1);
      }
    }

    method Link(t: Timer, pos: seq<nat>, ghost due: int)
      requires RowsOk() && t !in Bottom() && |pos| == levels && 0 <= randomNr < TICK_LIMIT
      requires forall i :: 0 <= i < levels ==> SplitAt(rows[i], deadline, due, pos[i])
      modifies this`rows, this`randomNr, this`deadline, this`height
      ensures RowsOk() && deadline == old(deadline)[t := due] && 0 <= randomNr < TICK_LIMIT
      ensures Bottom() == Insert(old(Bottom()), deadline, t)
      ensures randomNr == (old(randomNr) + 1) % TICK_LIMIT && height == old(height)[t := Height(randomNr, levels)]
    {
      hide Filter, Ordered, Distinct, Insert, InsertAt;
      ghost var was := old(rows);
      var h := Splice(t, pos);
      deadline := deadline[t := due];
      height := height[t := h];
      RowsLinked(old(Bottom()), was, rows, old(deadline), old(height), t, due, h, pos);
    }

    method Place(t: Timer, ghost due: int)
      requires RowsOk() && t !in Bottom() && 0 <= randomNr < TICK_LIMIT
      requires low <= due < low + HALF && t.timeoutTick == due % TICK_LIMIT
      requires forall x :: x in Bottom() ==> TimeOk(x)
      modifies this`rows, this`randomNr, this`deadline, this`height
      ensures RowsOk() && deadline == old(deadline)[t := due] && 0 <= randomNr < TICK_LIMIT
      ensures Bottom() == Insert(old(Bottom()), deadline, t)
      ensures randomNr == (old(randomNr) + 1) % TICK_LIMIT && height == old(height)[t := Height(randomNr, levels)]
      ensures forall x :: x in Bottom() <==> x == t || x in old(Bottom())
    {
      hide *;
      ghost var rest := Bottom();
      var pos := Search(t, due);
      Link(t, pos, due);
      InsertMembers(rest, deadline, t);
    }

    /** The first section of rt_timer_start: the timer is linked nowhere and inactive. */
    method StartTake(t: Timer)
      requires Valid()
      modifies this`rows, t`activated
      ensures Valid() && !t.activated && Bottom() == Without(old(Bottom()), t)
      ensures forall x :: x in Bottom() <==> x in old(Bottom()) && x != t
    {
      hide RowsOk, Without;
      Remove(t);
      SetInactive(t);
    }

    /** Between the sections, with interrupts enabled: the deadline is taken from the tick. */
    method StartRead(t: Timer) returns (ghost due: int)
      requires Valid() && t !in Bottom()
      modifies t`timeoutTick
      ensures Valid() && due == now + t.initTick && t.timeoutTick == due % 0x1_0000_0000
    {
      hide TickDiff, RowsOk;
      DeadlineTick(now, t.initTick);
      assert forall x :: x in Bottom() ==> TimeOk(x);
      t.timeoutTick := TickDiff(tick + t.initTick, 0);
      assert forall x :: x in Bottom() ==> TimeOk(x);
      due := now + t.initTick;
    }

    /** The second section: the timer is linked behind every timer that is due no later. Time
        may have passed since its deadline was read, even past the deadline, as long as all
        deadlines and the present stay less than half the tick range apart. */
    method StartLink(t: Timer, ghost due: int)
      requires Valid() && t !in Bottom() && t.timeoutTick == due % TICK_LIMIT
      requires 0 <= due < low + HALF && now < due + HALF && forall x :: x in Bottom() ==> At(deadline, x) < due + HALF
      modifies this`rows, this`randomNr, this`deadline, this`height, this`low, t`activated
      ensures Valid() && t.activated && deadline == old(deadline)[t := due] && low == Min(old(low), due)
      ensures Bottom() == Insert(old(Bottom()), deadline, t)
      ensures randomNr == (old(randomNr) + 1) % TICK_LIMIT && height == old(height)[t := Height(randomNr, levels)]
    {
      hide Height, Insert, RowsOk;
      assert forall x :: x in Bottom() ==> TimeOk(x);
      Widen(due);
      Place(t, due);
      t.activated := true;
    }

    /** The window may start at `due` if all deadlines still fit. */
    ghost method Widen(due: int)
      requires Valid() && 0 <= due && now < due + HALF && forall x :: x in Bottom() ==> At(deadline, x) < due + HALF
      modifies this`low
      ensures Valid() && low == Min(old(low), due)
    {
      hide Filter, Ordered, Distinct;
      assert forall t :: t in Bottom() ==> TimeOk(t);
      low := Min(low, due);
      assert RowsOk();
    }

    /** rt_timer_start with nothing in between: whatever the timer did before, it is now due
        `initTick` ticks ahead, behind every timer that is due no later. */
    method Start(t: Timer)
      requires Valid() && 0 <= t.initTick < HALF && now + t.initTick < low + HALF
      modifies this`rows, this`randomNr, this`deadline, this`height, t`activated, t`timeoutTick
      ensures Valid() && t.activated && deadline == old(deadline)[t := now + t.initTick]
      ensures Bottom() == Insert(Without(old(Bottom()), t), deadline, t)
      ensures randomNr == (old(randomNr) + 1) % TICK_LIMIT && height == old(height)[t := Height(randomNr, levels)]
    {
      hide Height, Insert, Without, TickDiff, RowsOk;
      StartTake(t);
      ghost var due := StartRead(t);
      assert forall x :: x in Bottom() ==> TimeOk(x);
      Place(t, due);
      t.activated := true;
    }

    /** rt_timer_start with `n` ticks between its sections, as an interrupt handler may count
        them: the deadline is `initTick` ticks from the first section, not from the second. */
    method StartDelayed(t: Timer, n: nat)
      requires Valid() && 0 <= t.initTick && now + t.initTick + n < low + HALF
      modifies this`rows, this`randomNr, this`deadline, this`height, this`low, this`tick, this`now,
               t`activated, t`timeoutTick
      ensures Valid() && t.activated && now == old(now) + n && low == old(low)
      ensures deadline == old(deadline)[t := now - n + t.initTick]
      ensures Bottom() == Insert(Without(old(Bottom()), t), deadline, t)
    {
      hide Height, Insert, Without, TickDiff, RowsOk;
      ghost var start := now;
      StartTake(t);
      ghost var due := StartRead(t);
      for k := 0 to n
        modifies this`tick, this`now
        invariant Valid() && now == start + k
      {
        Tick();
      }
      assert forall x :: x in Bottom() ==> TimeOk(x);
      StartLink(t, due);
    }

    /** The section of rt_timer_stop. The flag is tested before it and cleared after it, with
        interrupts enabled. */
    method StopTake(t: Timer)
      requires Valid()
      modifies this`rows
      ensures Valid() && Bottom() == Without(old(Bottom()), t)
      ensures forall x :: x in Bottom() <==> x in old(Bottom()) && x != t
    {
      hide RowsOk, Without;
      Remove(t);
    }

    /** The flag is cleared: the timers stay sound exactly if nobody has started this one since
        the section. */
    method StopClear(t: Timer)
      requires Valid()
      modifies t`activated
      ensures !t.activated && (Valid() <==> t !in Bottom())
    {
      hide RowsOk;
      assert forall x :: x in Bottom() ==> TimeOk(x);
      t.activated := false;
      assert forall x :: x in Bottom() && x != t ==> TimeOk(x);
      assert !TimeOk(t);
    }

    /** rt_timer_stop with nothing in between: refused unless the timer is active. */
    method Stop(t: Timer) returns (ok: bool)
      requires Valid()
      modifies this`rows, t`activated
      ensures Valid() && ok == old(t.activated) && !t.activated
      ensures Bottom() == Without(old(Bottom()), t)
    {
      hide RowsOk, Without;
      ok := t.activated;
      if !ok {
        assert t in Bottom() ==> TimeOk(t);
        WithoutAbsent(Bottom(), t);
        return;
      }
      StopTake(t);
      StopClear(t);
    }

    /** A start that comes between the section of rt_timer_stop and the clearing of the flag
        leaves the timer linked without its flag, the first thing that a stop tests. */
    method StopDuringStart(t: Timer)
      requires Valid() && t.activated && 0 <= t.initTick < HALF && now + t.initTick < low + HALF
      modifies this`rows, this`randomNr, this`deadline, this`height, t`activated, t`timeoutTick
      ensures !t.activated && t in Bottom() && At(deadline, t) == now + t.initTick && !Valid()
    {
      hide RowsOk, Without, Insert, Height;
      StopTake(t);
      assert t !in Bottom();
      ghost var rest := Without(Bottom(), t);
      Start(t);
      InsertMembers(rest, deadline, t);
      StopClear(t);
    }

    /** rt_timer_next_timeout_tick (rt_timer_list_next_timeout): the earliest deadline of all. */
    method NextTimeout() returns (next: int)
      requires Valid()
      ensures Bottom() == [] ==> next == 0xFFFF_FFFF
      ensures forall t :: t in Bottom() ==>
        (forall x :: x in Bottom() ==> At(deadline, t) <= At(deadline, x)) ==> next == At(deadline, t) % 0x1_0000_0000
    {
      var row := rows[levels - 1];
      if row == [] {
        return TICK_MAX;
      }
      next := row[0].timeoutTick;
      assert row[0] in Bottom();
      forall t | t in Bottom() && (forall x :: x in Bottom() ==> At(deadline, t) <= At(deadline, x))
        ensures next == At(deadline, t) % TICK_LIMIT
      {
        assert At(deadline, t) <= At(deadline, row[0]);
        assert row[IndexOf(row, t)] == t;
      }
    }

    /** One round of rt_timer_check for a head that is due. The callback is taken to leave
        the timers alone, so a periodic timer starts again and any other one is done. It is
        due again at once, and the loop of rt_timer_check never ends, exactly if its period
        is zero. */
    method FireHead(t: Timer)
      requires Valid() && Bottom() != [] && Bottom()[0] == t && At(deadline, t) <= now
      requires t.periodic ==> 0 <= t.initTick < HALF && now + t.initTick < low + HALF
      modifies this`rows, this`randomNr, this`deadline, this`height, this`rounds, t`activated, t`timeoutTick
      ensures Valid() && rounds == old(rounds) + 1 && old(Bottom()) == [t] + old(Bottom())[1..]
      ensures deadline == if t.periodic then old(deadline)[t := now + t.initTick] else old(deadline)
      ensures Bottom() == if t.periodic then Insert(old(Bottom())[1..], deadline, t) else old(Bottom())[1..]
      ensures t.activated == t.periodic
      ensures t in Bottom() && At(deadline, t) <= now <==> t.periodic && t.initTick == 0
      ensures forall x :: x in Bottom() ==> x in old(Bottom())
      ensures old(Endless()) ==> Endless()
    {
      hide RowsOk, Insert, Without, TimeOk;
      HeadFacts(t);
      HeadGone(Bottom());
      rounds := rounds + 1;
      Remove(t);
      if t.periodic && t.activated {
        SetInactive(t);
        WithoutAbsent(Bottom(), t);
        ghost var rest := Bottom();
        Start(t);
        InsertMembers(rest, deadline, t);
      } else {
        SetInactive(t);
      }
    }

    lemma HeadFacts(t: Timer)
      requires Valid() && Bottom() != [] && Bottom()[0] == t
      ensures t in Bottom() && t.activated && Distinct(Bottom())
    {
      assert TimeOk(t);
    }

    /** Some timer that is due has the period zero. */
    ghost predicate Endless()
      reads this`rows, this`deadline, this`now
    {
      exists t :: t in Bottom() && t.periodic && t.initTick == 0 && At(deadline, t) <= now
    }

    /** Then rt_timer_check never leaves its loop: whatever round it is in, there is another. */
    method Rounds(n: nat)
      requires Valid() && Endless()
      requires forall t :: t in Bottom() && t.periodic ==> 0 <= t.initTick < HALF && now + t.initTick < low + HALF
      modifies this`rows, this`randomNr, this`deadline, this`height, this`rounds, Linked()`activated, Linked()`timeoutTick
      ensures Valid() && Endless() && Due() && rounds == old(rounds) + n
    {
      hide RowsOk, TimeOk;
      ghost var b0 := Bottom();
      for k := 0 to n
        modifies this`rows, this`randomNr, this`deadline, this`height, this`rounds, Linked()`activated, Linked()`timeoutTick
        invariant Valid() && Endless() && rounds == old(rounds) + k && forall t :: t in Bottom() ==> t in b0
      {
        EndlessDue();
        OrderFacts();
        var t := rows[levels - 1][0];
        assert t in b0;
        FireHead(t);
      }
      EndlessDue();
    }

    lemma EndlessDue()
      requires Valid() && Endless()
      ensures Due()
    {
      hide TimeOk, Filter, Distinct;
      var t :| t in Bottom() && t.periodic && t.initTick == 0 && At(deadline, t) <= now;
      var k := IndexOf(Bottom(), t);
      assert 0 < k ==> At(deadline, Bottom()[0]) <= At(deadline, Bottom()[k]);
    }

    lemma PeriodsPass()
      requires !Endless()
      ensures forall t :: t in Bottom() && t.periodic && At(deadline, t) <= now ==> t.initTick != 0
    {
    }

    /** One round of rt_timer_check after the first `j` timers of `b0` have fired: the next one
        fires. */
    method FireNext(ghost b0: seq<Timer>, ghost d0: map<Timer, int>, ghost j: nat) returns (t: Timer)
      requires Valid() && Due() && AfterFiring(b0, d0, now, j, Bottom(), deadline)
      requires Ordered(b0, d0) && Distinct(b0) && forall x :: x in Bottom() ==> x in b0
      requires forall x :: x in b0 && x.periodic ==> 0 <= x.initTick < HALF && now + x.initTick < low + HALF
      requires forall x :: x in b0 && x.periodic && At(d0, x) <= now ==> x.initTick != 0
      modifies this`rows, this`randomNr, this`deadline, this`height, this`rounds,
               (set x | x in b0)`activated, (set x | x in b0)`timeoutTick
      ensures Valid() && rounds == old(rounds) + 1 && j < |b0| && t == b0[j] && b0[..j + 1] == b0[..j] + [t]
      ensures AfterFiring(b0, d0, now, j + 1, Bottom(), deadline) && forall x :: x in Bottom() ==> x in b0
      ensures t.activated == t.periodic && forall x :: x in b0 && x != t ==> x.activated == old(x.activated)
    {
      hide *;
      OrderFacts();
      FiredNext(b0, d0, now, j, Bottom(), deadline);
      t := rows[levels - 1][0];
      assert t in b0;
      FireHead(t);
    }

    /** rt_timer_check: every timer that is due fires, in the order of the deadlines, and
        those that fired and are periodic are linked again, one period ahead. */
    method Check() returns (fired: seq<Timer>)
      requires Valid()
      requires !Endless() && forall t :: t in Bottom() && t.periodic ==> 0 <= t.initTick < HALF && now + t.initTick < low + HALF
      modifies this`rows, this`randomNr, this`deadline, this`height, this`rounds, this`low,
               Linked()`activated, Linked()`timeoutTick
      ensures Valid() && low == now && rounds == old(rounds) + |fired|
      ensures SplitAt(old(Bottom()), old(deadline), now, |fired|) && fired == old(Bottom())[..|fired|]
      ensures AfterFiring(old(Bottom()), old(deadline), now, |fired|, Bottom(), deadline)
      ensures forall t :: t in Bottom() ==> t in old(Bottom()) && now < At(deadline, t)
      ensures forall t :: t in fired ==> t.activated == t.periodic
    {
      hide *;
      ghost var b0, d0 := Bottom(), deadline;
      OrderFacts();
      NoneFired(b0, d0, now);
      PeriodsPass();
      fired := [];
      while Due()
        modifies this`rows, this`randomNr, this`deadline, this`height, this`rounds, Linked()`activated, Linked()`timeoutTick
        invariant Valid() && rounds == old(rounds) + |fired| && |fired| <= |b0| && fired == b0[..|fired|]
        invariant forall t :: t in Bottom() ==> t in b0
        invariant forall t :: t in fired ==> t.activated == t.periodic
        invariant AfterFiring(b0, d0, now, |fired|, Bottom(), deadline)
        decreases |b0| - |fired|
      {
        var t := FireNext(b0, d0, |fired|);
        assert b0[..|fired| + 1] == b0[..|fired|] + [t];
        fired := fired + [t];
      }
      OrderFacts();
      NoneDue(b0, d0, now, |fired|, Bottom(), deadline);
      Slide();
    }

    lemma OrderFacts()
      requires Valid()
      ensures Ordered(Bottom(), deadline) && Distinct(Bottom())
      ensures levels == |rows| && 0 < levels && Bottom() == rows[levels - 1]
      ensures forall t :: t in Bottom() ==> t in Linked()
      ensures Due() <==> Bottom() != [] && At(deadline, Bottom()[0]) <= now
    {
    }

    /** Once no deadline is in the past, the window may start at the present. */
    ghost method Slide()
      requires Valid() && forall t :: t in Bottom() ==> now <= At(deadline, t)
      modifies this`low
      ensures Valid() && low == now
    {
      hide Filter, Ordered, Distinct;
      assert forall t :: t in Bottom() ==> TimeOk(t);
      assert low <= now;
      low := now;
      assert RowsOk();
    }

    /** The test of rt_timer_check: is there a head, and has its deadline arrived? */
    function Due(): (r: bool)
      requires Valid()
      reads this, Bottom()
      ensures r <==> Bottom() != [] && At(deadline, Bottom()[0]) <= now
    {
      var row := rows[levels - 1];
      if row == [] then false else
      hide Filter, Distinct, Ordered;
      assert row[0] in Bottom() && TimeOk(row[0]);
      DiffOfDeadlines(now, At(deadline, row[0]));
      TickDiff(tick, row[0].timeoutTick) < HALF
    }

    /** The increment of rt_tick_increase. */
    method Tick()
      requires Valid() && now + 1 < low + HALF
      modifies this`tick, this`now
      ensures Valid() && now == old(now) + 1
    {
      hide Filter, Ordered, Distinct;
      assert forall t :: t in Bottom() ==> TimeOk(t);
      tick := (tick + 1) % TICK_LIMIT;
      now := now + 1;
      assert RowsOk();
    }

    /** Every timer waits for a deadline in the future, and the periods are sound. */
    ghost predicate Settled()
      reads this, Bottom()
    {
      && Valid() && low == now
      && forall t :: t in Bottom() ==> now < At(deadline, t) && t.initTick < HALF && (t.periodic ==> 0 < t.initTick)
    }

    /** One system tick: count it, then check the timers. */
    method TickAndCheck() returns (fired: seq<Timer>)
      requires Settled()
      modifies this`tick, this`now, this`rows, this`randomNr, this`deadline, this`height, this`rounds, this`low,
               Linked()`activated, Linked()`timeoutTick
      ensures Settled() && now == old(now) + 1
      ensures forall t :: t in Bottom() || t in fired ==> t in old(Bottom())
      ensures forall t :: t in old(Bottom()) ==>
        && (t in fired <==> At(old(deadline), t) <= now)
        && (t in Bottom() <==> t.periodic || now < At(old(deadline), t))
        && At(deadline, t) == (if t.periodic && At(old(deadline), t) <= now then now + t.initTick else At(old(deadline), t))
    {
      hide Filter, Ordered, Distinct, AfterFiring, TimeOk, RowsOk;
      ghost var b0, d0 := Bottom(), deadline;
      Tick();
      Slide();
      OrderFacts();
      fired := Check();
      FiredOnes(b0, d0, now, |fired|, Bottom(), deadline);
    }

    /** The list now, against a list `b0` with deadlines `d0` before. */
    ghost predicate Waiting(b0: seq<Timer>, d0: map<Timer, int>)
      reads this`rows, this`deadline, this`now
    {
      && (forall t :: t in Bottom() ==> t in b0)
      && (forall t :: t in b0 ==> Awaits(t, At(d0, t), t in Bottom(), At(deadline, t), now))
    }

    lemma Starting()
      requires Settled()
      ensures Waiting(Bottom(), deadline) && forall t :: t in Bottom() ==> t in Linked()
    {
    }

    method OneTick(ghost b0: seq<Timer>, ghost d0: map<Timer, int>) returns (fired: seq<Timer>)
      requires Settled() && Waiting(b0, d0)
      modifies this`tick, this`now, this`rows, this`randomNr, this`deadline, this`height, this`rounds, this`low,
               Linked()`activated, Linked()`timeoutTick
      ensures Settled() && Waiting(b0, d0) && now == old(now) + 1 && FiredAt(b0, d0, now, fired)
      ensures forall t :: t in Bottom() ==> t in old(Bottom())
    {
      hide Settled, Awaits, DueAt, At, Valid, RowsOk, TimeOk, Filter, Ordered, Distinct;
      fired := TickAndCheck();
      forall t | t in b0
        ensures Awaits(t, At(d0, t), t in Bottom(), At(deadline, t), now)
        ensures t in fired <==> DueAt(t, At(d0, t), now)
      {
        NextTick(t, At(d0, t), old(t in Bottom()), old(At(deadline, t)), now - 1, t in Bottom(), At(deadline, t));
      }
    }

    /** Timers left alone for `n` ticks, each with a check: a periodic timer fires at its
        first deadline and at every whole number of periods after it, and at no other tick;
        a one-shot timer fires at its deadline only. */
    method Run(n: nat) returns (log: seq<seq<Timer>>)
      requires Settled()
      modifies this`tick, this`now, this`rows, this`randomNr, this`deadline, this`height, this`rounds, this`low,
               Linked()`activated, Linked()`timeoutTick
      ensures Settled() && now == old(now) + n && |log| == n
      ensures forall i :: 0 <= i < n ==> FiredAt(old(Bottom()), old(deadline), old(now) + 1 + i, log[i])
    {
      hide Settled, Waiting, FiredAt;
      Starting();
      ghost var b0, d0, start := Bottom(), deadline, now;
      log := [];
      for k := 0 to n
        invariant Settled() && Waiting(b0, d0) && now == start + k && |log| == k
        invariant forall t :: t in Bottom() ==> t in b0
        invariant forall i :: 0 <= i < k ==> FiredAt(b0, d0, start + 1 + i, log[i])
      {
        var fired := OneTick(b0, d0);
        log := log + [fired];
      }
    }
  }

  /** Of the timers in `b0`, first due as `d0` says, exactly those due at `time` fire. */
  ghost predicate FiredAt(b0: seq<Timer>, d0: map<Timer, int>, time: int, fired: seq<Timer>) {
    && (forall t :: t in fired ==> t in b0)
    && (forall t :: t in b0 ==> (t in fired <==> DueAt(t, At(d0, t), time)))
  }

  /** When a timer that is first due at `d0` fires. */
  ghost predicate DueAt(t: Timer, d0: int, time: int) {
    if t.periodic && 0 < t.initTick then d0 <= time && (time - d0) % t.initTick == 0 else time == d0
  }

  /** What the list holds at time `now` of a timer that was first due at `d0`: of a periodic
      one, the next of its deadlines. */
  ghost predicate Awaits(t: Timer, d0: int, linked: bool, d: int, now: int) {
    if t.periodic then
      linked && 0 < t.initTick && d0 <= d && (d - d0) % t.initTick == 0 && now < d && (d == d0 || d - t.initTick <= now)
    else
      (linked ==> d == d0) && (linked <==> now < d0)
  }

  /** One more tick: the timer fires exactly if this is one of its times. */
  lemma NextTick(t: Timer, d0: int, linked: bool, d: int, now: int, linked': bool, d': int)
    requires Awaits(t, d0, linked, d, now)
    requires linked ==> (linked' <==> t.periodic || now + 1 < d)
    requires !linked ==> !linked'
    requires linked ==> d' == if t.periodic && d <= now + 1 then now + 1 + t.initTick else d
    ensures Awaits(t, d0, linked', d', now + 1)
    ensures DueAt(t, d0, now + 1) <==> linked && d <= now + 1
  {
    if t.periodic {
      var p, time := t.initTick, now + 1;
      if d <= time {
        assert d == time;
        SameRemainder(d - d0, 1, p);
      } else if d != d0 {
        Between(d - d0, time - d0, p);
      }
    }
  }

  lemma FiredOnes(b0: seq<Timer>, d0: map<Timer, int>, now: int, j: nat, b: seq<Timer>, d: map<Timer, int>)
    requires AfterFiring(b0, d0, now, j, b, d) && SplitAt(b0, d0, now, j) && Distinct(b0)
    ensures forall t :: t in b || t in b0[..j] ==> t in b0
    ensures forall t :: t in b0 ==>
      && (t in b0[..j] <==> At(d0, t) <= now)
      && (t in b <==> t.periodic || now < At(d0, t))
      && At(d, t) == (if t.periodic && At(d0, t) <= now then now + t.initTick else At(d0, t))
  {
    hide Periodic, InsertAll;
    var ts := Periodic(b0[..j]);
    assert b0 == b0[..j] + b0[j..];
    forall t | t in b
      ensures t in b0
    {
      InsertAllMember(b0[j..], d, ts, t);
      PeriodicMember(b0[..j], t);
    }
    forall t | t in b0
      ensures t in b0[..j] <==> At(d0, t) <= now
      ensures t in b <==> t.periodic || now < At(d0, t)
    {
      InsertAllMember(b0[j..], d, ts, t);
      PeriodicMember(b0[..j], t);
      var i := IndexOf(b0, t);
      if i < j {
        assert b0[..j][i] == t;
      } else {
        assert b0[j..][i - j] == t;
      }
    }
  }

  ghost function Periodic(ts: seq<Timer>): seq<Timer> {
    if ts == [] then []
    else
      var n := |ts| - 1;
      Periodic(ts[..n]) + if ts[n].periodic then [ts[n]] else []
  }

  /** The list after the first `j` timers of `b0`, all of them due, have fired: what is left
      of `b0`, with the periodic ones inserted again in the order they fired. */
  ghost predicate AfterFiring(b0: seq<Timer>, d0: map<Timer, int>, now: int, j: nat, b: seq<Timer>, d: map<Timer, int>) {
    && j <= |b0|
    && (forall t :: t in b0[..j] ==> At(d0, t) <= now)
    && (forall t :: t in b0 ==> At(d, t) == if t in b0[..j] && t.periodic then now + t.initTick else At(d0, t))
    && b == InsertAll(b0[j..], d, Periodic(b0[..j]))
  }

  lemma NoneFired(b0: seq<Timer>, d0: map<Timer, int>, now: int)
    ensures AfterFiring(b0, d0, now, 0, b0, d0)
  {
    assert b0[0..] == b0;
  }

  lemma {:induction false} PeriodicMember(ts: seq<Timer>, t: Timer)
    ensures t in Periodic(ts) <==> t in ts && t.periodic
  {
    if ts != [] {
      var n := |ts| - 1;
      PeriodicMember(ts[..n], t);
      assert ts == ts[..n] + [ts[n]];
    }
  }

  lemma HeadGone(s: seq<Timer>)
    requires s != [] && Distinct(s)
    ensures s == [s[0]] + s[1..] && Without(s, s[0]) == s[1..] && s[0] !in s[1..]
  {
    WithoutAbsent(s[1..], s[0]);
  }

  /** A due head is the next timer of `b0`, and firing it leaves the list after one more. */
  lemma FiredNext(b0: seq<Timer>, d0: map<Timer, int>, now: int, j: nat, b: seq<Timer>, d: map<Timer, int>)
    requires AfterFiring(b0, d0, now, j, b, d) && b != [] && At(d, b[0]) <= now
    requires Ordered(b0, d0) && Distinct(b0) && forall t :: t in b0 && t.periodic && At(d0, t) <= now ==> 0 < t.initTick
    ensures j < |b0| && b[0] == b0[j] && b0[..j + 1] == b0[..j] + [b0[j]]
    ensures var t := b0[j]; var d' := if t.periodic then d[t := now + t.initTick] else d;
      AfterFiring(b0, d0, now, j + 1, if t.periodic then Insert(b[1..], d', t) else b[1..], d')
  {
    hide InsertAll, Periodic, Insert, Ordered;
    var s, ts := b0[j..], Periodic(b0[..j]);
    forall t | t in ts
      ensures now < At(d, t)
    {
      PeriodicMember(b0[..j], t);
    }
    forall t | t in s
      ensures At(d, t) == At(d0, t)
    {
      assert b0[j + IndexOf(s, t)] == t;
    }
    TailOrdered(b0, d0, d, j);
    DueHead(s, d, ts, now);
    assert b0[j..][1..] == b0[j + 1..];
    Refired(b0, j, d, now);
  }

  lemma TailOrdered(s: seq<Timer>, d0: map<Timer, int>, d: map<Timer, int>, j: nat)
    requires j <= |s| && Ordered(s, d0) && forall t :: t in s[j..] ==> At(d, t) == At(d0, t)
    ensures Ordered(s[j..], d)
  {
    var r := s[j..];
    assert forall i :: 0 <= i < |r| ==> r[i] == s[j + i] && r[i] in r;
  }

  lemma Refired(b0: seq<Timer>, j: nat, d: map<Timer, int>, now: int)
    requires j < |b0| && Distinct(b0)
    ensures var t := b0[j]; var d' := if t.periodic then d[t := now + t.initTick] else d;
      var b := InsertAll(b0[j + 1..], d, Periodic(b0[..j]));
      InsertAll(b0[j + 1..], d', Periodic(b0[..j + 1])) == if t.periodic then Insert(b, d', t) else b
  {
    hide InsertAll, Insert;
    var t := b0[j];
    PeriodicMember(b0[..j], t);
    assert b0[..j + 1] == b0[..j] + [t] && b0[..j + 1][..j] == b0[..j];
    assert Periodic(b0[..j]) + [] == Periodic(b0[..j]);
    if t.periodic {
      Rearmed(b0[j + 1..], d, Periodic(b0[..j]), t, now + t.initTick);
    }
  }

  /** When no head is due any more, exactly the due timers of what was there before fired. */
  lemma NoneDue(b0: seq<Timer>, d0: map<Timer, int>, now: int, j: nat, b: seq<Timer>, d: map<Timer, int>)
    requires AfterFiring(b0, d0, now, j, b, d) && Ordered(b, d) && (b == [] || now < At(d, b[0])) && Distinct(b0)
    ensures SplitAt(b0, d0, now, j)
    ensures forall t :: t in b ==> now < At(d, t)
  {
    hide InsertAll, Periodic;
    forall t | t in b
      ensures now < At(d, t)
    {
      assert b[IndexOf(b, t)] == t;
    }
    forall i | 0 <= i < |b0|
      ensures if i < j then At(d0, b0[i]) <= now else now < At(d0, b0[i])
    {
      var x := b0[i];
      if i < j {
        assert b0[..j][i] == x;
      } else {
        assert b0[j..][i - j] == x;
        InsertAllMember(b0[j..], d, Periodic(b0[..j]), x);
        assert x !in b0[..j];
      }
    }
  }

  /** Splicing a timer into its lowest `h` rows is the same as inserting it into the bottom
      row and thinning out again. */
  lemma RowsLinked(s: seq<Timer>, was: seq<seq<Timer>>, rows: seq<seq<Timer>>, d: map<Timer, int>,
                   height: map<Timer, int>, t: Timer, due: int, h: int, pos: seq<nat>)
    requires 0 < |was| == |rows| == |pos| && s == was[|was| - 1] && t !in s && 1 <= h
    requires Ordered(s, d) && Distinct(s)
    requires forall i :: 0 <= i < |was| ==> was[i] == Filter(s, height, |was| - i)
    requires forall x :: x in s ==> 1 <= At(height, x)
    requires forall i :: 0 <= i < |was| ==> SplitAt(was[i], d, due, pos[i])
    requires forall i :: 0 <= i < |was| ==>
      && pos[i] <= |was[i]|
      && rows[i] == (if |was| - i <= h then InsertAt(was[i], pos[i], t) else was[i])
    ensures var s', d', height' := rows[|was| - 1], d[t := due], height[t := h];
      && s' == Insert(s, d', t) && Distinct(s') && Ordered(s', d')
      && (forall i :: 0 <= i < |was| ==> rows[i] == Filter(s', height', |was| - i))
      && (forall x :: x in s' ==> 1 <= At(height', x))
  {
    hide Filter, Ordered, Distinct, Insert, InsertAt;
    var d', height', n := d[t := due], height[t := h], |was|;
    OrderedFramed(s, d, d');
    InsertOrdered(s, d', t);
    forall i | 0 <= i < n
      ensures rows[i] == Filter(Insert(s, d', t), height', n - i)
      ensures i == n - 1 ==> rows[i] == Insert(s, d', t)
    {
      FilterFramed(s, height, height', n - i);
      InsertFiltered(s, d', height', t, n - i);
      forall x
        ensures x in was[i] ==> x in s
      {
        FilterMember(s, height, n - i, x);
      }
      SplitFramed(was[i], d, d', due, pos[i]);
      InsertSplices(was[i], d', t, pos[i]);
    }
  }

  lemma SplitFramed(s: seq<Timer>, d: map<Timer, int>, d': map<Timer, int>, x: int, k: nat)
    requires SplitAt(s, d, x, k) && forall y :: y in s ==> At(d, y) == At(d', y)
    ensures SplitAt(s, d', x, k)
  {
    assert forall i :: 0 <= i < |s| ==> s[i] in s;
  }

  lemma InsertMembers(s: seq<Timer>, d: map<Timer, int>, t: Timer)
    ensures forall x :: x in Insert(s, d, t) <==> x == t || x in s
  {
    forall x
      ensures x in Insert(s, d, t) <==> x == t || x in s
    {
      InsertMember(s, d, t, x);
    }
  }
}
