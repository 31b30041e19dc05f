/** The mailbox of rt-thread/src/ipc.c: a ring of mails with waiting receivers and senders. A
    woken thread runs some time later and looks again, so other threads may come first. */
module Mailboxes {
  import opened Arithmetic
  import opened Ring
  import opened Ipc

  datatype Answer = Done | Refused(error: Error) | Waits

  /** The slot `k` places behind slot `out` of a ring of `size` slots. */
  function Slot(out: int, k: int, size: int): int {
    if out + k < size then out + k else out + k - size
  }

  /** The same with the remainder, as the ring is meant. */
  lemma SlotIsRemainder(out: int, k: int, size: int)
    requires 0 <= out < size && 0 <= k <= size
    ensures Slot(out, k, size) == (out + k) % size
  {
    if out + k < size {
      RemainderOf(out + k, size, 0, out + k);
    } else {
      RemainderOf(out + k, size, 1, out + k - size);
    }
  }

  class Mailbox {
    const size: nat
    const flag: Flag
    const pool: array<int>
    var entry: int
    var inOffset: int
    var outOffset: int
    var receivers: seq<Thread>
    var senders: seq<Thread>
    ghost var mails: seq<int>
    // resumed by a send or a receive and not run since
    ghost var wokenReceivers: set<Thread>
    ghost var wokenSenders: set<Thread>
    ghost var inside: set<Thread>  // these and the threads that wait

    /** The ring holds the mails in the order they were sent. */
    ghost predicate RingOk()
      reads this`entry, this`inOffset, this`outOffset, this`mails, pool
    {
      && pool.Length == size && entry == |mails| <= size
      && (0 < size ==> 0 <= outOffset < size && inOffset == Slot(outOffset, entry, size))
      && (forall k :: 0 <= k < entry ==> pool[Slot(outOffset, k, size)] == mails[k])
    }

    /** No wake-up is lost: while a receiver waits there are no more mails than woken
        receivers, and while a sender waits no more free slots than woken senders. */
    ghost predicate NoLostWakeup()
      reads this`mails, this`receivers, this`senders, this`wokenReceivers, this`wokenSenders
    {
      && (receivers != [] ==> |mails| <= |wokenReceivers|)
      && (senders != [] ==> size - |mails| <= |wokenSenders|)
    }

    /** A thread waits in one list, once, or has been woken, or neither. */
    ghost predicate Lists()
      reads this`receivers, this`senders, this`wokenReceivers, this`wokenSenders, this`inside
    {
      && Distinct(receivers) && Distinct(senders)
      && (forall t :: t in receivers ==> t in inside && t !in wokenReceivers && t !in senders && t !in wokenSenders)
      && (forall t :: t in senders ==> t in inside && t !in wokenSenders && t !in wokenReceivers)
      && (forall t :: t in wokenReceivers ==> t in inside && t !in wokenSenders)
      && (forall t :: t in wokenSenders ==> t in inside)
    }

    /** Nobody who waits or has been woken carries an error. */
    ghost predicate Calm()
      reads this`inside, inside`error
    {
      forall t :: t in inside ==> t.error == Eok
    }

    ghost predicate Valid()
      reads this, pool, inside`error
    {
      RingOk() && NoLostWakeup() && Lists() && Calm()
    }

    /** With every woken thread gone its way, nobody waits while it could go on. */
    lemma NobodyWaitsInVain()
      requires Valid() && wokenReceivers == {} && wokenSenders == {}
      ensures receivers != [] ==> entry == 0
      ensures senders != [] ==> entry == size
    {
    }

    /** rt_mb_init. */
    constructor (slots: nat, f: Flag)
      ensures Valid() && mails == [] && size == slots && fresh(pool) && receivers == senders == []
    {
      size, flag := slots, f;
      pool := new int[slots](_ => 0);
      entry, inOffset, outOffset, receivers, senders := 0, 0, 0, [], [];
      mails, wokenReceivers, wokenSenders, inside := [], {}, {}, {};
    }

    /** rt_mb_send_wait by the running thread `t`, up to where it waits. A thread that was
        woken comes back with `again` and the rest of its time. */
    method Send(t: Thread, value: int, timeout: int, again: bool) returns (r: Answer)
      requires Valid() && t !in receivers && t !in senders && t !in wokenReceivers
      requires again <==> t in wokenSenders
      modifies this, pool, t`error, t`timer, Members(receivers)`timer
      ensures Valid()
      ensures r == if |old(mails)| < size then Done else if timeout == 0 then Refused(Efull) else Waits
      ensures mails == if r == Done then old(mails) + [value] else old(mails)
      ensures r == Done && old(receivers) != [] ==>
        && receivers == old(receivers)[1..] && wokenReceivers == old(wokenReceivers) + {old(receivers)[0]}
        && !old(receivers)[0].timer && forall x :: x in receivers ==> x.timer == old(x.timer)
      ensures r != Done || old(receivers) == [] ==>
        receivers == old(receivers) && wokenReceivers == old(wokenReceivers)
      ensures wokenSenders == old(wokenSenders) - {t}
      ensures senders ==
        if r != Waits then old(senders) else if flag.Fifo? then old(senders) + [t] else Enqueued(old(senders), t)
      ensures r == Waits ==> t.timer == (0 < timeout)
      ensures t.error == if r == Waits then Eok else old(t.error)
    {
      hide RingOk, Lists, Calm, Enqueued;
      SenderRuns(t);
      EntryCounts();
      if entry == size && timeout == 0 && !again {
        return Refused(Efull);
      }
      if entry == size {
        t.error := Eok;
        if timeout == 0 {
          return Refused(Efull);
        }
        AwaitSlot(t, timeout);
        return Waits;
      }
      Deliver(value);
      r := Done;
    }

    /** A sender comes back from waiting: after an error its call is over, and otherwise it looks
        for a free slot again. One that a receive has woken always does so. */
    method SendBack(t: Thread, value: int, timeout: int) returns (r: Answer)
      requires Valid() && t !in receivers && t !in senders && t !in wokenReceivers
      requires t in wokenSenders <==> t.error == Eok
      modifies this, pool, t`error, t`timer, Members(receivers)`timer
      ensures Valid()
      ensures old(t !in wokenSenders) ==> r == Refused(old(t.error)) && mails == old(mails)
      ensures old(t in wokenSenders) ==>
        && t !in wokenSenders && mails == (if r == Done then old(mails) + [value] else old(mails))
        && r == if |old(mails)| < size then Done else if timeout == 0 then Refused(Efull) else Waits
    {
      hide RingOk, Lists, Calm, NoLostWakeup;
      if t.error != Eok {
        return Refused(t.error);
      }
      r := Send(t, value, timeout, true);
    }

    /** The sender `t` runs, so there may be one free slot more than woken senders. */
    ghost method SenderRuns(t: Thread)
      requires NoLostWakeup() && Lists() && Calm() && t !in receivers && t !in senders && t !in wokenReceivers
      modifies this`wokenSenders, this`inside
      ensures Lists() && Calm() && t !in inside && wokenSenders == old(wokenSenders) - {t}
      ensures old(t in wokenSenders) ==> t.error == Eok
      ensures receivers != [] ==> |mails| <= |wokenReceivers|
      ensures senders != [] ==> size - |mails| <= |wokenSenders| + 1
    {
      hide Distinct;
      OneLess(wokenSenders, t);
      wokenSenders, inside := wokenSenders - {t}, inside - {t};
    }

    /** The receiver `t` runs, so there may be one mail more than woken receivers. */
    ghost method ReceiverRuns(t: Thread)
      requires NoLostWakeup() && Lists() && Calm() && t !in receivers && t !in senders && t !in wokenSenders
      modifies this`wokenReceivers, this`inside
      ensures Lists() && Calm() && t !in inside && wokenReceivers == old(wokenReceivers) - {t}
      ensures receivers != [] ==> |mails| <= |wokenReceivers| + 1
      ensures senders != [] ==> size - |mails| <= |wokenSenders|
    {
      hide Distinct;
      OneLess(wokenReceivers, t);
      wokenReceivers, inside := wokenReceivers - {t}, inside - {t};
    }

    lemma EntryCounts()
      requires RingOk()
      ensures entry == |mails| <= size
    {
    }

    /** The sender `t` joins the list of a full mailbox. */
    method AwaitSlot(t: Thread, timeout: int)
      requires RingOk() && Lists() && Calm() && entry == size && t !in inside && t.error == Eok
      requires receivers != [] ==> |mails| <= |wokenReceivers|
      modifies this`senders, this`inside, t`timer
      ensures Valid() && t.timer == (0 < timeout)
      ensures senders == if flag.Fifo? then old(senders) + [t] else Enqueued(old(senders), t)
    {
      hide RingOk, Distinct, Enqueued;
      EntryCounts();
      if flag.Prio? {
        EnqueuedDistinct(senders, t);
      } else {
        AppendedDistinct(senders, t);
      }
      senders := ListSuspend(senders, t, flag);
      inside := inside + {t};
      t.timer := 0 < timeout;
    }

    /** A mail is stored and the first waiting receiver, if any, is woken. */
    method Deliver(value: int)
      requires RingOk() && Lists() && Calm() && entry < size
      requires receivers != [] ==> |mails| <= |wokenReceivers|
      requires senders != [] ==> size - |mails| <= |wokenSenders| + 1
      modifies this`inOffset, this`entry, this`mails, this`receivers, this`wokenReceivers, pool, Members(receivers)`timer
      ensures Valid() && mails == old(mails) + [value]
      ensures old(receivers) != [] ==>
        && receivers == old(receivers)[1..] && wokenReceivers == old(wokenReceivers) + {old(receivers)[0]}
        && !old(receivers)[0].timer && forall x :: x in receivers ==> x.timer == old(x.timer)
      ensures old(receivers) == [] ==> receivers == old(receivers) && wokenReceivers == old(wokenReceivers)
    {
      hide RingOk, Distinct;
      Put(value);
      if receivers != [] {
        FirstLeaves(receivers);
        wokenReceivers := wokenReceivers + {receivers[0]};
        receivers := ResumeFirst(receivers);
      }
    }

    method Put(value: int)
      requires RingOk() && entry < size
      modifies pool, this`inOffset, this`entry, this`mails
      ensures RingOk() && mails == old(mails) + [value]
    {
      pool[inOffset] := value;
      inOffset := inOffset + 1;
      if inOffset >= size {
        inOffset := 0;
      }
      entry := entry + 1;
      mails := mails + [value];
    }

    /** rt_mb_recv by the running thread `t`, up to where it waits. */
    method Recv(t: Thread, timeout: int, again: bool) returns (r: Answer, value: int)
      requires Valid() && t !in receivers && t !in senders && t !in wokenSenders
      requires again <==> t in wokenReceivers
      modifies this, t`error, t`timer, Members(senders)`timer
      ensures Valid()
      ensures r == if old(mails) != [] then Done else if timeout == 0 then Refused(Etimeout) else Waits
      ensures r == Done ==> value == old(mails)[0]
      ensures mails == if r == Done then old(mails)[1..] else old(mails)
      ensures r == Done && old(senders) != [] ==>
        && senders == old(senders)[1..] && wokenSenders == old(wokenSenders) + {old(senders)[0]}
        && !old(senders)[0].timer && forall x :: x in senders ==> x.timer == old(x.timer)
      ensures r != Done || old(senders) == [] ==> senders == old(senders) && wokenSenders == old(wokenSenders)
      ensures wokenReceivers == old(wokenReceivers) - {t}
      ensures receivers ==
        if r != Waits then old(receivers) else if flag.Fifo? then old(receivers) + [t] else Enqueued(old(receivers), t)
      ensures r == Waits ==> t.timer == (0 < timeout)
      ensures t.error == if r == Waits then Eok else if r.Refused? && again then Etimeout else old(t.error)
    {
      hide RingOk, Lists, Calm, Enqueued;
      ReceiverRuns(t);
      EntryCounts();
      value := 0;
      if entry == 0 && timeout == 0 && !again {
        return Refused(Etimeout), value;
      }
      if entry == 0 {
        t.error := Eok;
        if timeout == 0 {
          t.error := Etimeout;
          return Refused(Etimeout), value;
        }
        AwaitMail(t, timeout);
        return Waits, value;
      }
      value := Fetch();
      r := Done;
    }

    /** A receiver comes back from waiting: after an error its call is over, and otherwise it
        looks for a mail again. One that a send has woken always does so. */
    method RecvBack(t: Thread, timeout: int) returns (r: Answer, value: int)
      requires Valid() && t !in receivers && t !in senders && t !in wokenSenders
      requires t in wokenReceivers <==> t.error == Eok
      modifies this, t`error, t`timer, Members(senders)`timer
      ensures Valid()
      ensures old(t !in wokenReceivers) ==> r == Refused(old(t.error)) && mails == old(mails)
      ensures old(t in wokenReceivers) ==>
        && t !in wokenReceivers
        && r == (if old(mails) != [] then Done else if timeout == 0 then Refused(Etimeout) else Waits)
        && (r == Done ==> value == old(mails)[0])
        && mails == if r == Done then old(mails)[1..] else old(mails)
    {
      hide RingOk, Lists, Calm, NoLostWakeup;
      if t.error != Eok {
        return Refused(t.error), 0;
      }
      r, value := Recv(t, timeout, true);
    }

    method AwaitMail(t: Thread, timeout: int)
      requires RingOk() && Lists() && Calm() && entry == 0 && t !in inside && t.error == Eok
      requires senders != [] ==> size - |mails| <= |wokenSenders|
      modifies this`receivers, this`inside, t`timer
      ensures Valid() && t.timer == (0 < timeout)
      ensures receivers == if flag.Fifo? then old(receivers) + [t] else Enqueued(old(receivers), t)
    {
      hide RingOk, Distinct, Enqueued;
      EntryCounts();
      if flag.Prio? {
        EnqueuedDistinct(receivers, t);
      } else {
        AppendedDistinct(receivers, t);
      }
      receivers := ListSuspend(receivers, t, flag);
      inside := inside + {t};
      t.timer := 0 < timeout;
    }

    /** The first mail leaves, and the first waiting sender, if any, is woken. */
    method Fetch() returns (value: int)
      requires RingOk() && Lists() && Calm() && 0 < entry
      requires receivers != [] ==> |mails| <= |wokenReceivers| + 1
      requires senders != [] ==> size - |mails| <= |wokenSenders|
      modifies this`outOffset, this`entry, this`mails, this`senders, this`wokenSenders, Members(senders)`timer
      ensures Valid() && value == old(mails)[0] && mails == old(mails)[1..]
      ensures old(senders) != [] ==>
        && senders == old(senders)[1..] && wokenSenders == old(wokenSenders) + {old(senders)[0]}
        && !old(senders)[0].timer && forall x :: x in senders ==> x.timer == old(x.timer)
      ensures old(senders) == [] ==> senders == old(senders) && wokenSenders == old(wokenSenders)
    {
      hide RingOk, Distinct;
      value := Get();
      if senders != [] {
        FirstLeaves(senders);
        wokenSenders := wokenSenders + {senders[0]};
        senders := ResumeFirst(senders);
      }
    }

    method Get() returns (value: int)
      requires RingOk() && 0 < entry
      modifies this`outOffset, this`entry, this`mails
      ensures RingOk() && old(mails) != [] && value == old(mails)[0] && mails == old(mails)[1..]
    {
      value := pool[outOffset];
      assert pool[Slot(outOffset, 0, size)] == mails[0];
      ghost var out := outOffset;
      ghost var out' := if out + 1 >= size then 0 else out + 1;
      forall k | 0 <= k < entry - 1
        ensures Slot(out', k, size) == Slot(out, k + 1, size)
      {
      }
      outOffset := outOffset + 1;
      if outOffset >= size {
        outOffset := 0;
      }
      entry := entry - 1;
      mails := mails[1..];
    }

    /** The timer of a waiting thread expires (rt_thread_timeout). */
    method Timeout(t: Thread)
      requires Valid() && (t in receivers || t in senders) && t.timer
      modifies this`receivers, this`senders, this`inside, t`timer, t`error
      ensures Valid() && t.error == Etimeout && !t.timer && t !in receivers && t !in senders && mails == old(mails)
      ensures receivers == Without(old(receivers), t) && senders == Without(old(senders), t)
    {
      hide RingOk, Distinct, Without;
      t.timer := false;
      t.error := Etimeout;
      OneLeaves(receivers, t);
      OneLeaves(senders, t);
      receivers, senders, inside := Without(receivers, t), Without(senders, t), inside - {t};
    }

    method WakeAll()
      requires Lists() && Calm()
      modifies this`receivers, this`senders, this`inside,
               Members(receivers + senders)`error, Members(receivers + senders)`timer
      ensures Lists() && Calm() && receivers == senders == []
      ensures forall t :: t in old(receivers + senders) ==> t.error == Eerror && !t.timer
    {
      receivers := ResumeAll(receivers);
      senders := ResumeAll(senders);
      inside := wokenReceivers + wokenSenders;
    }

    /** rt_mb_control with RT_IPC_CMD_RESET: the mails are dropped and everyone who waits is
        resumed with an error. */
    method Reset()
      requires Valid()
      modifies this`entry, this`inOffset, this`outOffset, this`mails, this`receivers, this`senders,
               this`inside, Members(receivers + senders)`error, Members(receivers + senders)`timer
      ensures Valid() && mails == [] && receivers == senders == []
      ensures forall t :: t in old(receivers + senders) ==> t.error == Eerror && !t.timer
    {
      WakeAll();
      entry, inOffset, outOffset, mails := 0, 0, 0, [];
    }
  }
}
