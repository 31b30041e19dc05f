/** The message queue of rt-thread/src/ipc.c. A send, an urgent send or a receive runs in two
    sections with interrupts disabled and a copy between them, and other calls may run in
    between; a call that is under way is kept here with the block it holds. */
module MessageQueues {
  import opened Arithmetic
  import opened Ring
  import opened Ipc

  const NONE: int := -1
  const LINK := 4  // sizeof(struct rt_mq_message)

  type Byte = x: int | 0 <= x < 256
  type Message = seq<Byte>

  /** A call between its two sections: `block` is its local variable msg. */
  datatype Call =
    | Filling(block: int, message: Message, urgent: bool)
    | Linking(block: int, message: Message, urgent: bool)
    | Copying(block: int, size: nat)
    | Freeing(block: int, out: Message)

  datatype Answer = Proceeds | Refused(error: Error) | Waits

  /** Following `next` from `first` visits `list`. */
  ghost predicate Chain(first: int, next: seq<int>, list: seq<int>) {
    && first == (if list == [] then NONE else list[0])
    && (forall i :: 0 <= i < |list| ==> 0 <= list[i] < |next|)
    && (forall i, j :: 0 <= i && j == i + 1 < |list| ==> next[list[i]] == list[j])
    && (list != [] ==> next[list[|list| - 1]] == NONE)
  }

  ghost function InOrder(queue: seq<int>, sent: map<int, Message>): seq<Message> {
    seq(|queue|, i requires 0 <= i < |queue| => if queue[i] in sent then sent[queue[i]] else [])
  }

  /** Some call under way holds block `b`. */
  ghost predicate Held(calls: map<int, Call>, b: int) {
    exists i :: i in calls && calls[i].block == b
  }

  ghost predicate Apart(calls: map<int, Call>) {
    forall i, j :: i in calls && j in calls && calls[i].block == calls[j].block ==> i == j
  }

  /** Every block is in the free list, in the queue, or held by one call under way. */
  ghost predicate PartedBy(count: nat, free: seq<int>, queue: seq<int>, calls: map<int, Call>) {
    && (forall b :: 0 <= b < count <==> b in free || b in queue || Held(calls, b))
    && (forall b :: b in free ==> b !in queue && !Held(calls, b))
    && (forall b :: b in queue ==> !Held(calls, b))
    && Apart(calls)
  }

  /** One block changes its place. */
  lemma Repart(count: nat, free: seq<int>, queue: seq<int>, calls: map<int, Call>,
               free': seq<int>, queue': seq<int>, calls': map<int, Call>, b: int)
    requires PartedBy(count, free, queue, calls) && Apart(calls') && 0 <= b < count
    requires forall x :: x != b ==> (x in free' <==> x in free) && (x in queue' <==> x in queue)
    requires forall x :: x != b ==> (Held(calls', x) <==> Held(calls, x))
    requires b in free' ==> b !in queue' && !Held(calls', b)
    requires b in queue' ==> !Held(calls', b)
    requires b in free' || b in queue' || Held(calls', b)
    ensures PartedBy(count, free', queue', calls')
  {
    hide Held, Apart;
  }

  lemma PartFacts(count: nat, free: seq<int>, queue: seq<int>, calls: map<int, Call>)
    requires PartedBy(count, free, queue, calls)
    ensures Apart(calls)
    ensures forall i :: i in calls ==>
      0 <= calls[i].block < count && calls[i].block !in free && calls[i].block !in queue && Held(calls, calls[i].block)
    ensures forall b :: b in free ==> 0 <= b < count && b !in queue && !Held(calls, b)
    ensures forall b :: b in queue ==> 0 <= b < count && b !in free && !Held(calls, b)
  {
    CallsHold(calls);
    hide Held, Apart;
  }

  lemma CallsHold(calls: map<int, Call>)
    ensures forall i :: i in calls ==> Held(calls, calls[i].block)
  {
  }

  lemma CallAdded(calls: map<int, Call>, id: int, c: Call)
    requires Apart(calls) && id !in calls && !Held(calls, c.block)
    ensures Apart(calls[id := c]) && forall b :: Held(calls[id := c], b) <==> Held(calls, b) || b == c.block
  {
    var calls' := calls[id := c];
    forall b
      ensures Held(calls', b) <==> Held(calls, b) || b == c.block
    {
      if Held(calls, b) {
        var i :| i in calls && calls[i].block == b;
        assert calls'[i].block == b;
      }
      assert calls'[id].block == c.block;
    }
  }

  lemma CallMoved(calls: map<int, Call>, id: int, c: Call)
    requires Apart(calls) && id in calls && c.block == calls[id].block
    ensures Apart(calls[id := c]) && Held(calls, c.block) && forall b :: Held(calls[id := c], b) <==> Held(calls, b)
    ensures forall i :: i in calls && i != id ==> calls[i].block != c.block
  {
    var calls' := calls[id := c];
    forall b
      ensures Held(calls', b) <==> Held(calls, b)
    {
      if Held(calls, b) {
        var i :| i in calls && calls[i].block == b;
        assert calls'[i].block == b;
      }
    }
  }

  lemma CallDone(calls: map<int, Call>, id: int)
    requires Apart(calls) && id in calls
    ensures Apart(calls - {id}) && Held(calls, calls[id].block)
    ensures forall b :: Held(calls - {id}, b) <==> Held(calls, b) && b != calls[id].block
    ensures forall i :: i in calls && i != id ==> calls[i].block != calls[id].block
  {
    var calls' := calls - {id};
    forall b
      ensures Held(calls', b) <==> Held(calls, b) && b != calls[id].block
    {
      if Held(calls, b) && b != calls[id].block {
        var i :| i in calls && calls[i].block == b;
        assert calls'[i].block == b;
      }
    }
  }

  lemma Layout(size: nat, poolSize: nat)
    ensures var bytes := (size + 3) / 4 * 4;
      var count := poolSize / (bytes + LINK);
      && bytes % 4 == 0 && size <= bytes < size + 4
      && count * (bytes + LINK) <= poolSize < (count + 1) * (bytes + LINK)
  {
    Quotient(poolSize, (size + 3) / 4 * 4 + LINK);
  }

  class MessageQueue {
    const msgSize: nat
    const maxMsgs: nat
    const flag: Flag
    const next: array<int>
    const content: array<Message>
    var head: int
    var tail: int
    var free: int
    var entry: int
    var receivers: seq<Thread>
    var senders: seq<Thread>
    var calls: map<int, Call>
    ghost var freeList: seq<int>
    ghost var queue: seq<int>
    ghost var sent: map<int, Message>  // what each stored block carries
    // resumed by a send or a receive and not run since
    var wokenReceivers: set<Thread>
    var wokenSenders: set<Thread>
    ghost var inside: set<Thread>  // these and the threads that wait

    /** The two lists and the tail. */
    ghost predicate Links()
      reads this`head, this`tail, this`free, this`freeList, this`queue, next
    {
      && next.Length == maxMsgs
      && Chain(head, next[..], queue) && Chain(free, next[..], freeList)
      && tail == (if queue == [] then NONE else queue[|queue| - 1])
      && Distinct(queue) && Distinct(freeList)
    }

    ghost predicate Parted()
      reads this`freeList, this`queue, this`calls
    {
      PartedBy(maxMsgs, freeList, queue, calls)
    }

    /** Block `b` holds the message `m`. */
    ghost predicate Holds(b: int, m: Message)
      reads content
    {
      0 <= b < content.Length && |m| <= |content[b]| && content[b][..|m|] == m
    }

    /** No message has changed since it was handed over. */
    ghost predicate Contents()
      reads this`queue, this`calls, this`sent, content, next
    {
      && content.Length == maxMsgs == next.Length && (forall b :: 0 <= b < maxMsgs ==> |content[b]| == msgSize)
      && (forall b :: b in queue ==> b in sent && Holds(b, sent[b]))
      && (forall i :: i in calls ==> CallOk(calls[i]))
    }

    ghost predicate CallOk(c: Call)
      requires content.Length == next.Length
      reads this`sent, content, next
    {
      && 0 <= c.block < next.Length
      && match c
         case Filling(_, m, _) => |m| <= msgSize
         case Linking(b, m, urgent) => Holds(b, m) && (urgent || next[b] == NONE)
         case Copying(b, _) => b in sent && Holds(b, sent[b])
         case Freeing(b, out) => b in sent && Delivered(sent[b], out)
    }

    /** The pool, the two lists and the calls under way: no block is lost. */
    ghost predicate Stored()
      reads this`head, this`tail, this`free, this`entry, this`freeList, this`queue, this`calls, this`sent, next, content
    {
      Links() && Parted() && Contents() && entry == |queue| && |freeList| + |queue| + |calls| == maxMsgs
    }

    /** A thread waits in one list, once, or has been woken, or neither. */
    ghost predicate Lists()
      reads this`receivers, this`senders, this`wokenReceivers, this`wokenSenders, this`inside
    {
      && Distinct(receivers) && Distinct(senders)
      && (forall t :: t in receivers ==> t in inside && t !in wokenReceivers && t !in senders && t !in wokenSenders)
      && (forall t :: t in senders ==> t in inside && t !in wokenSenders && t !in wokenReceivers)
      && (forall t :: t in wokenReceivers ==> t in inside && t !in wokenSenders)
      && (forall t :: t in wokenSenders ==> t in inside)
    }

    /** Nobody who waits or has been woken carries an error. */
    ghost predicate Calm()
      reads this`inside, inside`error
    {
      forall t :: t in inside ==> t.error == Eok
    }

    /** No wake-up is lost: while a receiver waits there are no more messages than woken
        receivers, and while a sender waits no more free blocks than woken senders. */
    ghost predicate NoLostWakeup()
      reads this`queue, this`freeList, this`receivers, this`senders, this`wokenReceivers, this`wokenSenders
    {
      && (receivers != [] ==> |queue| <= |wokenReceivers|)
      && (senders != [] ==> |freeList| <= |wokenSenders|)
    }

    ghost predicate Valid()
      reads this, next, content, inside`error
    {
      Stored() && Lists() && Calm() && NoLostWakeup()
    }

    /** With every woken thread gone its way, a receiver waits only while nothing is stored,
        and a sender only while every block is stored or in the hands of a call. */
    lemma NobodyWaitsInVain()
      requires Valid()
      ensures receivers != [] && wokenReceivers == {} ==> entry == 0
      ensures senders != [] && wokenSenders == {} ==> free == NONE && |queue| + |calls| == maxMsgs
    {
      hide Parted, Contents, Distinct;
    }

    /** The stored messages, in the order in which they will be received. */
    ghost function Messages(): seq<Message>
      reads this`queue, this`sent
    {
      InOrder(queue, sent)
    }

    /** rt_mq_init: as many blocks as the pool has room for, each a link and a message of
        aligned size; the last block is the first free one. */
    constructor (size: nat, poolSize: nat, f: Flag)
      ensures Valid() && Messages() == [] && calls == map[] && fresh(next) && fresh(content)
      ensures msgSize % 4 == 0 && size <= msgSize < size + 4 && receivers == senders == []
      ensures maxMsgs * (msgSize + 4) <= poolSize < (maxMsgs + 1) * (msgSize + 4)
      ensures free == maxMsgs - 1 && flag == f
    {
      var bytes := (size + 3) / 4 * 4;
      var count := poolSize / (bytes + LINK);
      Layout(size, poolSize);
      msgSize, maxMsgs, flag := bytes, count, f;
      next := new int[count](_ => NONE);
      content := new Message[count](_ => seq(bytes, _ => 0));
      head, tail, free, entry, receivers, senders, calls := NONE, NONE, NONE, 0, [], [], map[];
      freeList, queue, sent, wokenReceivers, wokenSenders, inside := [], [], map[], {}, {}, {};
      new;
      NobodyYet();
      hide Lists, Calm, NoLostWakeup, Chain, Distinct, PartedBy, CallOk, Holds, InOrder;
      FreeAll(count);
      AllFree(count, freeList);
    }

    lemma NobodyYet()
      requires receivers == senders == [] && wokenReceivers == wokenSenders == inside == {}
      ensures Lists() && Calm() && NoLostWakeup()
    {
    }

    method FreeAll(count: nat)
      requires count == maxMsgs == next.Length && freeList == queue == [] && head == tail == free == NONE
      modifies this`free, this`freeList, next
      ensures Links() && |freeList| == count && free == count - 1 && forall b :: b in freeList <==> 0 <= b < count
    {
      hide Chain;
      NoChain(next[..]);
      for temp := 0 to count
        invariant Links() && queue == [] && |freeList| == temp && free == temp - 1
        invariant forall b :: b in freeList <==> 0 <= b < temp
      {
        ghost var before := next[..];
        HeadOf(before, freeList, free);
        next[temp] := free;
        free := temp;
        Pushed(before, next[..], temp, freeList, queue, head);
        freeList := [temp] + freeList;
      }
    }

    /** The first section of a send: a free block, or an error, or waiting in the list of
        senders. A thread that waited and was resumed without an error tries again. */
    method SendTake(id: int, t: Thread, message: Message, timeout: int) returns (r: Answer)
      requires Valid() && id !in calls && t !in receivers && t !in senders && t !in wokenReceivers
      modifies this`free, this`freeList, this`calls, this`senders, this`wokenSenders, this`inside, t`error, t`timer
      ensures Valid() && Messages() == old(Messages())
      ensures r == if msgSize < |message| then Refused(Eerror)
                   else if old(free) != NONE then Proceeds else if timeout == 0 then Refused(Efull) else Waits
      ensures calls == if r == Proceeds then old(calls)[id := Filling(old(free), message, false)] else old(calls)
      ensures r != Proceeds ==> free == old(free)
      ensures senders ==
        if r != Waits then old(senders) else if flag.Fifo? then old(senders) + [t] else Enqueued(old(senders), t)
      ensures wokenSenders == if r == Refused(Eerror) then old(wokenSenders) else old(wokenSenders) - {t}
      ensures r == Waits ==> t.timer == (0 < timeout)
      ensures t.error == if r == Waits then Eok else old(t.error)
    {
      hide Stored, Lists, Calm, NoLostWakeup, Messages, Enqueued;
      if msgSize < |message| {
        return Refused(Eerror);
      }
      FreeIsFirst();
      var again := SenderRuns(t);
      if free == NONE {
        r := SendFull(t, timeout, again);
      } else {
        SendFirst(id, message);
        r := Proceeds;
      }
    }

    /** A sender comes back from waiting: after an error its call is over, and otherwise it looks
        for a free block again. One that a receive has woken always does so. */
    method SendBack(id: int, t: Thread, message: Message, timeout: int) returns (r: Answer)
      requires Valid() && id !in calls && t !in receivers && t !in senders && t !in wokenReceivers
      requires |message| <= msgSize && (t in wokenSenders || t.error != Eok)
      modifies this`free, this`freeList, this`calls, this`senders, this`wokenSenders, this`inside, t`error, t`timer
      ensures Valid() && Messages() == old(Messages())
      ensures old(t in wokenSenders) ==>
        t !in wokenSenders && r == if old(free) != NONE then Proceeds else if timeout == 0 then Refused(Efull) else Waits
      ensures old(t !in wokenSenders) ==> r == Refused(old(t.error)) && calls == old(calls) && senders == old(senders)
      ensures r == Proceeds ==> calls == old(calls)[id := Filling(old(free), message, false)]
    {
      hide Stored, Messages, Distinct, Enqueued, NoLostWakeup;
      if t.error != Eok {
        return Refused(t.error);
      }
      r := SendTake(id, t, message, timeout);
    }

    /** While `t` runs there may be one free block more than woken senders. */
    ghost predicate NearlyNoLostSender(woken: set<Thread>)
      reads this`queue, this`freeList, this`receivers, this`senders, this`wokenReceivers
    {
      && (receivers != [] ==> |queue| <= |wokenReceivers|)
      && (senders != [] ==> |freeList| <= |woken| + 1)
    }

    /** The sender `t` runs; it may have been woken. */
    method SenderRuns(t: Thread) returns (again: bool)
      requires Stored() && Lists() && Calm() && NoLostWakeup()
      requires t !in receivers && t !in senders && t !in wokenReceivers
      modifies this`wokenSenders, this`inside
      ensures Stored() && Lists() && Calm() && NearlyNoLostSender(wokenSenders)
      ensures t !in inside && wokenSenders == old(wokenSenders) - {t} && (again ==> t.error == Eok)
    {
      hide Stored, NoLostWakeup, NearlyNoLostSender, Distinct;
      OneSenderLess(t);
      again := t in wokenSenders;
      wokenSenders, inside := wokenSenders - {t}, inside - {t};
    }

    lemma OneSenderLess(t: Thread)
      requires NoLostWakeup()
      ensures NearlyNoLostSender(wokenSenders - {t})
    {
      OneLess(wokenSenders, t);
    }

    /** The first free block goes to the call. */
    method SendFirst(id: int, message: Message)
      requires Stored() && Lists() && Calm() && id !in calls && |message| <= msgSize && free != NONE
      requires NearlyNoLostSender(wokenSenders)
      modifies this`free, this`freeList, this`calls
      ensures Valid() && calls == old(calls)[id := Filling(old(free), message, false)]
    {
      hide Stored, Distinct;
      TakeFree(id, message, false);
    }

    /** No block is free: an error, or waiting. */
    method SendFull(t: Thread, timeout: int, again: bool) returns (r: Answer)
      requires Stored() && Lists() && Calm() && freeList == [] && t !in inside
      requires (again ==> t.error == Eok)
      requires NearlyNoLostSender(wokenSenders)
      modifies this`senders, this`inside, t`error, t`timer
      ensures Valid() && r == if timeout == 0 then Refused(Efull) else Waits
      ensures senders ==
        if r != Waits then old(senders) else if flag.Fifo? then old(senders) + [t] else Enqueued(old(senders), t)
      ensures r == Waits ==> t.timer == (0 < timeout)
      ensures t.error == if r == Waits then Eok else old(t.error)
    {
      hide Stored, Distinct, Enqueued;
      if timeout == 0 {
        if again {
          t.error := Eok;
        }
        return Refused(Efull);
      }
      AwaitBlock(t, timeout);
      r := Waits;
    }

    method AwaitBlock(t: Thread, timeout: int)
      requires Stored() && Lists() && Calm() && freeList == [] && t !in inside
      requires (receivers != [] ==> |queue| <= |wokenReceivers|)
      modifies this`senders, this`inside, t`error, t`timer
      ensures Valid() && t.timer == (0 < timeout) && t.error == Eok
      ensures senders == if flag.Fifo? then old(senders) + [t] else Enqueued(old(senders), t)
    {
      hide Stored, Distinct, Enqueued;
      t.error := Eok;
      if flag.Prio? {
        EnqueuedDistinct(senders, t);
      } else {
        AppendedDistinct(senders, t);
      }
      senders := ListSuspend(senders, t, flag);
      inside := inside + {t};
      t.timer := 0 < timeout;
    }

    lemma FreeIsFirst()
      requires Stored()
      ensures free == NONE <==> freeList == []
      ensures head == NONE <==> queue == []
    {
    }

    /** The first section of an urgent send, which never waits. */
    method UrgentTake(id: int, message: Message) returns (r: Answer)
      requires Valid() && id !in calls
      modifies this`free, this`freeList, this`calls
      ensures Valid() && Messages() == old(Messages())
      ensures r == if msgSize < |message| then Refused(Eerror) else if old(free) == NONE then Refused(Efull) else Proceeds
      ensures calls == if r == Proceeds then old(calls)[id := Filling(old(free), message, true)] else old(calls)
    {
      hide Stored, Messages, Distinct, Enqueued;
      if msgSize < |message| {
        return Refused(Eerror);
      }
      FreeIsFirst();
      if free == NONE {
        return Refused(Efull);
      }
      TakeFree(id, message, true);
      r := Proceeds;
    }

    method TakeFree(id: int, message: Message, urgent: bool)
      requires Stored() && id !in calls && |message| <= msgSize && free != NONE
      modifies this`free, this`freeList, this`calls
      ensures Stored() && |freeList| == |old(freeList)| - 1 && calls == old(calls)[id := Filling(old(free), message, urgent)]
    {
      hide Chain, Distinct, Held, Apart, PartedBy;
      var msg := free;
      Popped(free, next[..], freeList);
      PartFacts(maxMsgs, freeList, queue, calls);
      CallAdded(calls, id, Filling(msg, message, urgent));
      free := next[msg];
      freeList := freeList[1..];
      calls := calls[id := Filling(msg, message, urgent)];
      Repart(maxMsgs, old(freeList), old(queue), old(calls), freeList, queue, calls, msg);
      forall i | i in calls
        ensures CallOk(calls[i])
      {
        assert i != id ==> old(i in calls && CallOk(calls[i]));
      }
    }

    /** Between the sections: the block belongs to the caller alone. */
    method Fill(id: int)
      requires Valid() && id in calls && calls[id].Filling?
      modifies this`calls, next, content
      ensures Valid() && Messages() == old(Messages())
      ensures var c := old(calls)[id]; calls == old(calls)[id := Linking(c.block, c.message, c.urgent)]
    {
      hide Links, Held, Apart, PartedBy, Lists, NoLostWakeup, InOrder, Holds;
      var Filling(msg, message, urgent) := calls[id];
      PartFacts(maxMsgs, freeList, queue, calls);
      CallMoved(calls, id, Linking(msg, message, urgent));
      Write(msg, message, urgent);
      calls := calls[id := Linking(msg, message, urgent)];
      Repart(maxMsgs, old(freeList), old(queue), old(calls), freeList, queue, calls, msg);
      forall i | i in calls
        ensures CallOk(calls[i])
      {
        assert i != id ==> old(i in calls && CallOk(calls[i]));
      }
    }

    method Write(msg: int, message: Message, urgent: bool)
      requires Links() && 0 <= msg < content.Length == next.Length && msg !in queue && msg !in freeList
      requires |message| <= |content[msg]|
      modifies next, content
      ensures Links() && Holds(msg, message) && |content[msg]| == |old(content[msg])|
      ensures urgent || next[msg] == NONE
      ensures forall b :: 0 <= b < next.Length && b != msg ==> next[b] == old(next[b]) && content[b] == old(content[b])
      ensures forall b, m :: b != msg ==> Holds(b, m) == old(Holds(b, m))
    {
      hide Chain, Distinct;
      ghost var before := next[..];
      if !urgent {
        next[msg] := NONE;
        Untouched(before, next[..], msg, queue, head);
        Untouched(before, next[..], msg, freeList, free);
      }
      content[msg] := message + content[msg][|message|..];
    }

    /** The second section of a send: the message joins the queue, at the end or, if it is
        urgent, in front, and the first waiting receiver is woken. */
    method Link(id: int)
      requires Valid() && id in calls && calls[id].Linking?
      modifies this`head, this`tail, this`entry, this`calls, this`queue, this`sent, this`receivers, this`wokenReceivers,
               next, Members(receivers)`timer
      ensures Valid() && calls == old(calls) - {id}
      ensures var c := old(calls)[id];
        Messages() == if c.urgent then [c.message] + old(Messages()) else old(Messages()) + [c.message]
      ensures old(receivers) == [] ==> receivers == [] && wokenReceivers == old(wokenReceivers)
      ensures old(receivers) != [] ==>
        && receivers == old(receivers)[1..] && wokenReceivers == old(wokenReceivers) + {old(receivers)[0]}
        && !old(receivers)[0].timer && forall t :: t in receivers ==> t.timer == old(t.timer)
      ensures sent == old(sent)[old(calls)[id].block := old(calls)[id].message]
    {
      hide Stored, Messages, Distinct, Enqueued;
      Store(id);
      if receivers != [] {
        WakeReceiver();
      }
    }

    /** The first waiting receiver is woken. */
    method WakeReceiver()
      requires Stored() && Lists() && Calm() && receivers != []
      requires |queue| <= |wokenReceivers| + 1 && (senders != [] ==> |freeList| <= |wokenSenders|)
      modifies this`receivers, this`wokenReceivers, Members(receivers)`timer
      ensures Valid() && receivers == old(receivers)[1..] && !old(receivers)[0].timer
      ensures forall t :: t in receivers ==> t.timer == old(t.timer)
      ensures wokenReceivers == old(wokenReceivers) + {old(receivers)[0]}
    {
      hide Stored, Distinct;
      FirstLeaves(receivers);
      wokenReceivers := wokenReceivers + {receivers[0]};
      receivers := ResumeFirst(receivers);
    }

    method Store(id: int)
      requires Stored() && id in calls && calls[id].Linking?
      modifies this`head, this`tail, this`entry, this`calls, this`queue, this`sent, next
      ensures Stored() && |queue| == |old(queue)| + 1 && calls == old(calls) - {id}
      ensures var c := old(calls)[id];
        Messages() == if c.urgent then [c.message] + old(Messages()) else old(Messages()) + [c.message]
      ensures sent == old(sent)[old(calls)[id].block := old(calls)[id].message]
    {
      hide Links, Held, Apart, PartedBy, InOrder, Delivered, Holds, Chain, Distinct;
      var Linking(msg, message, urgent) := calls[id];
      PartFacts(maxMsgs, freeList, queue, calls);
      CallDone(calls, id);
      Linked(queue, sent, msg, message, urgent);
      assert CallOk(calls[id]);
      LinkBlock(msg, urgent);
      Repart(maxMsgs, old(freeList), old(queue), old(calls), freeList, queue, calls - {id}, msg);
      forall i | i in calls && i != id
        ensures CallOk(calls[i])
      {
        assert old(CallOk(calls[i]));
      }
      Record(id, msg, message);
    }

    /** The books once the block `msg` of the call `id` is in the queue. */
    method Record(id: int, msg: int, message: Message)
      requires Links() && id in calls && msg in queue && Holds(msg, message)
      requires content.Length == maxMsgs == next.Length && forall b :: 0 <= b < maxMsgs ==> |content[b]| == msgSize
      requires forall b :: b in queue && b != msg ==> b in sent && Holds(b, sent[b])
      requires forall i :: i in calls && i != id ==> CallOk(calls[i]) && calls[i].block != msg
      requires PartedBy(maxMsgs, freeList, queue, calls - {id})
      requires entry + 1 == |queue| && |freeList| + |queue| + |calls| == maxMsgs + 1
      modifies this`entry, this`calls, this`sent
      ensures Stored() && calls == old(calls) - {id} && sent == old(sent)[msg := message]
    {
      hide Links, PartedBy, Holds, Delivered;
      entry := entry + 1;
      calls := calls - {id};
      sent := sent[msg := message];
      forall i | i in calls
        ensures CallOk(calls[i])
      {
        assert old(CallOk(calls[i]));
      }
    }

    method LinkBlock(msg: int, urgent: bool)
      requires Links() && 0 <= msg < next.Length && msg !in queue && msg !in freeList
      requires urgent || next[msg] == NONE
      requires forall b :: b in queue ==> b !in freeList
      modifies this`head, this`tail, this`queue, next
      ensures Links() && queue == if urgent then [msg] + old(queue) else old(queue) + [msg]
      ensures forall b :: b in queue <==> b == msg || b in old(queue)
      ensures forall b :: 0 <= b < next.Length && b != msg && b !in old(queue) ==> next[b] == old(next[b])
    {
      hide Chain, Distinct;
      if urgent {
        LinkFirst(msg);
      } else {
        LinkLast(msg);
      }
      queue := if urgent then [msg] + queue else queue + [msg];
    }

    /** Behind the tail. The link of `msg` is null since Fill. */
    method LinkLast(msg: int)
      requires Links() && 0 <= msg < maxMsgs && msg !in queue && msg !in freeList && next[msg] == NONE
      requires forall b :: b in queue ==> b !in freeList
      modifies this`head, this`tail, next
      ensures forall b :: 0 <= b < maxMsgs && b !in queue ==> next[b] == old(next[b])
      ensures next.Length == maxMsgs && Chain(head, next[..], queue + [msg]) && Chain(free, next[..], freeList)
      ensures tail == msg && Distinct(queue + [msg])
    {
      hide Chain, Distinct;
      ghost var before := next[..];
      ChainExtended(before, msg, queue, head);
      if tail != NONE {
        TailInside(before, queue, head);
        next[tail] := msg;
        Untouched(before, next[..], tail, freeList, free);
      }
      tail := msg;
      if head == NONE {
        head := msg;
      }
    }

    /** In front of the head. */
    method LinkFirst(msg: int)
      requires Links() && 0 <= msg < maxMsgs && msg !in queue && msg !in freeList
      modifies this`head, this`tail, next
      ensures forall b :: 0 <= b < maxMsgs && b != msg ==> next[b] == old(next[b])
      ensures next.Length == maxMsgs && Chain(head, next[..], [msg] + queue) && Chain(free, next[..], freeList)
      ensures tail == (if queue == [] then msg else queue[|queue| - 1]) && Distinct([msg] + queue)
    {
      hide Chain, Distinct;
      ghost var before := next[..];
      HeadOf(before, queue, head);
      Pushed(before, before[msg := head], msg, queue, freeList, free);
      next[msg] := head;
      head := msg;
      if tail == NONE {
        tail := msg;
      }
    }

    /** The first section of a receive: the message in front leaves the queue, or there is an
        error, or the thread waits. */
    method RecvTake(id: int, t: Thread, size: nat, timeout: int) returns (r: Answer)
      requires Valid() && id !in calls && t !in receivers && t !in senders && t !in wokenSenders
      modifies this`head, this`tail, this`entry, this`queue, this`calls, this`receivers, this`wokenReceivers,
               this`inside, t`error, t`timer
      ensures Valid()
      ensures r == if old(Messages()) != [] then Proceeds else if timeout == 0 then Refused(Etimeout) else Waits
      ensures r == Proceeds ==>
        && old(Messages()) != [] && Messages() == old(Messages())[1..]
        && id in calls && calls[id].Copying? && calls == old(calls)[id := Copying(calls[id].block, size)]
        && calls[id].block in sent && sent[calls[id].block] == old(Messages())[0]
      ensures r != Proceeds ==> Messages() == old(Messages()) && calls == old(calls)
      ensures receivers ==
        if r != Waits then old(receivers) else if flag.Fifo? then old(receivers) + [t] else Enqueued(old(receivers), t)
      ensures wokenReceivers == old(wokenReceivers) - {t}
      ensures r == Waits ==> t.timer == (0 < timeout)
      ensures t.error ==
        if r == Waits then Eok else if r.Refused? && old(t in wokenReceivers) then Etimeout else old(t.error)
    {
      hide Stored, Lists, Calm, NoLostWakeup, Messages, Enqueued;
      EntryCounts();
      var again := ReceiverRuns(t);
      if entry == 0 {
        r := RecvEmpty(t, timeout, again);
      } else {
        RecvFirst(id, size);
        r := Proceeds;
      }
    }

    /** A receiver comes back from waiting: after an error its call is over, and otherwise it
        looks for a message again. One that a send has woken always does so. */
    method RecvBack(id: int, t: Thread, size: nat, timeout: int) returns (r: Answer)
      requires Valid() && id !in calls && t !in receivers && t !in senders && t !in wokenSenders
      requires t in wokenReceivers || t.error != Eok
      modifies this`head, this`tail, this`entry, this`queue, this`calls, this`receivers, this`wokenReceivers,
               this`inside, t`error, t`timer
      ensures Valid()
      ensures old(t in wokenReceivers) ==>
        t !in wokenReceivers && r == if old(Messages()) != [] then Proceeds else if timeout == 0 then Refused(Etimeout) else Waits
      ensures old(t !in wokenReceivers) ==> r == Refused(old(t.error)) && receivers == old(receivers)
      ensures r == Proceeds ==>
        && old(Messages()) != [] && Messages() == old(Messages())[1..]
        && id in calls && calls[id].Copying? && calls[id].block in sent && sent[calls[id].block] == old(Messages())[0]
      ensures r != Proceeds ==> Messages() == old(Messages()) && calls == old(calls)
    {
      hide Stored, Messages, Distinct, Enqueued, NoLostWakeup;
      if t.error != Eok {
        return Refused(t.error);
      }
      r := RecvTake(id, t, size, timeout);
    }

    /** While `t` runs there may be one message more than woken receivers. */
    ghost predicate NearlyNoLostWakeup(woken: set<Thread>)
      reads this`queue, this`freeList, this`receivers, this`senders, this`wokenSenders
    {
      && (receivers != [] ==> |queue| <= |woken| + 1)
      && (senders != [] ==> |freeList| <= |wokenSenders|)
    }

    /** The receiver `t` runs; it may have been woken. */
    method ReceiverRuns(t: Thread) returns (again: bool)
      requires Stored() && Lists() && Calm() && NoLostWakeup()
      requires t !in receivers && t !in senders && t !in wokenSenders
      modifies this`wokenReceivers, this`inside
      ensures Stored() && Lists() && Calm() && NearlyNoLostWakeup(wokenReceivers)
      ensures t !in inside && wokenReceivers == old(wokenReceivers) - {t} && again == (t in old(wokenReceivers))
    {
      hide Stored, NoLostWakeup, NearlyNoLostWakeup, Distinct;
      OneReceiverLess(t);
      again := t in wokenReceivers;
      wokenReceivers, inside := wokenReceivers - {t}, inside - {t};
    }

    lemma OneReceiverLess(t: Thread)
      requires NoLostWakeup()
      ensures NearlyNoLostWakeup(wokenReceivers - {t})
    {
      OneLess(wokenReceivers, t);
    }

    /** The message in front leaves the queue. */
    method RecvFirst(id: int, size: nat)
      requires Stored() && Lists() && Calm() && id !in calls && Messages() != [] && NearlyNoLostWakeup(wokenReceivers)
      modifies this`head, this`tail, this`entry, this`queue, this`calls
      ensures Valid() && Messages() == old(Messages())[1..]
      ensures calls == old(calls)[id := Copying(old(head), size)]
      ensures old(head) in sent && sent[old(head)] == old(Messages())[0]
    {
      hide Stored, Messages, Distinct;
      Unlink(id, size);
    }

    /** Nothing is stored: an error, or waiting. */
    method RecvEmpty(t: Thread, timeout: int, again: bool) returns (r: Answer)
      requires Stored() && Lists() && Calm() && queue == [] && t !in inside
      requires NearlyNoLostWakeup(wokenReceivers)
      modifies this`receivers, this`inside, t`error, t`timer
      ensures Valid() && r == if timeout == 0 then Refused(Etimeout) else Waits
      ensures receivers ==
        if r != Waits then old(receivers) else if flag.Fifo? then old(receivers) + [t] else Enqueued(old(receivers), t)
      ensures r == Waits ==> t.timer == (0 < timeout)
      ensures t.error == if r == Waits then Eok else if again then Etimeout else old(t.error)
    {
      hide Stored, Distinct, Enqueued;
      if timeout == 0 {
        if again {
          t.error := Etimeout;
        }
        return Refused(Etimeout);
      }
      AwaitMessage(t, timeout);
      r := Waits;
    }

    method AwaitMessage(t: Thread, timeout: int)
      requires Stored() && Lists() && Calm() && queue == [] && t !in inside
      requires (senders != [] ==> |freeList| <= |wokenSenders|)
      modifies this`receivers, this`inside, t`error, t`timer
      ensures Valid() && t.timer == (0 < timeout) && t.error == Eok
      ensures receivers == if flag.Fifo? then old(receivers) + [t] else Enqueued(old(receivers), t)
    {
      hide Stored, Distinct, Enqueued;
      t.error := Eok;
      if flag.Prio? {
        EnqueuedDistinct(receivers, t);
      } else {
        AppendedDistinct(receivers, t);
      }
      receivers := ListSuspend(receivers, t, flag);
      inside := inside + {t};
      t.timer := 0 < timeout;
    }

    lemma EntryCounts()
      requires Stored()
      ensures entry == |Messages()| == |queue|
    {
    }

    method Unlink(id: int, size: nat)
      requires Stored() && id !in calls && Messages() != []
      modifies this`head, this`tail, this`entry, this`queue, this`calls
      ensures Stored() && |queue| == |old(queue)| - 1 && Messages() == old(Messages())[1..]
      ensures calls == old(calls)[id := Copying(old(head), size)]
      ensures old(head) in sent && sent[old(head)] == old(Messages())[0]
    {
      hide Chain, Distinct, Held, Apart, PartedBy;
      var msg := head;
      HeadOf(next[..], queue, head);
      Popped(head, next[..], queue);
      PartFacts(maxMsgs, freeList, queue, calls);
      CallAdded(calls, id, Copying(msg, size));
      TailOf(queue);
      head := next[msg];
      if tail == msg {
        tail := NONE;
      }
      entry := entry - 1;
      queue := queue[1..];
      calls := calls[id := Copying(msg, size)];
      Repart(maxMsgs, old(freeList), old(queue), old(calls), freeList, queue, calls, msg);
      forall i | i in calls
        ensures CallOk(calls[i])
      {
        assert i != id ==> old(i in calls && CallOk(calls[i]));
      }
    }

    /** Between the sections: the receiver copies the message out. */
    method Copy(id: int) returns (out: Message)
      requires Valid() && id in calls && calls[id].Copying?
      modifies this`calls
      ensures Valid() && Messages() == old(Messages())
      ensures var c := old(calls)[id];
        && calls == old(calls)[id := Freeing(c.block, out)] && |out| == Min(c.size, msgSize)
        && c.block in sent && |sent[c.block]| <= msgSize && Delivered(sent[c.block], out)
        && forall k :: 0 <= k < |out| && k < |sent[c.block]| ==> out[k] == sent[c.block][k]
    {
      hide Chain, Distinct, Held, Apart, PartedBy, Lists, NoLostWakeup, InOrder;
      var Copying(msg, size) := calls[id];
      PartFacts(maxMsgs, freeList, queue, calls);
      assert CallOk(calls[id]);
      out := content[msg][..if size > msgSize then msgSize else size];
      CallMoved(calls, id, Freeing(msg, out));
      calls := calls[id := Freeing(msg, out)];
      Repart(maxMsgs, old(freeList), old(queue), old(calls), freeList, queue, calls, msg);
      forall i | i in calls
        ensures CallOk(calls[i])
      {
        assert i != id ==> old(i in calls && CallOk(calls[i]));
      }
    }

    /** The second section of a receive: the block is free again, and the first waiting sender
        is woken. */
    method Free(id: int)
      requires Valid() && id in calls && calls[id].Freeing?
      modifies this`free, this`freeList, this`calls, this`senders, this`wokenSenders, next, Members(senders)`timer
      ensures Valid() && Messages() == old(Messages()) && calls == old(calls) - {id}
      ensures free == old(calls)[id].block
      ensures old(senders) == [] ==> senders == [] && wokenSenders == old(wokenSenders)
      ensures old(senders) != [] ==>
        && senders == old(senders)[1..] && wokenSenders == old(wokenSenders) + {old(senders)[0]}
        && !old(senders)[0].timer && forall t :: t in senders ==> t.timer == old(t.timer)
    {
      hide Stored, Messages, Distinct, Enqueued;
      Release(id);
      if senders != [] {
        WakeSender();
      }
    }

    /** The first waiting sender is woken. */
    method WakeSender()
      requires Stored() && Lists() && Calm() && senders != []
      requires |freeList| <= |wokenSenders| + 1 && (receivers != [] ==> |queue| <= |wokenReceivers|)
      modifies this`senders, this`wokenSenders, Members(senders)`timer
      ensures Valid() && senders == old(senders)[1..] && !old(senders)[0].timer
      ensures forall t :: t in senders ==> t.timer == old(t.timer)
      ensures wokenSenders == old(wokenSenders) + {old(senders)[0]}
    {
      hide Stored, Distinct;
      FirstLeaves(senders);
      wokenSenders := wokenSenders + {senders[0]};
      senders := ResumeFirst(senders);
    }

    method Release(id: int)
      requires Stored() && id in calls && calls[id].Freeing?
      modifies this`free, this`freeList, this`calls, next
      ensures Stored() && |freeList| == |old(freeList)| + 1 && Messages() == old(Messages()) && calls == old(calls) - {id}
      ensures free == old(calls)[id].block
    {
      hide Chain, Distinct, Held, Apart, PartedBy;
      var msg := calls[id].block;
      PartFacts(maxMsgs, freeList, queue, calls);
      CallDone(calls, id);
      HeadOf(next[..], freeList, free);
      Pushed(next[..], next[..][msg := free], msg, freeList, queue, head);
      next[msg] := free;
      free := msg;
      freeList := [msg] + freeList;
      calls := calls - {id};
      Repart(maxMsgs, old(freeList), old(queue), old(calls), freeList, queue, calls, msg);
      forall i | i in calls
        ensures CallOk(calls[i])
      {
        assert i != id ==> old(i in calls && CallOk(calls[i]));
      }
    }

    /** The timer of a waiting thread expires (rt_thread_timeout). */
    method Timeout(t: Thread)
      requires Valid() && (t in receivers || t in senders) && t.timer
      modifies this`receivers, this`senders, this`inside, t`timer, t`error
      ensures Valid() && Messages() == old(Messages()) && t.error == Etimeout && !t.timer
      ensures receivers == Without(old(receivers), t) && senders == Without(old(senders), t)
    {
      hide Stored, Messages, Distinct, Without;
      t.timer := false;
      t.error := Etimeout;
      OneLeaves(receivers, t);
      OneLeaves(senders, t);
      receivers, senders, inside := Without(receivers, t), Without(senders, t), inside - {t};
    }

    /** rt_mq_control with RT_IPC_CMD_RESET: every stored message is dropped and its block
        freed, and everyone who waits is woken; calls under way keep their blocks. */
    method Reset()
      requires Valid()
      modifies this`head, this`tail, this`free, this`entry, this`queue, this`freeList, this`receivers, this`senders,
               this`inside, next, Members(receivers + senders)`timer, Members(receivers + senders)`error
      ensures Valid() && Messages() == [] && calls == old(calls) && receivers == senders == []
      ensures queue == []
      ensures forall t :: t in old(receivers + senders) ==> t.error == Eerror && !t.timer
    {
      hide Stored, Lists, Calm, Messages;
      WakeAll();
      DropAll();
    }

    method WakeAll()
      requires Stored() && Lists() && Calm()
      modifies this`receivers, this`senders, this`inside,
               Members(receivers + senders)`timer, Members(receivers + senders)`error
      ensures Stored() && Lists() && Calm() && receivers == senders == []
      ensures forall t :: t in old(receivers + senders) ==> t.error == Eerror && !t.timer
    {
      hide Stored;
      receivers := ResumeAll(receivers);
      senders := ResumeAll(senders);
      inside := wokenReceivers + wokenSenders;
    }

    method DropAll()
      requires Stored()
      modifies this`head, this`tail, this`free, this`entry, this`queue, this`freeList, next
      ensures Stored() && Messages() == [] && queue == []
    {
      hide Links, Parted, Contents, InOrder;
      while head != NONE
        modifies this`head, this`tail, this`free, this`queue, this`freeList, next
        invariant Links() && Parted() && Contents() && |freeList| + |queue| + |calls| == maxMsgs
        decreases |queue|
      {
        DropHead();
      }
      NothingStored();
      entry := 0;
    }

    lemma NothingStored()
      requires Links() && head == NONE
      ensures queue == [] && Messages() == []
    {
    }

    method DropHead()
      requires Links() && Parted() && Contents() && head != NONE
      modifies this`head, this`tail, this`free, this`queue, this`freeList, next
      ensures Links() && Parted() && Contents()
      ensures |queue| == |old(queue)| - 1 && |freeList| == |old(freeList)| + 1
    {
      hide Chain, Distinct, Held, Apart, PartedBy;
      var msg := head;
      Popped(head, next[..], queue);
      TailOf(queue);
      PartFacts(maxMsgs, freeList, queue, calls);
      head := next[msg];
      if tail == msg {
        tail := NONE;
      }
      HeadOf(next[..], freeList, free);
      queue := queue[1..];
      Pushed(next[..], next[..][msg := free], msg, freeList, queue, head);
      next[msg] := free;
      free := msg;
      freeList := [msg] + freeList;
      Repart(maxMsgs, old(freeList), old(queue), old(calls), freeList, queue, calls, msg);
      forall i | i in calls
        ensures CallOk(calls[i])
      {
        assert old(CallOk(calls[i]));
      }
    }
  }

  /** What a receiver gets is the message that was sent, as far as both reach. */
  ghost predicate Delivered(m: Message, out: Message) {
    var n := Min(|m|, |out|);
    m[..n] == out[..n]
  }

  /** Putting `b` in front of a chain, next to another one. */
  lemma Pushed(next: seq<int>, next': seq<int>, b: int, list: seq<int>, other: seq<int>, head: int)
    requires 0 <= b < |next| && b !in list && b !in other && Distinct(list)
    requires Chain(if list == [] then NONE else list[0], next, list) && Chain(head, next, other)
    requires next' == next[b := if list == [] then NONE else list[0]]
    ensures Chain(b, next', [b] + list) && Chain(head, next', other) && Distinct([b] + list)
  {
    assert forall i :: 0 <= i < |list| ==> list[i] in list;
    assert forall i :: 0 <= i < |other| ==> other[i] in other;
    var r := [b] + list;
    assert forall i :: 1 <= i < |r| ==> r[i] == list[i - 1];
  }

  lemma Popped(first: int, next: seq<int>, list: seq<int>)
    requires Chain(first, next, list) && Distinct(list) && (first != NONE || list != [])
    ensures list != [] && list[0] == first && 0 <= first < |next|
    ensures Chain(next[first], next, list[1..]) && Distinct(list[1..]) && first !in list[1..]
    ensures forall b :: b in list <==> b == first || b in list[1..]
  {
    var r := list[1..];
    assert forall i :: 0 <= i < |r| ==> r[i] == list[i + 1];
    assert list == [list[0]] + r;
  }

  /** A chain does not depend on the links of other blocks. */
  lemma Untouched(next: seq<int>, next': seq<int>, b: int, list: seq<int>, first: int)
    requires Chain(first, next, list) && b !in list && |next'| == |next|
    requires forall k :: 0 <= k < |next| && k != b ==> next'[k] == next[k]
    ensures Chain(first, next', list)
  {
    assert forall i :: 0 <= i < |list| ==> list[i] in list;
  }

  lemma AllFree(count: nat, free: seq<int>)
    requires forall b :: b in free <==> 0 <= b < count
    ensures PartedBy(count, free, [], map[]) && Distinct<Thread>([])
  {
  }

  lemma NoChain(next: seq<int>)
    ensures Chain(NONE, next, [])
  {
  }

  lemma HeadOf(next: seq<int>, list: seq<int>, first: int)
    requires Chain(first, next, list)
    ensures first == if list == [] then NONE else list[0]
  {
  }

  lemma TailInside(next: seq<int>, list: seq<int>, first: int)
    requires Chain(first, next, list) && list != []
    ensures 0 <= list[|list| - 1] < |next| && list[|list| - 1] in list && first != NONE
  {
  }

  /** Putting `b`, which links to nothing, behind the last block of a chain. */
  lemma ChainExtended(next: seq<int>, b: int, list: seq<int>, first: int)
    requires Chain(first, next, list) && Distinct(list) && 0 <= b < |next| && b !in list && next[b] == NONE
    ensures Distinct(list + [b])
    ensures list == [] ==> first == NONE && Chain(b, next, list + [b])
    ensures list != [] ==>
      first != NONE && 0 <= list[|list| - 1] < |next| && Chain(first, next[list[|list| - 1] := b], list + [b])
  {
    assert forall i :: 0 <= i < |list| ==> list[i] in list;
  }

  lemma Linked(queue: seq<int>, sent: map<int, Message>, b: int, m: Message, urgent: bool)
    requires b !in queue
    ensures var queue' := if urgent then [b] + queue else queue + [b];
      InOrder(queue', sent[b := m]) == if urgent then [m] + InOrder(queue, sent) else InOrder(queue, sent) + [m]
  {
    assert forall i :: 0 <= i < |queue| ==> queue[i] in queue;
  }

  lemma TailOf(list: seq<int>)
    requires list != [] && Distinct(list)
    ensures list[|list| - 1] == list[0] <==> list[1..] == []
    ensures 1 < |list| ==> list[1..][|list| - 2] == list[|list| - 1]
  {
  }
}
