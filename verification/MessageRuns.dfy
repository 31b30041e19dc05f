/** Runs of the message queue: any number of senders, urgent senders, receivers, timeouts and
    resets, their sections interleaved in any order. Every run is a run of a machine that has
    a plain list of messages, and what senders and receivers rely on is proved of that machine. */
module MessageRuns {
  import opened Arithmetic
  import opened Ring
  import opened Ipc
  import opened MessageQueues

  /** One section, or one copy, of the call `id`, made by the thread `t`. */
  datatype Step =
    | SendTake(id: int, t: Thread, message: Message, timeout: int)
    | UrgentTake(id: int, t: Thread, message: Message)
    | RecvTake(id: int, t: Thread, size: nat, timeout: int)
    | Go(id: int, t: Thread)
    | Expire(id: int, t: Thread)
    | Reset(id: int, t: Thread)

  /** What came of a step: nothing, as the call was under way already or its thread waits; the
      answer of a first section; or, for what follows, the bytes handed out and who was woken. */
  datatype Reply = Skipped | Answered(answer: Answer) | Moved(out: Message, woken: set<Thread>)

  datatype Phase =
    | Preparing(message: Message, urgent: bool)
    | Prepared(message: Message, urgent: bool)
    | Taken(message: Message, size: nat)
    | Finished

  /** `wokenReceivers` and `wokenSenders` have been resumed by a message or a free block. */
  datatype State = State(queue: seq<Message>, calls: map<int, Phase>, receivers: set<Thread>, senders: set<Thread>,
                         wokenReceivers: set<Thread>, wokenSenders: set<Thread>)

  const EMPTY := State([], map[], {}, {}, {}, {})

  /** One thread of those that wait, if any. */
  ghost predicate WakesOne(waiting: set<Thread>, woken: set<Thread>) {
    if waiting == {} then woken == {} else exists t :: t in waiting && woken == {t}
  }

  /** The call of a step is under way already, or its thread is inside another call. */
  predicate Busy(a: State, s: Step) {
    || s.id in a.calls || s.t in a.receivers || s.t in a.senders
    || (s.t in a.wokenReceivers && !s.RecvTake?) || (s.t in a.wokenSenders && !s.SendTake?)
  }

  /** What a step answers in a queue of `count` blocks for messages of `size` bytes. */
  ghost predicate Replies(a: State, s: Step, r: Reply, size: nat, count: nat) {
    match s
    case SendTake(_, _, m, timeout) =>
      r == if Busy(a, s) then Skipped
           else if size < |m| then Answered(Refused(Eerror))
           else if |a.queue| + |a.calls| < count then Answered(Proceeds)
           else if timeout == 0 then Answered(Refused(Efull)) else Answered(Waits)
    case UrgentTake(_, _, m) =>
      r == if Busy(a, s) then Skipped
           else if size < |m| then Answered(Refused(Eerror))
           else if |a.queue| + |a.calls| < count then Answered(Proceeds) else Answered(Refused(Efull))
    case RecvTake(_, _, _, timeout) =>
      r == if Busy(a, s) then Skipped
           else if a.queue != [] then Answered(Proceeds)
           else if timeout == 0 then Answered(Refused(Etimeout)) else Answered(Waits)
    case Go(id, _) => if id in a.calls then MovesOn(a, a.calls[id], r, size) else r == Skipped
    case Expire(_, t) => r == Skipped || ((t in a.receivers || t in a.senders) && r == Moved([], {t}))
    case Reset(_, _) => r == Moved([], a.receivers + a.senders)
  }

  ghost predicate MovesOn(a: State, c: Phase, r: Reply, size: nat) {
    && r.Moved?
    && match c
       case Preparing(_, _) => r == Moved([], {})
       case Prepared(_, _) => r.out == [] && WakesOne(a.receivers, r.woken)
       case Taken(m, n) => |r.out| == Min(n, size) && Delivered(m, r.out) && r.woken == {}
       case Finished => r.out == [] && WakesOne(a.senders, r.woken)
  }

  /** The state after a step with a given reply. */
  function Next(a: State, s: Step, r: Reply): State {
    match s
    case SendTake(id, t, m, _) =>
      var runs := if r == Skipped || r == Answered(Refused(Eerror)) then a else a.(wokenSenders := a.wokenSenders - {t});
      if r == Answered(Proceeds) then runs.(calls := a.calls[id := Preparing(m, false)])
      else if r == Answered(Waits) then runs.(senders := a.senders + {t}) else runs
    case UrgentTake(id, _, m) =>
      if r == Answered(Proceeds) then a.(calls := a.calls[id := Preparing(m, true)]) else a
    case RecvTake(id, t, size, _) =>
      var runs := if r == Skipped then a else a.(wokenReceivers := a.wokenReceivers - {t});
      if r == Answered(Proceeds) && a.queue != [] then
        runs.(queue := a.queue[1..], calls := a.calls[id := Taken(a.queue[0], size)])
      else if r == Answered(Waits) then runs.(receivers := a.receivers + {t}) else runs
    case Go(id, _) => if id in a.calls && r.Moved? then GoneOn(a, id, r.woken) else a
    case Expire(_, _) => if r.Moved? then a.(receivers := a.receivers - r.woken, senders := a.senders - r.woken) else a
    case Reset(_, _) => a.(queue := [], receivers := {}, senders := {})
  }

  function GoneOn(a: State, id: int, woken: set<Thread>): State
    requires id in a.calls
  {
    match a.calls[id]
    case Preparing(m, urgent) => a.(calls := a.calls[id := Prepared(m, urgent)])
    case Prepared(m, urgent) =>
      a.(queue := if urgent then [m] + a.queue else a.queue + [m], calls := a.calls - {id},
         receivers := a.receivers - woken, wokenReceivers := a.wokenReceivers + woken)
    case Taken(_, _) => a.(calls := a.calls[id := Finished])
    case Finished =>
      a.(calls := a.calls - {id}, senders := a.senders - woken, wokenSenders := a.wokenSenders + woken)
  }

  function PhaseOf(c: Call, sent: map<int, Message>): Phase {
    match c
    case Filling(_, m, urgent) => Preparing(m, urgent)
    case Linking(_, m, urgent) => Prepared(m, urgent)
    case Copying(b, size) => Taken(if b in sent then sent[b] else [], size)
    case Freeing(_, _) => Finished
  }

  ghost function Phases(calls: map<int, Call>, sent: map<int, Message>): (r: map<int, Phase>)
    ensures |r| == |calls|
  {
    SameSize(calls, map i | i in calls :: PhaseOf(calls[i], sent));
    map i | i in calls :: PhaseOf(calls[i], sent)
  }

  lemma SameSize<A, B>(m: map<int, A>, n: map<int, B>)
    requires m.Keys == n.Keys
    ensures |m| == |n|
  {
    assert |m| == |m.Keys| && |n| == |n.Keys|;
  }

  /** The queue as the machine sees it. */
  ghost function View(mq: MessageQueue): State
    reads mq
  {
    State(mq.Messages(), Phases(mq.calls, mq.sent), Members(mq.receivers), Members(mq.senders),
          mq.wokenReceivers, mq.wokenSenders)
  }

  lemma ViewCounts(mq: MessageQueue)
    requires mq.Valid()
    ensures |View(mq).queue| == mq.entry && |View(mq).calls| == |mq.calls|
    ensures mq.free == NONE <==> |View(mq).queue| + |View(mq).calls| == mq.maxMsgs
    ensures |View(mq).queue| + |View(mq).calls| <= mq.maxMsgs
    ensures Distinct(mq.receivers) && Distinct(mq.senders)
  {
    hide MessageQueue.Parted, MessageQueue.Contents, Distinct;
    mq.EntryCounts();
    mq.FreeIsFirst();
  }

  lemma PhasesSet(calls: map<int, Call>, sent: map<int, Message>, id: int, c: Call)
    ensures Phases(calls[id := c], sent) == Phases(calls, sent)[id := PhaseOf(c, sent)]
  {
  }

  lemma PhasesLess(calls: map<int, Call>, sent: map<int, Message>, id: int)
    ensures Phases(calls - {id}, sent) == Phases(calls, sent) - {id}
  {
  }

  /** Storing a message in a block that no other call holds. */
  lemma PhasesStored(calls: map<int, Call>, sent: map<int, Message>, id: int, b: int, m: Message)
    requires forall i :: i in calls && i != id ==> calls[i].block != b
    ensures Phases(calls - {id}, sent[b := m]) == Phases(calls, sent) - {id}
  {
    var before, after := Phases(calls, sent) - {id}, Phases(calls - {id}, sent[b := m]);
    forall i | i in before
      ensures after[i] == before[i]
    {
      assert calls[i].block != b;
    }
  }

  lemma MembersCons(h: Thread, rest: seq<Thread>)
    ensures Members([h] + rest) == {h} + Members(rest)
  {
  }

  lemma {:induction false} MembersEnqueued(list: seq<Thread>, t: Thread)
    ensures Members(Enqueued(list, t)) == Members(list) + {t}
  {
    if list == [] || t.priority < list[0].priority {
      MembersCons(t, list);
    } else {
      MembersEnqueued(list[1..], t);
      MembersCons(list[0], Enqueued(list[1..], t));
      MembersCons(list[0], list[1..]);
      assert list == [list[0]] + list[1..];
    }
  }

  lemma MembersAfter(list: seq<Thread>, t: Thread, flag: Flag)
    ensures Members(if flag.Fifo? then list + [t] else Enqueued(list, t)) == Members(list) + {t}
  {
    MembersEnqueued(list, t);
  }

  lemma {:induction false} MembersWithout(list: seq<Thread>, t: Thread)
    ensures Members(Without(list, t)) == Members(list) - {t}
  {
    if list != [] {
      MembersWithout(list[1..], t);
      MembersCons(list[0], Without(list[1..], t));
      MembersCons(list[0], list[1..]);
      assert list == [list[0]] + list[1..];
    }
  }

  /** One step, if its call and its thread are in a state to take it. */
  method Do(mq: MessageQueue, s: Step) returns (r: Reply)
    requires mq.Valid()
    modifies mq, mq.next, mq.content, s.t`error, s.t`timer,
             Members(mq.receivers + mq.senders)`error, Members(mq.receivers + mq.senders)`timer
    ensures mq.Valid() && Replies(old(View(mq)), s, r, mq.msgSize, mq.maxMsgs)
    ensures View(mq) == Next(old(View(mq)), s, r)
    ensures s.Expire? ==> r.Moved? == old((s.t in mq.receivers || s.t in mq.senders) && s.t.timer)
  {
    hide MessageQueue.Valid, View, Replies, Next;
    match s
    case Go(id, _) =>
      r := DoGo(mq, s);
    case Expire(_, _) =>
      r := DoExpire(mq, s);
    case Reset(_, _) =>
      r := DoReset(mq, s);
    case _ =>
      r := DoTake(mq, s);
  }

  method DoTake(mq: MessageQueue, s: Step) returns (r: Reply)
    requires mq.Valid() && (s.SendTake? || s.UrgentTake? || s.RecvTake?)
    modifies mq, s.t`error, s.t`timer
    ensures mq.Valid() && Replies(old(View(mq)), s, r, mq.msgSize, mq.maxMsgs)
    ensures View(mq) == Next(old(View(mq)), s, r)
  {
    hide MessageQueue.Valid, MessageQueue.Messages, Phases, Next;
    SeenPhase(mq, s.id);
    if s.id in mq.calls || s.t in mq.receivers || s.t in mq.senders
       || (s.t in mq.wokenReceivers && !s.RecvTake?) || (s.t in mq.wokenSenders && !s.SendTake?) {
      assert Next(View(mq), s, Skipped) == View(mq) by { SkippedChanges(View(mq), s); }
      return Skipped;
    }
    hide Replies, View, Busy;
    match s
    case SendTake(_, _, _, _) =>
      r := DoSend(mq, s);
    case UrgentTake(_, _, _) =>
      r := DoUrgent(mq, s);
    case RecvTake(_, _, _, _) =>
      r := DoReceive(mq, s);
  }

  lemma SkippedChanges(a: State, s: Step)
    requires s.SendTake? || s.UrgentTake? || s.RecvTake?
    ensures Next(a, s, Skipped) == a
  {
  }

  method DoSend(mq: MessageQueue, s: Step) returns (r: Reply)
    requires mq.Valid() && s.SendTake? && !Busy(View(mq), s)
    modifies mq, s.t`error, s.t`timer
    ensures mq.Valid() && Replies(old(View(mq)), s, r, mq.msgSize, mq.maxMsgs)
    ensures View(mq) == Next(old(View(mq)), s, r)
  {
    hide MessageQueue.Valid, MessageQueue.Messages, Phases, Enqueued;
    var SendTake(id, t, m, timeout) := s;
    ViewCounts(mq);
    SeenPhase(mq, id);
    PhasesSet(mq.calls, mq.sent, id, Filling(mq.free, m, false));
    MembersAfter(mq.senders, t, mq.flag);
    var a := mq.SendTake(id, t, m, timeout);
    r := Answered(a);
  }

  method DoUrgent(mq: MessageQueue, s: Step) returns (r: Reply)
    requires mq.Valid() && s.UrgentTake? && !Busy(View(mq), s)
    modifies mq
    ensures mq.Valid() && Replies(old(View(mq)), s, r, mq.msgSize, mq.maxMsgs)
    ensures View(mq) == Next(old(View(mq)), s, r)
  {
    hide MessageQueue.Valid, MessageQueue.Messages, Phases;
    var UrgentTake(id, _, m) := s;
    ViewCounts(mq);
    SeenPhase(mq, id);
    PhasesSet(mq.calls, mq.sent, id, Filling(mq.free, m, true));
    var a := mq.UrgentTake(id, m);
    r := Answered(a);
  }

  method DoReceive(mq: MessageQueue, s: Step) returns (r: Reply)
    requires mq.Valid() && s.RecvTake? && !Busy(View(mq), s)
    modifies mq, s.t`error, s.t`timer
    ensures mq.Valid() && Replies(old(View(mq)), s, r, mq.msgSize, mq.maxMsgs)
    ensures View(mq) == Next(old(View(mq)), s, r)
  {
    hide MessageQueue.Valid, MessageQueue.Messages, Phases, Enqueued;
    var RecvTake(id, t, size, timeout) := s;
    ghost var calls := mq.calls;
    ViewCounts(mq);
    SeenPhase(mq, id);
    MembersAfter(mq.receivers, t, mq.flag);
    var a := mq.RecvTake(id, t, size, timeout);
    if a == Proceeds {
      PhasesSet(calls, mq.sent, id, mq.calls[id]);
    }
    r := Answered(a);
  }

  method DoGo(mq: MessageQueue, s: Step) returns (r: Reply)
    requires mq.Valid() && s.Go?
    modifies mq, mq.next, mq.content, Members(mq.receivers)`timer, Members(mq.senders)`timer
    ensures mq.Valid() && Replies(old(View(mq)), s, r, mq.msgSize, mq.maxMsgs)
    ensures View(mq) == Next(old(View(mq)), s, r)
  {
    hide MessageQueue.Valid, View, MovesOn, GoneOn;
    SeenPhase(mq, s.id);
    if s.id !in mq.calls {
      return Skipped;
    }
    if mq.calls[s.id].Filling? || mq.calls[s.id].Linking? {
      r := SendGoesOn(mq, s.id);
    } else {
      r := ReceiveGoesOn(mq, s.id);
    }
  }

  method SendGoesOn(mq: MessageQueue, id: int) returns (r: Reply)
    requires mq.Valid() && id in mq.calls && (mq.calls[id].Filling? || mq.calls[id].Linking?)
    modifies mq, mq.next, mq.content, Members(mq.receivers)`timer
    ensures mq.Valid() && id in old(View(mq)).calls
    ensures r.Moved? && MovesOn(old(View(mq)), old(View(mq)).calls[id], r, mq.msgSize)
    ensures View(mq) == GoneOn(old(View(mq)), id, r.woken)
  {
    hide MessageQueue.Valid, View, MovesOn, GoneOn;
    SeenPhase(mq, id);
    if mq.calls[id].Filling? {
      r := DoFill(mq, id);
    } else {
      r := DoLink(mq, id);
    }
  }

  method DoFill(mq: MessageQueue, id: int) returns (r: Reply)
    requires mq.Valid() && id in mq.calls && mq.calls[id].Filling? && id in View(mq).calls
    modifies mq, mq.next, mq.content
    ensures mq.Valid() && r.Moved? && MovesOn(old(View(mq)), old(View(mq)).calls[id], r, mq.msgSize)
    ensures View(mq) == GoneOn(old(View(mq)), id, r.woken)
  {
    hide MessageQueue.Valid, MessageQueue.Messages, Members, Phases;
    var Filling(b, m, urgent) := mq.calls[id];
    SeenPhase(mq, id);
    PhasesSet(mq.calls, mq.sent, id, Linking(b, m, urgent));
    mq.Fill(id);
    r := Moved([], {});
  }

  method DoLink(mq: MessageQueue, id: int) returns (r: Reply)
    requires mq.Valid() && id in mq.calls && mq.calls[id].Linking? && id in View(mq).calls
    modifies mq, mq.next, Members(mq.receivers)`timer
    ensures mq.Valid() && r.Moved? && MovesOn(old(View(mq)), old(View(mq)).calls[id], r, mq.msgSize)
    ensures View(mq) == GoneOn(old(View(mq)), id, r.woken)
  {
    hide MessageQueue.Valid, MessageQueue.Messages, Members, Phases, WakesOne;
    var Linking(b, m, _) := mq.calls[id];
    ghost var receivers := mq.receivers;
    SeenPhase(mq, id);
    ViewCounts(mq);
    PhasesStored(mq.calls, mq.sent, id, b, m);
    r := Moved([], if mq.receivers == [] then {} else {mq.receivers[0]});
    mq.Link(id);
    FirstWoken(receivers, r.woken);
  }

  method ReceiveGoesOn(mq: MessageQueue, id: int) returns (r: Reply)
    requires mq.Valid() && id in mq.calls && (mq.calls[id].Copying? || mq.calls[id].Freeing?)
    modifies mq, mq.next, Members(mq.senders)`timer
    ensures mq.Valid() && id in old(View(mq)).calls
    ensures r.Moved? && MovesOn(old(View(mq)), old(View(mq)).calls[id], r, mq.msgSize)
    ensures View(mq) == GoneOn(old(View(mq)), id, r.woken)
  {
    hide MessageQueue.Valid, View, MovesOn, GoneOn;
    SeenPhase(mq, id);
    if mq.calls[id].Copying? {
      r := DoCopy(mq, id);
    } else {
      r := DoFree(mq, id);
    }
  }

  method DoCopy(mq: MessageQueue, id: int) returns (r: Reply)
    requires mq.Valid() && id in mq.calls && mq.calls[id].Copying? && id in View(mq).calls
    modifies mq
    ensures mq.Valid() && r.Moved? && MovesOn(old(View(mq)), old(View(mq)).calls[id], r, mq.msgSize)
    ensures View(mq) == GoneOn(old(View(mq)), id, r.woken)
  {
    hide MessageQueue.Valid, MessageQueue.Messages, Members, Phases, Delivered;
    ghost var calls, sent := mq.calls, mq.sent;
    SeenPhase(mq, id);
    var out := mq.Copy(id);
    PhasesSet(calls, sent, id, Freeing(calls[id].block, out));
    r := Moved(out, {});
  }

  method DoFree(mq: MessageQueue, id: int) returns (r: Reply)
    requires mq.Valid() && id in mq.calls && mq.calls[id].Freeing? && id in View(mq).calls
    modifies mq, mq.next, Members(mq.senders)`timer
    ensures mq.Valid() && r.Moved? && MovesOn(old(View(mq)), old(View(mq)).calls[id], r, mq.msgSize)
    ensures View(mq) == GoneOn(old(View(mq)), id, r.woken)
  {
    hide MessageQueue.Valid, MessageQueue.Messages, Members, Phases, WakesOne;
    ghost var senders := mq.senders;
    SeenPhase(mq, id);
    ViewCounts(mq);
    PhasesLess(mq.calls, mq.sent, id);
    r := Moved([], if mq.senders == [] then {} else {mq.senders[0]});
    mq.Free(id);
    FirstWoken(senders, r.woken);
  }

  /** The phase of a call, as the machine sees it, and which other calls hold its block. */
  lemma SeenPhase(mq: MessageQueue, id: int)
    requires mq.Valid()
    ensures id in View(mq).calls <==> id in mq.calls
    ensures id in mq.calls ==> View(mq).calls[id] == PhaseOf(mq.calls[id], mq.sent)
    ensures id in mq.calls ==> forall i :: i in mq.calls && i != id ==> mq.calls[i].block != mq.calls[id].block
  {
    PartFacts(mq.maxMsgs, mq.freeList, mq.queue, mq.calls);
  }

  /** The first of a list is one of its threads, and the rest of the list is the others. */
  lemma FirstWoken(list: seq<Thread>, woken: set<Thread>)
    requires woken == (if list == [] then {} else {list[0]}) && Distinct(list)
    ensures WakesOne(Members(list), woken)
    ensures Members(if list == [] then [] else list[1..]) == Members(list) - woken
  {
    if list != [] {
      FirstLeaves(list);
      assert list[0] in Members(list);
    }
  }

  method DoExpire(mq: MessageQueue, s: Step) returns (r: Reply)
    requires mq.Valid() && s.Expire?
    modifies mq, s.t`error, s.t`timer
    ensures mq.Valid() && Replies(old(View(mq)), s, r, mq.msgSize, mq.maxMsgs)
    ensures View(mq) == Next(old(View(mq)), s, r)
    ensures r.Moved? == old((s.t in mq.receivers || s.t in mq.senders) && s.t.timer)
  {
    hide MessageQueue.Valid, MessageQueue.Messages, Phases, Without;
    if (s.t !in mq.receivers && s.t !in mq.senders) || !s.t.timer {
      return Skipped;
    }
    ViewCounts(mq);
    MembersWithout(mq.receivers, s.t);
    MembersWithout(mq.senders, s.t);
    mq.Timeout(s.t);
    r := Moved([], {s.t});
  }

  method DoReset(mq: MessageQueue, s: Step) returns (r: Reply)
    requires mq.Valid() && s.Reset?
    modifies mq, mq.next, mq.content,
             Members(mq.receivers + mq.senders)`error, Members(mq.receivers + mq.senders)`timer
    ensures mq.Valid() && Replies(old(View(mq)), s, r, mq.msgSize, mq.maxMsgs)
    ensures View(mq) == Next(old(View(mq)), s, r)
  {
    hide MessageQueue.Valid, MessageQueue.Messages, Phases;
    r := Moved([], (set t | t in mq.receivers) + (set t | t in mq.senders));
    mq.Reset();
  }

  /** The state after a run of the machine. */
  function After(steps: seq<Step>, replies: seq<Reply>): State
    requires |steps| == |replies|
  {
    var n := |steps| - 1;
    if steps == [] then EMPTY else Next(After(steps[..n], replies[..n]), steps[n], replies[n])
  }

  /** Every reply is one that the machine gives. */
  ghost predicate IsRun(steps: seq<Step>, replies: seq<Reply>, size: nat, count: nat) {
    && |steps| == |replies|
    && forall k :: 0 <= k < |steps| ==> Replies(After(steps[..k], replies[..k]), steps[k], replies[k], size, count)
  }

  lemma RunPrefix(steps: seq<Step>, replies: seq<Reply>, size: nat, count: nat, n: nat)
    requires IsRun(steps, replies, size, count) && n <= |steps|
    ensures IsRun(steps[..n], replies[..n], size, count)
  {
    hide After, Replies;
    assert forall k :: 0 <= k < n ==> steps[..n][..k] == steps[..k] && replies[..n][..k] == replies[..k];
  }

  lemma RunExtended(steps: seq<Step>, replies: seq<Reply>, size: nat, count: nat, s: Step, r: Reply)
    requires IsRun(steps, replies, size, count) && Replies(After(steps, replies), s, r, size, count)
    ensures IsRun(steps + [s], replies + [r], size, count)
    ensures After(steps + [s], replies + [r]) == Next(After(steps, replies), s, r)
  {
    hide Replies, Next;
    var n, ss, rr := |steps|, steps + [s], replies + [r];
    assert ss[..n] == steps && rr[..n] == replies;
    assert forall k :: 0 <= k < n ==> ss[..k] == steps[..k] && rr[..k] == replies[..k];
  }

  /** However the sections of any number of calls are interleaved, the queue does what the
      machine does, and its state is the machine's. */
  method Run(mq: MessageQueue, steps: seq<Step>) returns (replies: seq<Reply>)
    requires mq.Valid() && View(mq) == EMPTY
    modifies mq, mq.next, mq.content, set s | s in steps :: s.t
    ensures mq.Valid() && IsRun(steps, replies, mq.msgSize, mq.maxMsgs) && View(mq) == After(steps, replies)
  {
    hide MessageQueue.Valid, View, After, IsRun, Replies, Next;
    replies := [];
    ghost var all := set s | s in steps :: s.t;
    NoSteps(mq.msgSize, mq.maxMsgs);
    for n := 0 to |steps|
      invariant mq.Valid() && |replies| == n
      invariant IsRun(steps[..n], replies, mq.msgSize, mq.maxMsgs) && View(mq) == After(steps[..n], replies)
      invariant View(mq).receivers <= all && View(mq).senders <= all
    {
      var s := steps[n];
      Waiting(mq, all);
      ghost var before := View(mq);
      var r := Do(mq, s);
      WaitsAfter(before, s, r);
      RunExtended(steps[..n], replies, mq.msgSize, mq.maxMsgs, s, r);
      replies := replies + [r];
      assert steps[..n + 1] == steps[..n] + [s];
    }
    assert steps[..|steps|] == steps;
  }

  lemma NoSteps(size: nat, count: nat)
    ensures IsRun([], [], size, count) && After([], []) == EMPTY
  {
  }

  /** Only the thread of a step can begin to wait. */
  lemma WaitsAfter(a: State, s: Step, r: Reply)
    ensures Next(a, s, r).receivers <= a.receivers + {s.t} && Next(a, s, r).senders <= a.senders + {s.t}
  {
  }

  /** A wake-up is not taken back: in any run, a thread that a send or a receive has woken stays
      so until it looks at the queue itself, whatever times out and is reset meanwhile. */
  lemma {:induction false} StaysWoken(steps: seq<Step>, replies: seq<Reply>, k: nat, t: Thread)
    requires |steps| == |replies| && k <= |steps|
    ensures var before, now := After(steps[..k], replies[..k]), After(steps, replies);
      && (t in before.wokenReceivers && (forall s :: s in steps[k..] ==> !(s.RecvTake? && s.t == t)) ==>
            t in now.wokenReceivers)
      && (t in before.wokenSenders && (forall s :: s in steps[k..] ==> !(s.SendTake? && s.t == t)) ==>
            t in now.wokenSenders)
  {
    hide After;
    if k == |steps| {
      assert steps[..k] == steps && replies[..k] == replies;
    } else {
      var n := |steps| - 1;
      assert steps[..n][..k] == steps[..k] && replies[..n][..k] == replies[..k];
      assert steps[k..] == steps[..n][k..] + [steps[n]];
      StaysWoken(steps[..n], replies[..n], k, t);
      LastStep(steps, replies);
    }
  }

  lemma LastStep(steps: seq<Step>, replies: seq<Reply>)
    requires |steps| == |replies| && steps != []
    ensures var n := |steps| - 1;
      After(steps, replies) == Next(After(steps[..n], replies[..n]), steps[n], replies[n])
  {
  }

  lemma Waiting(mq: MessageQueue, all: set<Thread>)
    requires View(mq).receivers <= all && View(mq).senders <= all
    ensures forall t :: t in mq.receivers + mq.senders ==> t in all
  {
  }

  /** A step by which a sender hands over `m`: it gets a block. */
  predicate Sends(s: Step, r: Reply, m: Message) {
    r == Answered(Proceeds) && (s.SendTake? || s.UrgentTake?) && s.message == m
  }

  ghost predicate Sent(steps: seq<Step>, replies: seq<Reply>, m: Message)
    requires |steps| == |replies|
  {
    exists j :: 0 <= j < |steps| && Sends(steps[j], replies[j], m)
  }

  ghost predicate Carries(a: State, m: Message) {
    m in a.queue || exists i :: i in a.calls && a.calls[i] != Finished && a.calls[i].message == m
  }

  /** Nothing is in the queue or in a call that no sender has handed over. */
  lemma {:induction false} OnlySent(steps: seq<Step>, replies: seq<Reply>, m: Message)
    requires |steps| == |replies| && Carries(After(steps, replies), m)
    ensures Sent(steps, replies, m)
  {
    if steps != [] {
      var n := |steps| - 1;
      var a, s, r := After(steps[..n], replies[..n]), steps[n], replies[n];
      CarriedOn(a, s, r, m);
      if Carries(a, m) {
        OnlySent(steps[..n], replies[..n], m);
        var j :| 0 <= j < n && Sends(steps[..n][j], replies[..n][j], m);
        assert Sends(steps[j], replies[j], m);
      }
    }
  }

  lemma CarriedOn(a: State, s: Step, r: Reply, m: Message)
    requires Carries(Next(a, s, r), m)
    ensures Carries(a, m) || Sends(s, r, m)
  {
    var b := Next(a, s, r);
    if m in b.queue && m !in a.queue {
      assert s.Go? && s.id in a.calls && a.calls[s.id].message == m;
    } else if m !in b.queue {
      var i :| i in b.calls && b.calls[i] != Finished && b.calls[i].message == m;
      assert i in a.calls && a.calls[i] == b.calls[i] ==> Carries(a, m);
    }
  }

  predicate Takes(s: Step, r: Reply, id: int) {
    s.RecvTake? && s.id == id && r == Answered(Proceeds)
  }

  /** `id` took `m` from the front of the queue by the step `j`, and has taken nothing since. */
  ghost predicate TookAt(steps: seq<Step>, replies: seq<Reply>, j: nat, id: int, m: Message)
    requires |steps| == |replies| && j < |steps|
  {
    var q := After(steps[..j], replies[..j]).queue;
    && Takes(steps[j], replies[j], id) && q != [] && q[0] == m
    && forall l :: j < l < |steps| ==> !Takes(steps[l], replies[l], id)
  }

  lemma TookLater(steps: seq<Step>, replies: seq<Reply>, n: nat, j: nat, id: int, m: Message)
    requires |steps| == |replies| == n + 1 && j < n && TookAt(steps[..n], replies[..n], j, id, m)
    requires !Takes(steps[n], replies[n], id)
    ensures TookAt(steps, replies, j, id, m)
  {
    hide After, Takes;
    assert steps[..n][..j] == steps[..j] && replies[..n][..j] == replies[..j];
    assert forall l :: 0 <= l < n ==> steps[..n][l] == steps[l] && replies[..n][l] == replies[l];
  }

  lemma TakenBy(a: State, s: Step, r: Reply, size: nat, count: nat, id: int)
    requires Replies(a, s, r, size, count)
    requires id in Next(a, s, r).calls && Next(a, s, r).calls[id].Taken?
    ensures Takes(s, r, id) ==> a.queue != [] && Next(a, s, r).calls[id] == Taken(a.queue[0], s.size)
    ensures !Takes(s, r, id) ==> id in a.calls && a.calls[id] == Next(a, s, r).calls[id]
  {
  }

  /** A call that is copying has the message that it took. */
  lemma {:induction false} HasTaken(steps: seq<Step>, replies: seq<Reply>, size: nat, count: nat, id: int)
      returns (j: nat)
    requires IsRun(steps, replies, size, count)
    requires var calls := After(steps, replies).calls; id in calls && calls[id].Taken?
    ensures j < |steps| && TookAt(steps, replies, j, id, After(steps, replies).calls[id].message)
    ensures steps[j].size == After(steps, replies).calls[id].size
  {
    hide Replies, Next, Takes;
    var n := |steps| - 1;
    assert steps[..|steps|] == steps && replies[..|steps|] == replies;
    var a, s, r := After(steps[..n], replies[..n]), steps[n], replies[n];
    assert Replies(a, s, r, size, count);
    TakenBy(a, s, r, size, count, id);
    if Takes(s, r, id) {
      j := n;
      IsTake(s, r, id);
    } else {
      RunPrefix(steps, replies, size, count, n);
      j := HasTaken(steps[..n], replies[..n], size, count, id);
      TookLater(steps, replies, n, j, id, a.calls[id].message);
    }
  }

  lemma IsTake(s: Step, r: Reply, id: int)
    requires Takes(s, r, id)
    ensures s.RecvTake? && s.id == id && r == Answered(Proceeds)
  {
  }

  lemma HandsOut(a: State, s: Step, r: Reply, size: nat, count: nat)
    requires Replies(a, s, r, size, count) && r.Moved? && r.out != []
    ensures s.id in a.calls && a.calls[s.id].Taken?
    ensures var c := a.calls[s.id]; Delivered(c.message, r.out) && |r.out| == Min(c.size, size)
  {
    hide Delivered;
  }

  lemma DeliveredBytes()
    ensures forall m: Message, out: Message, i ::
      Delivered(m, out) && 0 <= i < |out| && i < |m| ==> out[i] == m[i]
  {
    forall m: Message, out: Message, i | Delivered(m, out) && 0 <= i < |out| && i < |m|
      ensures out[i] == m[i]
    {
      var n := Min(|m|, |out|);
      assert m[..n][i] == out[..n][i];
    }
  }

  /** The bytes a call hands out agree with the message that it took from the front of the
      queue, and that message is one that a sender passed in. */
  lemma DeliveredWasSent(steps: seq<Step>, replies: seq<Reply>, size: nat, count: nat, k: nat)
      returns (j: nat, m: Message)
    requires IsRun(steps, replies, size, count) && k < |steps| && replies[k].Moved? && replies[k].out != []
    ensures j < k && TookAt(steps[..k], replies[..k], j, steps[k].id, m) && Sent(steps[..j], replies[..j], m)
    ensures Takes(steps[j], replies[j], steps[k].id)
    ensures Delivered(m, replies[k].out) && |replies[k].out| == Min(steps[j].size, size)
    ensures forall i :: 0 <= i < |replies[k].out| && i < |m| ==> replies[k].out[i] == m[i]
  {
    DeliveredBytes();
    hide Replies, Next, After, Delivered, Sent;
    var a, id := After(steps[..k], replies[..k]), steps[k].id;
    assert Replies(a, steps[k], replies[k], size, count);
    HandsOut(a, steps[k], replies[k], size, count);
    m := a.calls[id].message;
    RunPrefix(steps, replies, size, count, k);
    j := HasTaken(steps[..k], replies[..k], size, count, id);
    assert steps[..k][j] == steps[j] && replies[..k][j] == replies[j];
    assert steps[..k][..j] == steps[..j] && replies[..k][..j] == replies[..j];
    OnlySent(steps[..j], replies[..j], m);
  }

  /** What a step adds at one of the ends of the queue. */
  function Joining(a: State, s: Step): seq<Message> {
    if s.Go? && s.id in a.calls && a.calls[s.id].Prepared? then [a.calls[s.id].message] else []
  }

  /** What a step takes from the front for a receiver. */
  function Leaving(a: State, s: Step, r: Reply): seq<Message> {
    if Takes(s, r, s.id) && a.queue != [] then [a.queue[0]] else []
  }

  function Joined(steps: seq<Step>, replies: seq<Reply>): seq<Message>
    requires |steps| == |replies|
  {
    var n := |steps| - 1;
    if steps == [] then []
    else Joined(steps[..n], replies[..n]) + Joining(After(steps[..n], replies[..n]), steps[n])
  }

  function Left(steps: seq<Step>, replies: seq<Reply>): seq<Message>
    requires |steps| == |replies|
  {
    var n := |steps| - 1;
    if steps == [] then []
    else Left(steps[..n], replies[..n]) + Leaving(After(steps[..n], replies[..n]), steps[n], replies[n])
  }

  /** What resets have thrown away. */
  function Dropped(steps: seq<Step>, replies: seq<Reply>): multiset<Message>
    requires |steps| == |replies|
  {
    var n := |steps| - 1;
    if steps == [] then multiset{}
    else
      var q := After(steps[..n], replies[..n]).queue;
      Dropped(steps[..n], replies[..n]) + if steps[n].Reset? then multiset(q) else multiset{}
  }

  /** No message is lost, doubled or made up: each one that joined the queue has been received
      once, or thrown away by a reset, or is still there. */
  lemma {:induction false} Conserved(steps: seq<Step>, replies: seq<Reply>, size: nat, count: nat)
    requires |steps| == |replies| && IsRun(steps, replies, size, count)
    ensures multiset(Joined(steps, replies)) ==
            multiset(Left(steps, replies)) + Dropped(steps, replies) + multiset(After(steps, replies).queue)
  {
    hide IsRun, Replies, Next, Joining, Leaving;
    if steps != [] {
      var n := |steps| - 1;
      RunPrefix(steps, replies, size, count, n);
      Conserved(steps[..n], replies[..n], size, count);
      LastReply(steps, replies, size, count);
      var a := After(steps[..n], replies[..n]);
      var x, y, q' := Joining(a, steps[n]), Leaving(a, steps[n], replies[n]), Next(a, steps[n], replies[n]).queue;
      ConservedStep(a, steps[n], replies[n], size, count);
      Summed(Joined(steps[..n], replies[..n]), Left(steps[..n], replies[..n]), x, y);
      Balance(multiset(Joined(steps[..n], replies[..n])), multiset(Left(steps[..n], replies[..n])),
              Dropped(steps[..n], replies[..n]), multiset(a.queue), multiset(x), multiset(y),
              if steps[n].Reset? then multiset(a.queue) else multiset{}, multiset(q'));
    }
  }

  lemma Summed(joined: seq<Message>, left: seq<Message>, x: seq<Message>, y: seq<Message>)
    ensures multiset(joined + x) == multiset(joined) + multiset(x) && multiset(left + y) == multiset(left) + multiset(y)
  {
  }

  lemma Balance(joined: multiset<Message>, left: multiset<Message>, dropped: multiset<Message>, q: multiset<Message>,
                x: multiset<Message>, y: multiset<Message>, d: multiset<Message>, q': multiset<Message>)
    requires joined == left + dropped + q && q + x == y + d + q'
    ensures joined + x == (left + y) + (dropped + d) + q'
  {
    forall m: Message
      ensures (joined + x)[m] == ((left + y) + (dropped + d) + q')[m]
    {
      assert joined[m] == (left + dropped + q)[m] && (q + x)[m] == (y + d + q')[m];
    }
  }

  lemma LastReply(steps: seq<Step>, replies: seq<Reply>, size: nat, count: nat)
    requires IsRun(steps, replies, size, count) && steps != []
    ensures var n := |steps| - 1; Replies(After(steps[..n], replies[..n]), steps[n], replies[n], size, count)
  {
  }

  /** How a step changes the list: at one end, or altogether. */
  lemma QueueStep(a: State, s: Step, r: Reply, size: nat, count: nat)
    requires Replies(a, s, r, size, count)
    ensures var q, q', x, y := a.queue, Next(a, s, r).queue, Joining(a, s), Leaving(a, s, r);
      if s.Reset? then x == y == q' == []
      else if s.Go? && s.id in a.calls && a.calls[s.id].Prepared? then
        y == [] && q' == if a.calls[s.id].urgent then x + q else q + x
      else x == [] && q == y + q'
  {
    if a.queue != [] {
      assert a.queue == [a.queue[0]] + a.queue[1..];
    }
  }

  lemma ConservedStep(a: State, s: Step, r: Reply, size: nat, count: nat)
    requires Replies(a, s, r, size, count)
    ensures multiset(a.queue) + multiset(Joining(a, s)) ==
      multiset(Leaving(a, s, r)) + (if s.Reset? then multiset(a.queue) else multiset{}) + multiset(Next(a, s, r).queue)
  {
    hide Replies, Next, Joining, Leaving;
    QueueStep(a, s, r, size, count);
  }

  ghost predicate NoneUrgent(calls: map<int, Phase>) {
    forall i :: i in calls && (calls[i].Preparing? || calls[i].Prepared?) ==> !calls[i].urgent
  }

  lemma StaysCalm(a: State, s: Step, r: Reply)
    requires NoneUrgent(a.calls) && !s.UrgentTake?
    ensures NoneUrgent(Next(a, s, r).calls)
  {
  }

  lemma QueuedLast(a: State, s: Step, r: Reply, size: nat, count: nat)
    requires Replies(a, s, r, size, count) && NoneUrgent(a.calls) && !s.Reset?
    ensures a.queue + Joining(a, s) == Leaving(a, s, r) + Next(a, s, r).queue
  {
    hide Replies, Next, Joining, Leaving;
    QueueStep(a, s, r, size, count);
  }

  /** A message in the queue, and what became of one that has left it. */
  datatype Item = Item(message: Message, urgent: bool)
  datatype Exit = Exit(item: Item, received: bool)

  function JoiningItem(a: State, s: Step): seq<Item> {
    if s.Go? && s.id in a.calls && a.calls[s.id].Prepared? then [Item(a.calls[s.id].message, a.calls[s.id].urgent)]
    else []
  }

  /** The line of stored messages after a step, and what leaves it at that step, in order. */
  function LineNext(line: seq<Item>, a: State, s: Step, r: Reply): seq<Item> {
    if s.Reset? then []
    else if s.Go? && s.id in a.calls && a.calls[s.id].Prepared? then
      var x := JoiningItem(a, s);
      if a.calls[s.id].urgent then x + line else line + x
    else if Takes(s, r, s.id) && line != [] then line[1..]
    else line
  }

  function Leavers(line: seq<Item>, s: Step, r: Reply): seq<Exit> {
    if s.Reset? then All(line, false)
    else if Takes(s, r, s.id) && line != [] then [Exit(line[0], true)]
    else []
  }

  function All(line: seq<Item>, received: bool): (r: seq<Exit>) {
    if line == [] then [] else [Exit(line[0], received)] + All(line[1..], received)
  }

  function Line(steps: seq<Step>, replies: seq<Reply>): seq<Item>
    requires |steps| == |replies|
  {
    var n := |steps| - 1;
    if steps == [] then []
    else LineNext(Line(steps[..n], replies[..n]), After(steps[..n], replies[..n]), steps[n], replies[n])
  }

  function ItemsJoined(steps: seq<Step>, replies: seq<Reply>): seq<Item>
    requires |steps| == |replies|
  {
    var n := |steps| - 1;
    if steps == [] then []
    else ItemsJoined(steps[..n], replies[..n]) + JoiningItem(After(steps[..n], replies[..n]), steps[n])
  }

  /** Everything that has left the line, in the order in which it did. */
  function Gone(steps: seq<Step>, replies: seq<Reply>): seq<Exit>
    requires |steps| == |replies|
  {
    var n := |steps| - 1;
    if steps == [] then []
    else Gone(steps[..n], replies[..n]) + Leavers(Line(steps[..n], replies[..n]), steps[n], replies[n])
  }

  function Plain(items: seq<Item>): seq<Message> {
    if items == [] then [] else [items[0].message] + Plain(items[1..])
  }

  /** The messages that are not urgent. */
  function Ordinary(items: seq<Item>): seq<Message> {
    if items == [] then [] else (if items[0].urgent then [] else [items[0].message]) + Ordinary(items[1..])
  }

  function OrdinaryGone(exits: seq<Exit>): seq<Message> {
    if exits == [] then []
    else (if exits[0].item.urgent then [] else [exits[0].item.message]) + OrdinaryGone(exits[1..])
  }

  function Received(exits: seq<Exit>): seq<Message> {
    if exits == [] then [] else (if exits[0].received then [exits[0].item.message] else []) + Received(exits[1..])
  }

  lemma Regrouped(x: seq<Message>, y: seq<Message>, z: seq<Message>)
    ensures x + (y + z) == (x + y) + z
  {
  }

  lemma {:induction false} PlainConcat(a: seq<Item>, b: seq<Item>)
    ensures Plain(a + b) == Plain(a) + Plain(b)
  {
    if a == [] {
      assert a + b == b;
    } else {
      PlainConcat(a[1..], b);
      var c := a + b;
      assert c[0] == a[0] && c[1..] == a[1..] + b;
      Regrouped([a[0].message], Plain(a[1..]), Plain(b));
    }
  }

  lemma {:induction false} OrdinaryConcat(a: seq<Item>, b: seq<Item>)
    ensures Ordinary(a + b) == Ordinary(a) + Ordinary(b)
  {
    if a == [] {
      assert a + b == b;
    } else {
      OrdinaryConcat(a[1..], b);
      var c := a + b;
      assert c[0] == a[0] && c[1..] == a[1..] + b;
      Regrouped(if a[0].urgent then [] else [a[0].message], Ordinary(a[1..]), Ordinary(b));
    }
  }

  lemma {:induction false} GoneConcat(a: seq<Exit>, b: seq<Exit>)
    ensures OrdinaryGone(a + b) == OrdinaryGone(a) + OrdinaryGone(b)
  {
    if a == [] {
      assert a + b == b;
    } else {
      GoneConcat(a[1..], b);
      var c := a + b;
      assert c[0] == a[0] && c[1..] == a[1..] + b;
      Regrouped(if a[0].item.urgent then [] else [a[0].item.message], OrdinaryGone(a[1..]), OrdinaryGone(b));
    }
  }

  lemma {:induction false} ReceivedConcat(a: seq<Exit>, b: seq<Exit>)
    ensures Received(a + b) == Received(a) + Received(b)
  {
    if a == [] {
      assert a + b == b;
    } else {
      ReceivedConcat(a[1..], b);
      var c := a + b;
      assert c[0] == a[0] && c[1..] == a[1..] + b;
      Regrouped(if a[0].received then [a[0].item.message] else [], Received(a[1..]), Received(b));
    }
  }

  lemma {:induction false} AllGone(line: seq<Item>)
    ensures OrdinaryGone(All(line, false)) == Ordinary(line) && Received(All(line, false)) == []
  {
    if line != [] {
      AllGone(line[1..]);
      assert All(line, false)[1..] == All(line[1..], false);
    }
  }

  /** One step: ordinary messages join at the end, and whatever leaves does so from the front. */
  lemma LineStep(line: seq<Item>, a: State, s: Step, r: Reply, size: nat, count: nat)
    requires Replies(a, s, r, size, count) && Plain(line) == a.queue
    ensures Plain(LineNext(line, a, s, r)) == Next(a, s, r).queue
    ensures Ordinary(line) + Ordinary(JoiningItem(a, s)) ==
            OrdinaryGone(Leavers(line, s, r)) + Ordinary(LineNext(line, a, s, r))
    ensures Received(Leavers(line, s, r)) == Leaving(a, s, r)
  {
    QueueStep(a, s, r, size, count);
    var x := JoiningItem(a, s);
    if s.Reset? {
      AllGone(line);
    } else if x != [] {
      hide Replies, Next;
      PlainConcat(x, line);
      PlainConcat(line, x);
      OrdinaryConcat(x, line);
      OrdinaryConcat(line, x);
    } else if Takes(s, r, s.id) && line != [] {
      hide Replies, Next;
      assert line == [line[0]] + line[1..];
      PlainConcat([line[0]], line[1..]);
      OrdinaryConcat([line[0]], line[1..]);
    }
  }

  /** In any run, whatever urgent sends and resets there are, the ordinary messages leave the
      queue in the order in which they joined it, whether they are received or dropped. */
  lemma {:induction false} OrdinaryInOrder(steps: seq<Step>, replies: seq<Reply>, size: nat, count: nat)
    requires |steps| == |replies| && IsRun(steps, replies, size, count)
    ensures Plain(Line(steps, replies)) == After(steps, replies).queue
    ensures Received(Gone(steps, replies)) == Left(steps, replies)
    ensures Ordinary(ItemsJoined(steps, replies)) ==
            OrdinaryGone(Gone(steps, replies)) + Ordinary(Line(steps, replies))
  {
    hide IsRun, Replies, Next, LineNext, Leavers, JoiningItem, Leaving, Plain, Ordinary, OrdinaryGone, Received;
    if steps == [] {
      NothingInLine();
    } else {
      var n := |steps| - 1;
      RunPrefix(steps, replies, size, count, n);
      OrdinaryInOrder(steps[..n], replies[..n], size, count);
      LastReply(steps, replies, size, count);
      var a, line, s, r := After(steps[..n], replies[..n]), Line(steps[..n], replies[..n]), steps[n], replies[n];
      LineStep(line, a, s, r, size, count);
      OrdinaryConcat(ItemsJoined(steps[..n], replies[..n]), JoiningItem(a, s));
      GoneConcat(Gone(steps[..n], replies[..n]), Leavers(line, s, r));
      ReceivedConcat(Gone(steps[..n], replies[..n]), Leavers(line, s, r));
      Spliced(Ordinary(ItemsJoined(steps[..n], replies[..n])), OrdinaryGone(Gone(steps[..n], replies[..n])),
              Ordinary(line), Ordinary(JoiningItem(a, s)), OrdinaryGone(Leavers(line, s, r)),
              Ordinary(LineNext(line, a, s, r)));
    }
  }

  lemma NothingInLine()
    ensures Plain([]) == [] && Ordinary([]) == [] && OrdinaryGone([]) == [] && Received([]) == []
  {
  }

  /** In any run, an urgent message goes in front of everything that is then stored. */
  lemma UrgentFirst(steps: seq<Step>, replies: seq<Reply>, size: nat, count: nat, k: nat)
    requires |steps| == |replies| && IsRun(steps, replies, size, count) && k < |steps| && steps[k].Go?
    requires var calls := After(steps[..k], replies[..k]).calls;
      steps[k].id in calls && calls[steps[k].id].Prepared? && calls[steps[k].id].urgent
    ensures After(steps[..k + 1], replies[..k + 1]).queue ==
            [After(steps[..k], replies[..k]).calls[steps[k].id].message] + After(steps[..k], replies[..k]).queue
  {
    hide Replies, Next, Joining, Leaving;
    var a := After(steps[..k], replies[..k]);
    assert Replies(a, steps[k], replies[k], size, count);
    QueueStep(a, steps[k], replies[k], size, count);
    JoinsAs(a, steps[k]);
    assert steps[..k + 1][..k] == steps[..k] && replies[..k + 1][..k] == replies[..k];
  }

  lemma JoinsAs(a: State, s: Step)
    ensures s.Go? && s.id in a.calls && a.calls[s.id].Prepared? ==> Joining(a, s) == [a.calls[s.id].message]
  {
  }

  /** Without urgent sends and resets, messages are received in the order in which they joined. */
  lemma {:induction false} FirstInFirstOut(steps: seq<Step>, replies: seq<Reply>, size: nat, count: nat)
    requires |steps| == |replies| && IsRun(steps, replies, size, count)
    requires forall s :: s in steps ==> !s.UrgentTake? && !s.Reset?
    ensures Joined(steps, replies) == Left(steps, replies) + After(steps, replies).queue
    ensures NoneUrgent(After(steps, replies).calls)
  {
    hide IsRun, Replies, Next, Joining, Leaving, NoneUrgent;
    if steps == [] {
      NothingUrgent();
    } else {
      var n := |steps| - 1;
      RunPrefix(steps, replies, size, count, n);
      FirstInFirstOut(steps[..n], replies[..n], size, count);
      LastReply(steps, replies, size, count);
      var a := After(steps[..n], replies[..n]);
      assert steps[n] in steps;
      StaysCalm(a, steps[n], replies[n]);
      QueuedLast(a, steps[n], replies[n], size, count);
      Spliced(Joined(steps[..n], replies[..n]), Left(steps[..n], replies[..n]), a.queue, Joining(a, steps[n]),
              Leaving(a, steps[n], replies[n]), Next(a, steps[n], replies[n]).queue);
    }
  }

  lemma NothingUrgent()
    ensures NoneUrgent(map[])
  {
  }

  lemma Spliced(joined: seq<Message>, left: seq<Message>, q: seq<Message>, x: seq<Message>, y: seq<Message>, q': seq<Message>)
    requires joined == left + q && q + x == y + q'
    ensures joined + x == (left + y) + q'
  {
    assert joined + x == left + (q + x);
  }

  /** What the sends of the call `id` have been accepted for, in order. */
  function Accepted(steps: seq<Step>, replies: seq<Reply>, id: int): seq<Message>
    requires |steps| == |replies|
  {
    var n := |steps| - 1;
    if steps == [] then []
    else
      Accepted(steps[..n], replies[..n], id) +
      if steps[n].id == id && (steps[n].SendTake? || steps[n].UrgentTake?) && replies[n] == Answered(Proceeds)
      then [steps[n].message] else []
  }

  /** What the sends of the call `id` have added to the queue, in order. */
  function JoinedBy(steps: seq<Step>, replies: seq<Reply>, id: int): seq<Message>
    requires |steps| == |replies|
  {
    var n := |steps| - 1;
    if steps == [] then []
    else
      JoinedBy(steps[..n], replies[..n], id) +
      if steps[n].id == id then Joining(After(steps[..n], replies[..n]), steps[n]) else []
  }

  function InHand(a: State, id: int): seq<Message> {
    if id in a.calls && (a.calls[id].Preparing? || a.calls[id].Prepared?) then [a.calls[id].message] else []
  }

  /** Every accepted message joins the queue once, in the order of the calls, unless the call
      still has it in hand. */
  lemma {:induction false} JoinsOnce(steps: seq<Step>, replies: seq<Reply>, size: nat, count: nat, id: int)
    requires |steps| == |replies| && IsRun(steps, replies, size, count)
    ensures Accepted(steps, replies, id) == JoinedBy(steps, replies, id) + InHand(After(steps, replies), id)
  {
    hide IsRun, Replies, Next, Joining, InHand;
    if steps == [] {
      NothingInHand(id);
    } else {
      var n := |steps| - 1;
      RunPrefix(steps, replies, size, count, n);
      JoinsOnce(steps[..n], replies[..n], size, count, id);
      LastReply(steps, replies, size, count);
      var a, s, r := After(steps[..n], replies[..n]), steps[n], replies[n];
      JoinsStep(a, s, r, size, count, id);
      Spliced(Accepted(steps[..n], replies[..n], id), JoinedBy(steps[..n], replies[..n], id), InHand(a, id),
              if s.id == id && (s.SendTake? || s.UrgentTake?) && r == Answered(Proceeds) then [s.message] else [],
              if s.id == id then Joining(a, s) else [], InHand(Next(a, s, r), id));
    }
  }

  lemma NothingInHand(id: int)
    ensures InHand(EMPTY, id) == []
  {
  }

  lemma JoinsStep(a: State, s: Step, r: Reply, size: nat, count: nat, id: int)
    requires Replies(a, s, r, size, count)
    ensures
      InHand(a, id) + (if s.id == id && (s.SendTake? || s.UrgentTake?) && r == Answered(Proceeds) then [s.message] else [])
      == (if s.id == id then Joining(a, s) else []) + InHand(Next(a, s, r), id)
  {
  }
}
