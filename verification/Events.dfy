/** The event of rt-thread/src/ipc.c: a set of 32 flags that threads wait on. */
module Events {
  import opened Ring
  import opened Ipc

  datatype Answer = Received(flags: bv32) | Refused(error: Error) | Waits

  /** What a thread waits for. */
  datatype Wish = Wish(want: bv32, info: Options)

  function And(a: bv32, b: bv32): bv32 {
    a & b
  }

  function Or(a: bv32, b: bv32): bv32 {
    a | b
  }

  function Minus(a: bv32, b: bv32): bv32 {
    a & !b
  }

  /** Is the wish met by the flags `s`? RT_EVENT_FLAG_AND comes first. */
  predicate Met(w: Wish, s: bv32) {
    if w.info.all then And(w.want, s) == w.want else w.info.any && And(w.want, s) != 0
  }

  /** What a woken thread is given: everything it asked for, or what there is of it. */
  function Given(w: Wish, s: bv32): bv32 {
    if w.info.all then w.want else And(w.want, s)
  }

  function Cleared(w: Wish, s: bv32): bv32 {
    if w.info.clear then Minus(s, Given(w, s)) else s
  }

  datatype Option<T> = None | Some(value: T)

  /** One pass over the waiters in list order: what each is given, if it is woken. */
  function Pass(ws: seq<Wish>, s: bv32): (r: seq<Option<bv32>>)
    ensures |r| == |ws|
  {
    if ws == [] then []
    else if Met(ws[0], s) then [Some(Given(ws[0], s))] + Pass(ws[1..], Cleared(ws[0], s))
    else [None] + Pass(ws[1..], s)
  }

  /** The flags after that pass. */
  function Left(ws: seq<Wish>, s: bv32): bv32 {
    if ws == [] then s
    else if Met(ws[0], s) then Left(ws[1..], Cleared(ws[0], s))
    else Left(ws[1..], s)
  }

  predicate Within(a: bv32, b: bv32) {
    And(a, b) == a
  }

  lemma AllOfFewer(want: bv32, a: bv32, b: bv32)
    requires Within(a, b) && And(want, a) == want
    ensures And(want, b) == want
  {
    calc {
      want & b;
      (want & a) & b;
      want & (a & b);
      want & a;
      want;
    }
  }

  lemma AnyOfFewer(want: bv32, a: bv32, b: bv32)
    requires Within(a, b) && And(want, b) == 0
    ensures And(want, a) == 0
  {
    calc {
      want & a;
      want & (a & b);
      (want & b) & a;
      0 & a;
      0;
    }
  }

  lemma FewerFlags(w: Wish, a: bv32, b: bv32)
    requires Within(a, b) && !Met(w, b) && w.want != 0 && (w.info.all || w.info.any)
    ensures !Met(w, a)
  {
    hide And, Within;
    if w.info.all {
      if And(w.want, a) == w.want {
        AllOfFewer(w.want, a, b);
      }
    } else if And(w.want, b) == 0 {
      AnyOfFewer(w.want, a, b);
    }
  }

  lemma ClearedWithin(w: Wish, s: bv32)
    ensures Within(Cleared(w, s), s) && Within(s, s)
  {
    hide Given, Minus, Within;
    WithoutFlags(s, Given(w, s));
  }

  lemma WithoutFlags(s: bv32, m: bv32)
    ensures Within(Minus(s, m), s) && Within(s, s)
  {
  }

  lemma WithinTrans(a: bv32, b: bv32, c: bv32)
    requires Within(a, b) && Within(b, c)
    ensures Within(a, c)
  {
  }

  lemma {:induction false} LeftWithin(ws: seq<Wish>, s: bv32)
    ensures Within(Left(ws, s), s)
  {
    hide Met, Cleared, Within, And;
    if ws == [] {
      ClearedWithin(Wish(0, Options(false, false, false)), s);
    } else {
      ClearedWithin(ws[0], s);
      LeftWithin(ws[1..], s);
      LeftWithin(ws[1..], Cleared(ws[0], s));
      if Met(ws[0], s) {
        WithinTrans(Left(ws, s), Cleared(ws[0], s), s);
      }
    }
  }

  /** No satisfied sleeper: whoever the pass leaves asleep is not satisfied by the flags that
      are left, although later wake-ups took flags away. */
  lemma {:induction false} SleepersUnmet(ws: seq<Wish>, s: bv32, i: nat)
    requires i < |ws| && Pass(ws, s)[i] == None && ws[i].want != 0 && (ws[i].info.all || ws[i].info.any)
    ensures !Met(ws[i], Left(ws, s))
  {
    hide Met, Cleared, Within, And;
    if i == 0 {
      LeftWithin(ws[1..], s);
      FewerFlags(ws[0], Left(ws, s), s);
    } else if Met(ws[0], s) {
      SleepersUnmet(ws[1..], Cleared(ws[0], s), i - 1);
    } else {
      SleepersUnmet(ws[1..], s, i - 1);
    }
  }

  /** What the names for bit operations stand for. */
  lemma Bits(a: bv32, b: bv32)
    ensures And(a, b) == a & b
    ensures Or(a, b) == a | b
    ensures Minus(a, b) == a & !b
  {
    assert Minus(a, b) == a & !b by { hide And, Or; }
    hide Minus;
  }

  /** A turn of the pass in terms of bits. */
  lemma TurnBits(w: Wish, s: bv32)
    ensures Met(w, s) <==> if w.info.all then And(w.want, s) == w.want else w.info.any && And(w.want, s) != 0
    ensures Given(w, s) == if w.info.all then w.want else And(w.want, s)
    ensures Cleared(w, s) == if w.info.clear then Minus(s, Given(w, s)) else s
    ensures Met(w, s) ==> And(Given(w, s), s) == Given(w, s)
  {
    hide And, Minus;
    AndTwice(w.want, s);
  }

  lemma AndTwice(want: bv32, s: bv32)
    ensures And(And(want, s), s) == And(want, s)
  {
  }

  /** A waiter is woken exactly if the flags that the waiters before it left have all, or any,
      of those it wants. It is given what it wants of them, and takes that away, or nothing. */
  lemma WokenMet(ws: seq<Wish>, s: bv32, i: nat)
    requires i < |ws|
    ensures var w, seen, after := ws[i], Left(ws[..i], s), Left(ws[..i + 1], s);
      && (Pass(ws, s)[i] != None <==> if w.info.all then And(w.want, seen) == w.want else w.info.any && And(w.want, seen) != 0)
      && (Pass(ws, s)[i] == None ==> after == seen)
      && (Pass(ws, s)[i] != None ==>
            var given := Pass(ws, s)[i].value;
            && given == (if w.info.all then w.want else And(w.want, seen)) && And(given, seen) == given
            && after == (if w.info.clear then Minus(seen, given) else seen))
  {
    hide *;
    Visited(ws, s, i);
    TurnBits(ws[i], Left(ws[..i], s));
  }

  lemma {:induction false} Visited(ws: seq<Wish>, s: bv32, i: nat)
    requires i < |ws|
    ensures var w, seen := ws[i], Left(ws[..i], s);
      && Pass(ws, s)[i] == (if Met(w, seen) then Some(Given(w, seen)) else None)
      && Left(ws[..i + 1], s) == if Met(w, seen) then Cleared(w, seen) else seen
  {
    hide Met, Given, Cleared;
    assert ws[..i + 1][1..] == ws[1..][..i] && ws[..i + 1][0] == ws[0];
    if 0 < i {
      assert ws[..i][1..] == ws[1..][..i - 1] && ws[..i][0] == ws[0];
      Visited(ws[1..], if Met(ws[0], s) then Cleared(ws[0], s) else s, i - 1);
    }
  }

  /** Flags that nobody who was woken clears are kept. */
  lemma {:induction false} FlagsKept(ws: seq<Wish>, s: bv32, f: bv32)
    requires forall i :: 0 <= i < |ws| && Pass(ws, s)[i] != None && ws[i].info.clear ==> And(ws[i].want, f) == 0
    ensures And(Left(ws, s), f) == And(s, f)
  {
    hide Met, Given, Cleared, And, Minus;
    if ws != [] {
      var next := if Met(ws[0], s) then Cleared(ws[0], s) else s;
      assert Pass(ws, s)[1..] == Pass(ws[1..], next);
      forall i | 0 <= i < |ws| - 1 && Pass(ws[1..], next)[i] != None && ws[1..][i].info.clear
        ensures And(ws[1..][i].want, f) == 0
      {
        assert Pass(ws, s)[i + 1] != None && ws[i + 1].info.clear;
      }
      FlagsKept(ws[1..], next, f);
      TurnBits(ws[0], s);
      if Met(ws[0], s) && ws[0].info.clear {
        assert Pass(ws, s)[0] != None;
        OthersKept(ws[0].want, s, f);
      }
    }
  }

  lemma OthersKept(want: bv32, s: bv32, f: bv32)
    requires And(want, f) == 0
    ensures And(Minus(s, want), f) == And(s, f) && And(Minus(s, And(want, s)), f) == And(s, f)
  {
  }

  /** Flags given to a thread that clears them are gone. */
  lemma {:induction false} FlagsGone(ws: seq<Wish>, s: bv32, i: nat)
    requires i < |ws| && Pass(ws, s)[i] != None && ws[i].info.clear
    ensures And(Left(ws, s), Pass(ws, s)[i].value) == 0
  {
    hide Met, Given, Cleared, Within, And, Minus;
    var next := if Met(ws[0], s) then Cleared(ws[0], s) else s;
    if i == 0 {
      TurnBits(ws[0], s);
      LeftWithin(ws[1..], next);
      NoneLeft(Left(ws, s), s, Given(ws[0], s));
    } else {
      FlagsGone(ws[1..], next, i - 1);
    }
  }

  lemma NoneLeft(left: bv32, s: bv32, given: bv32)
    requires Within(left, Minus(s, given))
    ensures And(left, given) == 0
  {
  }

  class Event {
    const flag: Flag
    var flags: bv32
    var waiters: seq<Thread>
    ghost var woken: map<Thread, bv32>  // resumed by a send and not run since, with the flags each was given

    ghost predicate Valid()
      reads this, waiters`eventSet, waiters`eventInfo, waiters`error, woken.Keys`error, woken.Keys`eventSet
    {
      Unmet() && Calm()
    }

    /** Nobody who waits or has been woken carries an error, and who has been woken still has
        the flags it was given. */
    ghost predicate Calm()
      reads this`waiters, this`woken, waiters`error, woken.Keys`error, woken.Keys`eventSet
    {
      && (forall t :: t in waiters ==> t.error == Eok && t !in woken)
      && (forall t :: t in woken ==> t.error == Eok && t.eventSet == woken[t])
    }

    /** Nobody waits whose wish the flags meet. */
    ghost predicate Unmet()
      reads this`waiters, this`flags, waiters`eventSet, waiters`eventInfo
    {
      Queued() && forall w :: w in waiters ==> !Met(WishOf(w), flags)
    }

    ghost predicate Queued()
      reads this`waiters, waiters`eventSet, waiters`eventInfo
    {
      Distinct(waiters) && forall w :: w in waiters ==> Sound(WishOf(w))
    }

    /** rt_event_init. */
    constructor (f: Flag)
      ensures Valid() && flags == 0 && waiters == [] && woken == map[] && flag == f
    {
      flag, flags, waiters, woken := f, 0, [], map[];
    }

    /** rt_event_recv by the running thread `t`, up to where it waits; it must ask for all or
        for any of the flags. */
    method Recv(t: Thread, want: bv32, info: Options, timeout: int) returns (r: Answer)
      requires Valid() && t !in waiters && t !in woken && (info.all || info.any)
      modifies this`flags, this`waiters, t`error, t`timer, t`eventSet, t`eventInfo
      ensures Valid()
      ensures want == 0 ==> r == Refused(Eerror)
      ensures want != 0 && Met(Wish(want, info), old(flags)) ==>
        r == Received(And(old(flags), want)) && flags == if info.clear then Minus(old(flags), want) else old(flags)
      ensures want != 0 && !Met(Wish(want, info), old(flags)) ==>
        r == (if timeout == 0 then Refused(Etimeout) else Waits) && flags == old(flags)
      ensures t.error == if want == 0 then old(t.error) else if r.Refused? then Etimeout else Eok
      ensures r != Waits ==> waiters == old(waiters)
      ensures r == Waits ==>
        && WishOf(t) == Wish(want, info) && t.timer == (0 < timeout)
        && waiters == if flag.Fifo? then old(waiters) + [t] else Enqueued(old(waiters), t)
    {
      hide And, Minus, Met, Unmet, Calm, Enqueued;
      if want == 0 {
        return Refused(Eerror);
      }
      t.error := Eok;
      if Met(Wish(want, info), flags) {
        r := Received(And(flags, want));
        if info.clear {
          TakeFlags(want);
        }
      } else if timeout == 0 {
        t.error := Etimeout;
        r := Refused(Etimeout);
      } else {
        Await(t, want, info, timeout);
        r := Waits;
      }
    }

    /** A receiver comes back from waiting: after an error its call is over, and otherwise it has
        received what it was given when it was woken, whatever has happened to the flags since. */
    method RecvBack(t: Thread) returns (r: Answer)
      requires Valid() && t !in waiters && (t in woken || t.error != Eok)
      modifies this`woken
      ensures Valid() && woken == old(woken) - {t}
      ensures r == if t in old(woken) then Received(old(woken)[t]) else Refused(t.error)
    {
      hide Met, Distinct;
      woken := woken - {t};
      r := if t.error != Eok then Refused(t.error) else Received(t.eventSet);
    }

    /** Taking flags away satisfies nobody. */
    method TakeFlags(gone: bv32)
      requires Unmet()
      modifies this`flags
      ensures Unmet() && flags == Minus(old(flags), gone)
    {
      hide Met, Distinct, Minus, Within;
      WithoutFlags(flags, gone);
      forall w | w in waiters
        ensures !Met(WishOf(w), Minus(flags, gone))
      {
        FewerFlags(WishOf(w), Minus(flags, gone), flags);
      }
      flags := Minus(flags, gone);
    }

    method Await(t: Thread, want: bv32, info: Options, timeout: int)
      requires Valid() && t !in waiters && t !in woken && t.error == Eok
      requires Sound(Wish(want, info)) && !Met(Wish(want, info), flags)
      modifies this`waiters, t`timer, t`eventSet, t`eventInfo
      ensures Valid() && WishOf(t) == Wish(want, info) && t.timer == (0 < timeout)
      ensures waiters == if flag.Fifo? then old(waiters) + [t] else Enqueued(old(waiters), t)
    {
      hide Unmet, Met, Enqueued, Sound;
      Join(t, want, info);
      t.timer := 0 < timeout;
    }

    method Join(t: Thread, want: bv32, info: Options)
      requires Unmet() && t !in waiters && Sound(Wish(want, info)) && !Met(Wish(want, info), flags)
      modifies this`waiters, t`eventSet, t`eventInfo
      ensures Unmet() && WishOf(t) == Wish(want, info)
      ensures waiters == if flag.Fifo? then old(waiters) + [t] else Enqueued(old(waiters), t)
      ensures forall x :: x in waiters <==> x == t || x in old(waiters)
    {
      hide Met, Enqueued, Sound, Distinct;
      t.eventSet := want;
      t.eventInfo := info;
      if flag.Prio? {
        EnqueuedDistinct(waiters, t);
      } else {
        AppendedDistinct(waiters, t);
      }
      waiters := ListSuspend(waiters, t, flag);
    }

    /** rt_event_send: the flags are set and one pass over the waiters wakes those whose wish
        is met, in list order, each taking away the flags it clears. */
    method Send(added: bv32) returns (ok: bool)
      requires Valid()
      modifies this`flags, this`waiters, this`woken, Members(waiters)`timer, Members(waiters)`eventSet
      ensures Valid() && ok == (added != 0)
      ensures !ok ==> flags == old(flags) && waiters == old(waiters) && woken == old(woken)
      ensures ok ==>
        var ws := old(Wishes(waiters)); var s := Or(old(flags), added);
        && flags == Left(ws, s) && |ws| == |old(waiters)|
        && waiters == Asleep(old(waiters), Pass(ws, s))
        && (forall i :: 0 <= i < |ws| ==> Outcome(old(waiters)[i], ws[i], Pass(ws, s)[i]))
        && woken.Keys == old(woken).Keys + (Members(old(waiters)) - Members(waiters))
        && forall t :: t in woken ==> woken[t] == t.eventSet
      ensures forall t :: t in old(waiters) && t in waiters ==> t.timer == old(t.timer)
    {
      hide Queued, Met, Pass, Left, Asleep, Or, Outcome;
      ok := added != 0;
      if !ok {
        return;
      }
      ghost var all := waiters;
      flags := Or(flags, added);
      WakeMet();
      Awaken(all);
    }

    /** The pass over the waiters. */
    method WakeMet()
      requires Queued()
      modifies this`flags, this`waiters, Members(waiters)`timer, Members(waiters)`eventSet
      ensures Unmet() && forall t :: t in waiters ==> t in old(waiters)
      ensures forall t :: t in old(waiters) && t in waiters ==> t.timer == old(t.timer)
      ensures var ws := old(Wishes(waiters)); var s := old(flags);
        && flags == Left(ws, s) && |ws| == |old(waiters)|
        && waiters == Asleep(old(waiters), Pass(ws, s))
        && forall i :: 0 <= i < |ws| ==> Outcome(old(waiters)[i], ws[i], Pass(ws, s)[i])
    {
      hide Met, Distinct, Sound, Pass, Left, Asleep, Scanning;
      ghost var all := waiters;
      ghost var ws, s := Wishes(waiters), flags;
      var n := 0;
      ghost var done: seq<Option<bv32>> := [];
      ScanStarts(all, ws, s);
      while n < |waiters|
        modifies this`flags, this`waiters, Members(waiters)`timer, Members(waiters)`eventSet
        invariant 0 <= n && Scanning(all, ws, s, done, n)
        invariant forall i :: 0 <= i < |all| && (i < |done| ==> done[i] == None) ==> all[i].timer == old(all[i].timer)
        decreases |all| - |done|
      {
        n, done := Consider(all, ws, s, done, n);
      }
      ScanEnds(all, ws, s, done, n);
      AllUnmet(all, ws, s, done, set t | t in all && t.timer == old(t.timer));
    }

    /** Those of `all` that do not wait any more have been woken. */
    ghost method Awaken(all: seq<Thread>)
      requires forall t :: t in all ==> t.error == Eok && t !in woken
      requires forall t :: t in woken ==> t.error == Eok && t.eventSet == woken[t]
      requires forall t :: t in waiters ==> t in all
      modifies this`woken
      ensures Calm() && woken.Keys == old(woken).Keys + (Members(all) - Members(waiters))
      ensures forall t :: t in woken ==> woken[t] == t.eventSet
    {
      var now := Members(all) - Members(waiters);
      woken := woken + map t | t in now :: t.eventSet;
    }

    /** The first |done| of `all` have been considered, with the outcomes `done`; `n` of them
        still wait. */
    ghost predicate Scanning(all: seq<Thread>, ws: seq<Wish>, s: bv32, done: seq<Option<bv32>>, n: int)
      reads this, all`eventSet, all`eventInfo, all`timer
    {
      && |all| == |ws| && |done| <= |all| && Distinct(all)
      && n == |Asleep(all[..|done|], done)| && waiters == Asleep(all[..|done|], done) + all[|done|..]
      && Left(ws[|done|..], flags) == Left(ws, s) && Pass(ws, s) == done + Pass(ws[|done|..], flags)
      && (forall i :: 0 <= i < |done| ==> Outcome(all[i], ws[i], done[i]))
      && (forall i :: |done| <= i < |all| ==> WishOf(all[i]) == ws[i])
    }

    lemma ScanStarts(all: seq<Thread>, ws: seq<Wish>, s: bv32)
      requires Distinct(all) && waiters == all && ws == Wishes(all) && flags == s
      ensures Scanning(all, ws, s, [], 0)
    {
      NoneYet(all, ws, s);
    }

    lemma ScanEnds(all: seq<Thread>, ws: seq<Wish>, s: bv32, done: seq<Option<bv32>>, n: int)
      requires Scanning(all, ws, s, done, n) && n >= |waiters|
      ensures |done| == |all| == |ws| && done == Pass(ws, s) && flags == Left(ws, s) && waiters == Asleep(all, done)
      ensures forall i :: 0 <= i < |all| ==> Outcome(all[i], ws[i], done[i])
    {
      hide Pass, Left, Asleep;
      AtEnd(all, ws, done, flags);
    }

    /** The body of the loop of rt_event_send. */
    method Consider(ghost all: seq<Thread>, ghost ws: seq<Wish>, ghost s: bv32, ghost done: seq<Option<bv32>>, n: nat)
        returns (n': nat, ghost done': seq<Option<bv32>>)
      requires Scanning(all, ws, s, done, n) && n < |waiters|
      modifies this`flags, this`waiters, Members(all)`timer, Members(all)`eventSet
      ensures |done'| == |done| + 1 && |done| < |all| && Scanning(all, ws, s, done', n')
      ensures done'[..|done|] == done
      ensures forall i :: 0 <= i < |all| && (i == |done| ==> done'[i] == None) ==> all[i].timer == old(all[i].timer)
    {
      hide Met, Minus, And, Pass, Left, Asleep;
      var t := waiters[n];
      ghost var k := |done|;
      OneVisit(all, ws, done, flags);
      assert t == all[k] && WishOf(t) == ws[k];
      var woken := Visit(t);
      if woken {
        waiters := waiters[..n] + waiters[n + 1..];
        n' := n;
      } else {
        n' := n + 1;
      }
      done' := done + [if woken then Some(t.eventSet) else None];
    }

    /** One waiter of the pass. */
    method Visit(t: Thread) returns (ok: bool)
      modifies this`flags, t`timer, t`eventSet
      ensures ok == old(Met(WishOf(t), flags))
      ensures ok ==>
        && t.eventSet == old(if t.eventInfo.all then t.eventSet else And(t.eventSet, flags))
        && flags == (if t.eventInfo.clear then Minus(old(flags), t.eventSet) else old(flags)) && !t.timer
      ensures !ok ==> t.eventSet == old(t.eventSet) && flags == old(flags) && t.timer == old(t.timer)
    {
      hide And, Minus;
      ok := false;
      if t.eventInfo.all {
        if And(t.eventSet, flags) == t.eventSet {
          ok := true;
        }
      } else if t.eventInfo.any {
        if And(t.eventSet, flags) != 0 {
          t.eventSet := And(t.eventSet, flags);
          ok := true;
        }
      }
      if ok {
        if t.eventInfo.clear {
          flags := Minus(flags, t.eventSet);
        }
        t.timer := false;
      }
    }

    /** The timer of a waiter expires (rt_thread_timeout). */
    method Timeout(t: Thread)
      requires Valid() && t in waiters && t.timer
      modifies this`waiters, t`timer, t`error
      ensures Valid() && t.error == Etimeout && !t.timer && waiters == Without(old(waiters), t) && flags == old(flags)
    {
      hide Met, Sound, Without, Distinct;
      t.timer := false;
      t.error := Etimeout;
      OneLeaves(waiters, t);
      waiters := Without(waiters, t);
    }

    /** rt_event_control with RT_IPC_CMD_RESET. */
    method Reset()
      requires Valid()
      modifies this`flags, this`waiters, Members(waiters)`error, Members(waiters)`timer
      ensures Valid() && flags == 0 && waiters == []
      ensures forall t :: t in old(waiters) ==> t.error == Eerror && !t.timer
    {
      waiters := ResumeAll(waiters);
      flags := 0;
    }
  }

  function Wishes(ts: seq<Thread>): (r: seq<Wish>)
    reads ts`eventSet, ts`eventInfo
    ensures |r| == |ts| && forall i :: 0 <= i < |ts| ==> r[i] == WishOf(ts[i])
  {
    if ts == [] then [] else [WishOf(ts[0])] + Wishes(ts[1..])
  }

  /** Those of `ts` that the outcomes leave waiting. */
  ghost function Asleep(ts: seq<Thread>, outs: seq<Option<bv32>>): seq<Thread>
    requires |ts| == |outs|
  {
    if ts == [] then []
    else
      var n := |ts| - 1;
      Asleep(ts[..n], outs[..n]) + if outs[n] == None then [ts[n]] else []
  }

  /** A thread still waits for the same, or has been given its flags and is awake. */
  ghost predicate Outcome(t: Thread, w: Wish, out: Option<bv32>)
    reads t`eventSet, t`eventInfo, t`timer
  {
    match out
    case None => WishOf(t) == w
    case Some(given) => t.eventSet == given && t.eventInfo == w.info && !t.timer
  }

  lemma NoneYet(all: seq<Thread>, ws: seq<Wish>, s: bv32)
    ensures Asleep(all[..0], []) == [] && all[0..] == all && ws[0..] == ws
    ensures Pass(ws, s) == [] + Pass(ws[0..], s)
  {
  }

  lemma OneVisit(all: seq<Thread>, ws: seq<Wish>, done: seq<Option<bv32>>, s: bv32)
    requires |done| < |all| == |ws|
    ensures var k := |done|;
      && (forall o :: Asleep(all[..k + 1], done + [o]) == Asleep(all[..k], done) + if o == None then [all[k]] else [])
      && (var o := if Met(ws[k], s) then Some(Given(ws[k], s)) else None;
          var s' := if Met(ws[k], s) then Cleared(ws[k], s) else s;
          && Pass(ws[k..], s) == [o] + Pass(ws[k + 1..], s') && Left(ws[k..], s) == Left(ws[k + 1..], s'))
  {
    hide Met, Given, Cleared;
    var k := |done|;
    assert ws[k..][1..] == ws[k + 1..] && all[..k + 1][..k] == all[..k];
    forall o
      ensures Asleep(all[..k + 1], done + [o]) == Asleep(all[..k], done) + if o == None then [all[k]] else []
    {
      assert (done + [o])[..k] == done;
    }
  }

  lemma AtEnd(all: seq<Thread>, ws: seq<Wish>, done: seq<Option<bv32>>, s: bv32)
    requires |done| == |all| == |ws|
    ensures all[..|done|] == all && all[|done|..] == [] && done + [] == done
    ensures Left(ws[|done|..], s) == s && Pass(ws[|done|..], s) == []
  {
  }

  lemma {:induction false} AsleepMember(ts: seq<Thread>, outs: seq<Option<bv32>>, t: Thread)
    requires |ts| == |outs| && Distinct(ts)
    ensures t in Asleep(ts, outs) ==> exists i :: 0 <= i < |ts| && ts[i] == t && outs[i] == None
    ensures Distinct(Asleep(ts, outs))
  {
    if ts != [] {
      var n := |ts| - 1;
      AsleepMember(ts[..n], outs[..n], t);
      AsleepMember(ts[..n], outs[..n], ts[n]);
      if t in Asleep(ts[..n], outs[..n]) {
        var i :| 0 <= i < n && ts[..n][i] == t && outs[..n][i] == None;
        assert ts[i] == t && outs[i] == None;
      }
    }
  }

  /** After the pass nobody who still waits is satisfied. */
  lemma AllUnmet(all: seq<Thread>, ws: seq<Wish>, s: bv32, outs: seq<Option<bv32>>, kept: set<Thread>)
    requires |all| == |ws| && outs == Pass(ws, s) && Distinct(all)
    requires forall i :: 0 <= i < |all| ==> Sound(ws[i]) && Outcome(all[i], ws[i], outs[i])
    requires forall i :: 0 <= i < |all| && outs[i] == None ==> all[i] in kept
    ensures Distinct(Asleep(all, outs)) && forall t :: t in Asleep(all, outs) ==> t in kept
    ensures forall t :: t in Asleep(all, outs) ==> t in all && Sound(WishOf(t)) && !Met(WishOf(t), Left(ws, s))
  {
    hide Met, Left, Pass, Asleep, Distinct;
    if all == [] {
      NoneYet(all, ws, s);
      assert all[..0] == all && outs == [];
      assert Distinct(Asleep(all, outs)) by { Empty(); }
    } else {
      AsleepMember(all, outs, all[0]);
    }
    forall t | t in Asleep(all, outs)
      ensures t in kept && t in all && Sound(WishOf(t)) && !Met(WishOf(t), Left(ws, s))
    {
      AsleepMember(all, outs, t);
      var i :| 0 <= i < |all| && all[i] == t && outs[i] == None;
      SleepersUnmet(ws, s, i);
    }
  }

  lemma Empty()
    ensures Distinct<Thread>([])
  {
  }

  /** A wish asks for something, and says whether all or any of it. */
  ghost predicate Sound(w: Wish) {
    w.want != 0 && (w.info.all || w.info.any)
  }

  function WishOf(t: Thread): Wish
    reads t`eventSet, t`eventInfo
  {
    Wish(t.eventSet, t.eventInfo)
  }
}
