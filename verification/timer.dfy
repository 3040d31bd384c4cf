/**
 * The timer stage (lfutil/src/seda/timerstage.cpp): ordered events, cancellation, and a thread that sleeps until the
 * first is due.
 */
module Timer {
  import opened Words

  const USEC_PER_SEC := 1000000

  datatype TimeVal = TimeVal(sec: int, usec: int)
  {
    function Micros(): int { USEC_PER_SEC * sec + usec }

    predicate Normal() { 0 <= usec < USEC_PER_SEC }

    predicate LessThan(other: TimeVal) { sec < other.sec || (sec == other.sec && usec < other.usec) }
  }

  /** subTimeval: borrows until the microseconds are not negative. */
  method SubTimeval(t1: TimeVal, t2: TimeVal) returns (result: TimeVal)
    ensures result.Micros() == t1.Micros() - t2.Micros() && result.usec >= 0
    ensures result.Normal() <==> t1.usec - t2.usec < USEC_PER_SEC
  {
    var sec, usec := t1.sec - t2.sec, t1.usec - t2.usec;
    while usec < 0
      invariant USEC_PER_SEC * sec + usec == t1.Micros() - t2.Micros()
      invariant usec == t1.usec - t2.usec || usec < USEC_PER_SEC
      invariant t1.usec - t2.usec >= 0 ==> usec == t1.usec - t2.usec
      decreases -usec
    {
      sec := sec - 1;
      usec := usec + USEC_PER_SEC;
    }
    result := TimeVal(sec, usec);
  }

  /** addTimeval: carries until the microseconds are below a second. */
  method AddTimeval(t1: TimeVal, t2: TimeVal) returns (result: TimeVal)
    ensures result.Micros() == t1.Micros() + t2.Micros() && result.usec < USEC_PER_SEC
    ensures result.Normal() <==> t1.usec + t2.usec >= 0
  {
    var sec, usec := t1.sec + t2.sec, t1.usec + t2.usec;
    while usec >= USEC_PER_SEC
      invariant USEC_PER_SEC * sec + usec == t1.Micros() + t2.Micros()
      invariant usec == t1.usec + t2.usec || usec >= 0
      invariant t1.usec + t2.usec < 0 ==> usec == t1.usec + t2.usec
    {
      sec := sec + 1;
      usec := usec - USEC_PER_SEC;
    }
    result := TimeVal(sec, usec);
  }

  /** On normalized times the comparison of fields is the comparison of instants, and the fields are determined. */
  lemma NormalTimes(a: TimeVal, b: TimeVal)
    requires a.Normal() && b.Normal()
    ensures a.LessThan(b) <==> a.Micros() < b.Micros()
    ensures a.Micros() == b.Micros() ==> a == b
  {
  }

  // ---------- tokens

  datatype Token = Token(time: TimeVal, nonce: u64)
  {
    predicate Less(other: Token) { time.LessThan(other.time) || (time == other.time && nonce < other.nonce) }
  }

  /** Tokens are strictly and totally ordered, which is what an ordered map needs of its keys. */
  lemma TokenOrder(a: Token, b: Token, c: Token)
    ensures !a.Less(a)
    ensures a.Less(b) && b.Less(c) ==> a.Less(c)
    ensures a.Less(b) || b.Less(a) || a == b
    ensures !(a.Less(b) && b.Less(a))
  {
  }

  type Event = nat

  datatype Entry = Entry(token: Token, event: Event)

  predicate Sorted(q: seq<Entry>) { forall i, j :: 0 <= i < j < |q| ==> q[i].token.Less(q[j].token) }

  function Tokens(q: seq<Entry>): set<Token> { set e | e in q :: e.token }

  /** The entries due at a time: everything not after it. */
  predicate Due(e: Entry, now: TimeVal) { !now.LessThan(e.token.time) }

  /**
   * The timer thread: about to check, asleep until a deadline, or for as long as nobody signals. A deadline with a second
   * or more in its fraction makes pthread_cond_timedwait return at once, so that the thread is about to check again.
   */
  datatype Sleeper = Running | Asleep(deadline: Option<TimeVal>, signalled: bool) | Ended

  /** Nonces are never used twice. */
  ghost predicate Unique(issued: set<Token>, registered: set<Entry>, nonceCntr: nat) {
    (forall t :: t in issued ==> t.nonce < nonceCntr)
    && (forall e :: e in registered ==> e.token.nonce < nonceCntr)
    && (forall e, t :: e in registered && t in issued ==> t.nonce != e.token.nonce)
    && (forall t, u :: t in issued && u in issued && t != u ==> t.nonce != u.nonce)
    && (forall d, e :: d in registered && e in registered && d != e ==> d.token.nonce != e.token.nonce)
  }

  /** Every registered event is pending, or was triggered once, or was cancelled, and only one of these. */
  ghost predicate OneFate(q: seq<Entry>, fired: seq<Entry>, cancelled: set<Entry>, registered: set<Entry>) {
    registered == Set(q) + Set(fired) + cancelled
    && Set(q) !! Set(fired) && (Set(q) + Set(fired)) !! cancelled
    && (forall i, j :: 0 <= i < j < |fired| ==> fired[i] != fired[j])
  }

  /** A sleeping thread that nobody has signalled or is about to signal sleeps no longer than until the first event. */
  ghost predicate Alert(sleeper: Sleeper, shutdown: bool, q: seq<Entry>, owed: nat) {
    (sleeper.Asleep? && sleeper.deadline.Some? ==> sleeper.deadline.value.Normal())
    && (sleeper.Asleep? && !sleeper.signalled ==>
      !shutdown
      && (q == [] || owed > 0
          || (sleeper.deadline.Some? && !q[0].token.time.LessThan(sleeper.deadline.value))))
  }

  class TimerStage {
    var timerQueue: seq<Entry>
    var numEvents: int
    var shutdown: bool
    var nonceCntr: nat
    var sleeper: Sleeper
    /** Threads that have put an event at the head of the queue and still owe the signal. */
    var owed: nat
    /** Events triggered, in order. */
    var fired: seq<Entry>

    /** Tokens handed out but not yet registered; and all that ever were registered or cancelled. */
    ghost var issued: set<Token>
    ghost var registered: set<Entry>
    ghost var cancelled: set<Entry>
    /** The event whose time the thread sleeps for. */
    ghost var awaited: Entry

    ghost predicate Valid()
      reads this
    {
      Sorted(timerQueue) && numEvents == |timerQueue| && Unique(issued, registered, nonceCntr)
      && OneFate(timerQueue, fired, cancelled, registered) && Alert(sleeper, shutdown, timerQueue, owed)
      && (sleeper.Asleep? && sleeper.deadline.Some? ==>
            awaited.token.time == sleeper.deadline.value && awaited in Set(timerQueue) + cancelled)
    }

    constructor ()
      ensures Valid() && timerQueue == [] && fired == [] && sleeper == Running && !shutdown
      ensures registered == cancelled == {} && issued == {} && nonceCntr == 0
    {
      timerQueue, numEvents, shutdown, nonceCntr, sleeper, owed, fired := [], 0, false, 0, Running, 0, [];
      issued, registered, cancelled, awaited := {}, {}, {}, Entry(Token(TimeVal(0, 0), 0), 0);
    }

    /** The token of an event to be registered; its nonce is drawn under a mutex of its own. */
    method MakeToken(time: TimeVal) returns (tt: Token)
      requires Valid() && nonceCntr + 1 < TWO64
      modifies `nonceCntr, `issued
      ensures Valid() && tt.time == time && tt !in old(issued) && issued == old(issued) + {tt}
      ensures forall e :: e in registered ==> e.token != tt
      ensures forall e :: e in registered ==> e.token.nonce < tt.nonce
      ensures forall t :: t in old(issued) ==> t.nonce < tt.nonce
    {
      hide Sorted, OneFate, Alert, Set;
      tt := Token(time, nonceCntr);
      nonceCntr := nonceCntr + 1;
      issued := issued + {tt};
    }

    /** registerTimer, under the timer mutex: the token is always new; a new head must be followed by a signal. */
    method RegisterTimer(tt: Token, event: Event) returns (checkTimer: bool)
      requires Valid() && tt in issued
      modifies `timerQueue, `numEvents, `owed, `issued, `registered
      ensures Valid() && registered == old(registered) + {Entry(tt, event)} && issued == old(issued) - {tt}
      ensures Entry(tt, event) in timerQueue && Set(timerQueue) == old(Set(timerQueue)) + {Entry(tt, event)}
      ensures Entry(tt, event) !in old(registered) && |timerQueue| == |old(timerQueue)| + 1
      ensures checkTimer <==> timerQueue[0] == Entry(tt, event)
      ensures owed == old(owed) + (if checkTimer then 1 else 0)
    {
      hide Sorted, Unique, OneFate, Set, Token.Less;
      var e := Entry(tt, event);
      var i := 0;
      while i < |timerQueue| && timerQueue[i].token.Less(tt)
        invariant 0 <= i <= |timerQueue|
        invariant forall j :: 0 <= j < i ==> timerQueue[j].token.Less(tt)
      {
        i := i + 1;
      }
      Absent(timerQueue, fired, cancelled, registered, issued, nonceCntr, tt);
      PutInOrder(timerQueue, i, e);
      RegisterKeeps(timerQueue, fired, cancelled, registered, issued, nonceCntr, e, i);
      timerQueue := timerQueue[..i] + [e] + timerQueue[i..];
      numEvents := numEvents + 1;
      checkTimer := i == 0;
      if checkTimer {
        owed := owed + 1;
      }
      issued := issued - {tt};
      registered := registered + {e};
    }

    /** cancelTimer: succeeds exactly when the event is still pending. */
    method CancelTimer(token: Token) returns (success: bool)
      requires Valid()
      modifies `timerQueue, `numEvents, `cancelled
      ensures Valid() && (success <==> token in Tokens(old(timerQueue)))
      ensures !success ==> timerQueue == old(timerQueue) && cancelled == old(cancelled)
      ensures success ==> exists e :: e in old(timerQueue) && e.token == token && cancelled == old(cancelled) + {e}
                                      && Set(timerQueue) == old(Set(timerQueue)) - {e}
    {
      hide Sorted, Unique, OneFate, Set;
      var it := 0;
      while it < |timerQueue| && timerQueue[it].token != token
        invariant 0 <= it <= |timerQueue|
        invariant forall j :: 0 <= j < it ==> timerQueue[j].token != token
      {
        it := it + 1;
      }
      success := it < |timerQueue|;
      if success {
        assert timerQueue[it] in timerQueue && timerQueue[it].token == token;
        TakenOut(timerQueue, it);
        CancelKeeps(timerQueue, fired, cancelled, registered, it);
        cancelled := cancelled + {timerQueue[it]};
        timerQueue := timerQueue[..it] + timerQueue[it + 1..];
        numEvents := numEvents - 1;
      }
    }

    /** triggerTimerCheck by a thread that owes it. */
    method TriggerTimerCheck()
      requires Valid() && owed > 0
      modifies `owed, `sleeper
      ensures Valid() && owed == old(owed) - 1
      ensures sleeper == if old(sleeper).Asleep? then old(sleeper).(signalled := true) else old(sleeper)
    {
      owed := owed - 1;
      if sleeper.Asleep? {
        sleeper := sleeper.(signalled := true);
      }
    }

    /** While the thread sleeps undisturbed and nobody owes a signal, it wakes before every pending event is due. */
    lemma NoEventOversleeps(e: Entry)
      requires Valid() && sleeper.Asleep? && !sleeper.signalled && owed == 0 && e in timerQueue
      ensures !shutdown && sleeper.deadline.Some? && !e.token.time.LessThan(sleeper.deadline.value)
      ensures sleeper.deadline.value.Normal()
    {
      var i :| 0 <= i < |timerQueue| && timerQueue[i] == e;
      assert i > 0 ==> timerQueue[0].token.Less(e.token);
    }

    /** An event registered under a token is pending, fired or cancelled, and never two of these. */
    lemma FateOf(e: Entry)
      requires Valid() && e in registered
      ensures (e in timerQueue && e !in fired && e !in cancelled)
           || (e !in timerQueue && e in fired && e !in cancelled)
           || (e !in timerQueue && e !in fired && e in cancelled)
      ensures forall d :: d in registered && d.token == e.token ==> d == e
    {
      assert e in Set(timerQueue) <==> e in timerQueue;
      assert e in Set(fired) <==> e in fired;
    }

    /** Of events with the same time, the one whose token was made first stands first. */
    lemma EqualTimesInOrder(i: nat, j: nat)
      requires Valid() && i < j < |timerQueue| && timerQueue[i].token.time == timerQueue[j].token.time
      ensures timerQueue[i].token.nonce < timerQueue[j].token.nonce
    {
      assert timerQueue[i].token.Less(timerQueue[j].token);
    }

    /** disconnectPrepare, up to the join. */
    method Shutdown()
      requires Valid()
      modifies `shutdown, `sleeper
      ensures Valid() && shutdown
      ensures sleeper == if old(sleeper).Asleep? then old(sleeper).(signalled := true) else old(sleeper)
    {
      shutdown := true;
      if sleeper.Asleep? {
        sleeper := sleeper.(signalled := true);
      }
    }

    /** checkTimer, from taking the mutex to giving it up again: signalled, timed out or woken for no reason. */
    method CheckTimer(now: TimeVal)
      requires Valid() && sleeper != Ended
      modifies `timerQueue, `numEvents, `fired, `sleeper, `awaited
      ensures Valid() && old(fired) <= fired && old(timerQueue) == fired[|old(fired)|..] + timerQueue
      ensures forall e :: e in fired[|old(fired)|..] ==> Due(e, now)
      ensures forall e :: e in timerQueue ==> !Due(e, now)
      ensures shutdown ==> sleeper == Ended
      ensures !shutdown && timerQueue == [] ==> sleeper == Asleep(None, false)
      ensures !shutdown && timerQueue != [] && timerQueue[0].token.time.Normal() ==>
                sleeper == Asleep(Some(timerQueue[0].token.time), false)
      ensures !shutdown && timerQueue != [] && !timerQueue[0].token.time.Normal() ==> sleeper == Running
      ensures old(sleeper.Asleep? && sleeper.deadline.Some? && !now.LessThan(sleeper.deadline.value)) ==>
                old(awaited) in cancelled || |fired| > |old(fired)|
      ensures forall i, j :: |old(fired)| <= i < j < |fired| && fired[i].token.time == fired[j].token.time ==>
                fired[i].token.nonce < fired[j].token.nonce
      ensures now.Normal() ==>
                (forall e :: e in fired[|old(fired)|..] && e.token.time.Normal() ==> e.token.time.Micros() <= now.Micros())
                && forall e :: e in timerQueue && e.token.time.Normal() ==> now.Micros() < e.token.time.Micros()
    {
      hide Unique, OneFate, Sorted, Set;
      ghost var q, was := timerQueue, fired;
      var last := 0;
      while last < |timerQueue| && !now.LessThan(timerQueue[last].token.time)
        invariant 0 <= last <= |timerQueue|
        invariant forall j :: 0 <= j < last ==> Due(timerQueue[j], now)
      {
        last := last + 1;
      }
      LaterAreNotDue(q, last, now);
      FiredInOrder(q, last, now, was);
      AwaitedIsFired(q, last, now, awaited);
      HeadRemains(q, last);
      FireFirst(last);
      if shutdown {
        sleeper := Ended;
      } else {
        if timerQueue == [] {
          sleeper := Asleep(None, false);
        } else if timerQueue[0].token.time.Normal() {
          sleeper, awaited := Asleep(Some(timerQueue[0].token.time), false), timerQueue[0];
        } else {
          sleeper := Running;
        }
      }
    }

    /** Erase the first entries and trigger their events. */
    method FireFirst(last: nat)
      requires Sorted(timerQueue) && numEvents == |timerQueue| && last <= |timerQueue|
      requires OneFate(timerQueue, fired, cancelled, registered)
      modifies `timerQueue, `numEvents, `fired
      ensures Sorted(timerQueue) && numEvents == |timerQueue| && OneFate(timerQueue, fired, cancelled, registered)
      ensures timerQueue == old(timerQueue)[last..] && fired == old(fired) + old(timerQueue)[..last]
    {
      var doneEvents := timerQueue[..last];
      SplitSet(timerQueue, last);
      timerQueue := timerQueue[last..];
      for i := 0 to last
        invariant timerQueue == old(timerQueue)[last..] && fired == old(fired) + doneEvents[..i]
        invariant numEvents == |timerQueue| + last - i
      {
        fired := fired + [doneEvents[i]];
        numEvents := numEvents - 1;
      }
      assert doneEvents[..last] == doneEvents;
      SplitSet(fired, |old(fired)|);
      assert fired[..|old(fired)|] == old(fired) && fired[|old(fired)|..] == doneEvents;
      FiredOnce(old(fired), doneEvents);
    }
  }

  function Set(q: seq<Entry>): set<Entry> { set e | e in q }

  lemma SplitSet(q: seq<Entry>, n: nat)
    requires n <= |q|
    ensures Set(q) == Set(q[..n]) + Set(q[n..])
    ensures Sorted(q) ==> Sorted(q[..n]) && Sorted(q[n..]) && Set(q[..n]) !! Set(q[n..])
  {
    assert q == q[..n] + q[n..];
  }

  lemma FiredOnce(was: seq<Entry>, more: seq<Entry>)
    requires Set(was) !! Set(more) && Sorted(more)
    requires forall i, j :: 0 <= i < j < |was| ==> was[i] != was[j]
    ensures forall i, j :: 0 <= i < j < |was + more| ==> (was + more)[i] != (was + more)[j]
  {
    forall i, j | 0 <= i < j < |was + more|
      ensures (was + more)[i] != (was + more)[j]
    {
      if i < |was| <= j {
        assert was[i] in Set(was) && more[j - |was|] in Set(more);
      }
    }
  }

  lemma PutInOrder(q: seq<Entry>, i: nat, e: Entry)
    requires Sorted(q) && i <= |q| && (forall j :: 0 <= j < |q| ==> q[j].token != e.token)
    requires forall j :: 0 <= j < i ==> q[j].token.Less(e.token)
    requires i < |q| ==> !q[i].token.Less(e.token)
    ensures Sorted(q[..i] + [e] + q[i..]) && Set(q[..i] + [e] + q[i..]) == Set(q) + {e}
    ensures i == 0 <==> (q[..i] + [e] + q[i..])[0] == e
  {
    var r := q[..i] + [e] + q[i..];
    forall j | i <= j < |q|
      ensures e.token.Less(q[j].token)
    {
      TokenOrder(q[i].token, e.token, q[j].token);
      TokenOrder(e.token, q[i].token, q[j].token);
    }
    assert forall j :: 0 <= j < |r| ==> r[j] == if j < i then q[j] else if j == i then e else q[j - 1];
    assert q == q[..i] + q[i..];
    assert i > 0 ==> r[0] == q[0] && q[0].token != e.token;
  }

  lemma TakenOut(q: seq<Entry>, i: nat)
    requires Sorted(q) && i < |q|
    ensures var r := q[..i] + q[i + 1..];
      Sorted(r) && Set(r) == Set(q) - {q[i]} && (r != [] ==> !r[0].token.Less(q[0].token))
  {
    var r := q[..i] + q[i + 1..];
    assert forall j :: 0 <= j < |r| ==> r[j] == if j < i then q[j] else q[j + 1];
    assert q == q[..i] + [q[i]] + q[i + 1..];
    forall j | 0 <= j < |q| && j != i
      ensures q[j] != q[i]
    {
      assert if j < i then q[j].token.Less(q[i].token) else q[i].token.Less(q[j].token);
    }
    if r != [] && i == 0 {
      assert r[0] == q[1];
    }
  }

  /** What a check fires: everything due, in the order of the queue. */
  lemma FiredInOrder(q: seq<Entry>, last: nat, now: TimeVal, was: seq<Entry>)
    requires Sorted(q) && last <= |q| && (forall j :: 0 <= j < last ==> Due(q[j], now))
    requires forall j :: last <= j < |q| ==> !Due(q[j], now)
    ensures var fired := was + q[..last];
      (forall i, j :: |was| <= i < j < |fired| && fired[i].token.time == fired[j].token.time ==>
         fired[i].token.nonce < fired[j].token.nonce)
      && fired[|was|..] == q[..last] && (forall e :: e in q[..last] ==> Due(e, now))
      && forall e :: e in q[last..] ==> !Due(e, now)
    ensures now.Normal() ==>
              (forall e :: e in q[..last] && e.token.time.Normal() ==> e.token.time.Micros() <= now.Micros())
              && forall e :: e in q[last..] && e.token.time.Normal() ==> now.Micros() < e.token.time.Micros()
  {
    var fired := was + q[..last];
    assert forall i :: |was| <= i < |fired| ==> fired[i] == q[i - |was|];
    forall i, j | |was| <= i < j < |fired| && fired[i].token.time == fired[j].token.time
      ensures fired[i].token.nonce < fired[j].token.nonce
    {
      assert q[i - |was|].token.Less(q[j - |was|].token);
    }
  }

  lemma AwaitedIsFired(q: seq<Entry>, last: nat, now: TimeVal, awaited: Entry)
    requires last <= |q| && forall j :: last <= j < |q| ==> !Due(q[j], now)
    ensures awaited in Set(q) && Due(awaited, now) ==> last > 0
  {
  }

  lemma HeadRemains(q: seq<Entry>, last: nat)
    requires last <= |q|
    ensures q[last..] != [] ==> q[last..][0] in Set(q[last..])
  {
  }

  lemma LaterAreNotDue(q: seq<Entry>, last: nat, now: TimeVal)
    requires Sorted(q) && last <= |q| && (last < |q| ==> !Due(q[last], now))
    ensures forall j :: last <= j < |q| ==> !Due(q[j], now)
  {
  }

  /** A token not yet used is not in the queue, nor in anything registered before. */
  lemma Absent(q: seq<Entry>, fired: seq<Entry>, cancelled: set<Entry>, registered: set<Entry>, issued: set<Token>,
               nonceCntr: nat, tt: Token)
    requires OneFate(q, fired, cancelled, registered) && Unique(issued, registered, nonceCntr) && tt in issued
    ensures forall e :: e in registered ==> e.token != tt
    ensures forall j :: 0 <= j < |q| ==> q[j].token != tt
  {
    assert forall j :: 0 <= j < |q| ==> q[j] in Set(q);
  }

  lemma RegisterKeeps(q: seq<Entry>, fired: seq<Entry>, cancelled: set<Entry>, registered: set<Entry>, issued: set<Token>,
                      nonceCntr: nat, e: Entry, i: nat)
    requires OneFate(q, fired, cancelled, registered) && Unique(issued, registered, nonceCntr)
    requires e.token in issued && i <= |q| && Set(q[..i] + [e] + q[i..]) == Set(q) + {e}
    requires forall d :: d in registered ==> d.token != e.token
    ensures Unique(issued - {e.token}, registered + {e}, nonceCntr) && e !in registered
    ensures OneFate(q[..i] + [e] + q[i..], fired, cancelled, registered + {e})
  {
  }

  lemma CancelKeeps(q: seq<Entry>, fired: seq<Entry>, cancelled: set<Entry>, registered: set<Entry>, i: nat)
    requires OneFate(q, fired, cancelled, registered) && i < |q|
    requires Set(q[..i] + q[i + 1..]) == Set(q) - {q[i]}
    ensures OneFate(q[..i] + q[i + 1..], fired, cancelled + {q[i]}, registered)
  {
    assert q[i] in Set(q);
  }
}
