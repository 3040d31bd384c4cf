/** Service threads, the run queue and the retirement of threads (lfutil/src/seda/threadpool.cpp, killthread.cpp). */
module Threadpools {
  import opened Words

  /** An entry of the run queue: an ordinary stage, or the kill-thread stage. */
  datatype Token = Work(stage: nat) | Kill

  datatype Phase =
    | Awake        // about to lock the run mutex
    | Blocked      // in COND_WAIT, not signalled
    | Signalled    // signalled, has not got the run mutex back yet
    | Working      // handling an event of an ordinary stage
    | Stopped      // a service thread waiting inside killThreads
    | Retiring     // has taken a kill event, has not told the pool yet
    | Exiting      // has told the pool, about to exit
    | Gone

  /**
   * A killThreads transaction: it posts kill events and later disconnects the kill stage with the thread mutex held, and
   * waits in between without. Its wait is no loop.
   */
  datatype Killing = NoKill | Posting(left: nat) | Waiting | Woken | Disconnecting | Finished

  /** killer is the service thread that called killThreads, if it was one. */
  datatype State = State(runQueue: seq<Token>, nIdles: int, threads: seq<Phase>, nthreads: int, threadsToKill: int,
                         planned: nat, killing: Killing, killer: Option<nat>)
  {
    function Number(p: Phase): nat { multiset(threads)[p] }

    /** Threads that have not been told to retire and are not asleep. */
    function AwakeNonRetiring(): nat { Number(Awake) + Number(Signalled) + Number(Working) }

    function LiveNonRetiring(): nat { AwakeNonRetiring() + Number(Blocked) + Number(Stopped) }

    function KillTokens(): nat { multiset(runQueue)[Kill] }

    /** The thread mutex is free. */
    predicate ThreadMutexFree() { !killing.Posting? && !killing.Disconnecting? }
  }

  predicate Init(s: State) {
    s == State([], 0, s.threads, |s.threads|, 0, 0, NoKill, None)
    && forall t :: 0 <= t < |s.threads| ==> s.threads[t] == Awake
  }

  // ---------- the steps

  /** schedule: no signal when a thread of this pool puts the only entry into the queue. */
  predicate Schedule(s: State, s': State, token: Token, inPool: bool) {
    var pushed := s.(runQueue := s.runQueue + [token]);
    if (s.runQueue != [] || !inPool) && s.nIdles > 0 then Signal(pushed, s') else s' == pushed
  }

  /** COND_SIGNAL wakes one of the blocked threads, if there is any. */
  predicate Signal(s: State, s': State) {
    if s.Number(Blocked) == 0 then s' == s
    else exists t :: 0 <= t < |s.threads| && s.threads[t] == Blocked && s' == s.(threads := s.threads[t := Signalled])
  }

  /** A thread outside the pool, or one that is handling an event, schedules a stage. */
  predicate ScheduleWork(s: State, s': State, stage: nat, inPool: bool) {
    (inPool ==> s.Number(Working) > 0) && Schedule(s, s', Work(stage), inPool)
  }

  /** The top of the service loop with the run mutex held. */
  predicate Top(s: State, s': State, t: nat) {
    t < |s.threads| && s.threads[t] == Awake
    && s' == (if s.runQueue == [] then s.(nIdles := s.nIdles + 1, threads := s.threads[t := Blocked]) else Taken(s, t))
  }

  /** COND_WAIT returns; the queue may be empty again. */
  predicate WakeUp(s: State, s': State, t: nat) {
    t < |s.threads| && s.threads[t] == Signalled
    && s' == (if s.runQueue == [] then s.(threads := s.threads[t := Blocked])
              else Taken(s.(nIdles := s.nIdles - 1), t))
  }

  function Taken(s: State, t: nat): State
    requires t < |s.threads| && s.runQueue != []
  {
    s.(runQueue := s.runQueue[1..], threads := s.threads[t := if s.runQueue[0] == Kill then Retiring else Working])
  }

  predicate SpuriousWakeUp(s: State, s': State, t: nat) {
    t < |s.threads| && s.threads[t] == Blocked && s' == s.(threads := s.threads[t := Signalled])
  }

  predicate Handled(s: State, s': State, t: nat) {
    t < |s.threads| && s.threads[t] == Working && s.killer != Some(t)
    && s' == s.(threads := s.threads[t := Awake])
  }

  /** addThreads: one more thread under the thread mutex. */
  predicate AddThread(s: State, s': State) {
    s.ThreadMutexFree() && s' == s.(threads := s.threads + [Awake], nthreads := s.nthreads + 1)
  }

  /** killThreads: refused while another transaction is counting; never more than there are threads. */
  predicate KillBegin(s: State, s': State, threads: nat, killer: Option<nat>) {
    s.killing in {NoKill, Finished} && s.threadsToKill == 0 && s.killer.None?
    && (killer.Some? ==> killer.value < |s.threads| && s.threads[killer.value] == Working)
    && var toKill := if threads > s.nthreads then s.nthreads else threads;
    toKill >= 0 && s' == s.(killing := Posting(toKill), planned := toKill, killer := killer)
  }

  predicate KillPost(s: State, s': State) {
    s.killing.Posting? && s.killing.left > 0
    && Schedule(s.(killing := Posting(s.killing.left - 1)), s', Kill, s.killer.Some?)
  }

  predicate KillWait(s: State, s': State) {
    s.killing == Posting(0) && (s.killer.Some? ==> s.killer.value < |s.threads|)
    && s' == s.(threadsToKill := s.planned, killing := Waiting,
                threads := if s.killer.Some? then s.threads[s.killer.value := Stopped] else s.threads)
  }

  /** The wait of killThreads returns: signalled by the last retirement, or for no reason. */
  predicate KillResume(s: State, s': State) {
    s.killing in {Waiting, Woken} && s' == s.(killing := Disconnecting)
  }

  /** The kill stage is disconnected once no kill event is queued or being handled. */
  predicate KillDisconnect(s: State, s': State) {
    s.killing == Disconnecting && s.KillTokens() + s.Number(Retiring) + s.Number(Exiting) == 0
    && s' == s.(killing := Finished)
  }

  predicate KillReturn(s: State, s': State, t: nat) {
    t < |s.threads| && s.killing == Finished && s.killer == Some(t)
    && s' == s.(killer := None, threads := s.threads[t := Working])
  }

  /** threadKill: the last one wakes the waiting killThreads. */
  predicate ThreadKill(s: State, s': State, t: nat) {
    t < |s.threads| && s.threads[t] == Retiring && s.ThreadMutexFree()
    && s' == s.(nthreads := s.nthreads - 1, threadsToKill := s.threadsToKill - 1, threads := s.threads[t := Exiting],
                killing := if s.threadsToKill == 1 && s.killing == Waiting then Woken else s.killing)
  }

  predicate Exit(s: State, s': State, t: nat) {
    t < |s.threads| && s.threads[t] == Exiting && s' == s.(threads := s.threads[t := Gone])
  }

  ghost predicate Step(s: State, s': State) {
    || (exists stage, inPool :: ScheduleWork(s, s', stage, inPool))
    || (exists t :: Top(s, s', t) || WakeUp(s, s', t) || SpuriousWakeUp(s, s', t) || Handled(s, s', t)
                    || ThreadKill(s, s', t) || Exit(s, s', t) || KillReturn(s, s', t))
    || AddThread(s, s')
    || (exists threads, killer :: KillBegin(s, s', threads, killer))
    || KillPost(s, s')
    || KillWait(s, s')
    || KillResume(s, s')
    || KillDisconnect(s, s')
  }

  // ---------- the invariant

  /** Somebody sleeps only if there are enough others for everything in the queue, counting one inside killThreads. */
  ghost predicate NoLostWakeUp(s: State) {
    s.Number(Blocked) > 0 ==> s.AwakeNonRetiring() + s.Number(Stopped) >= |s.runQueue|
  }

  ghost predicate Counted(s: State) {
    s.nIdles == s.Number(Blocked) + s.Number(Signalled)
    && s.nthreads == s.LiveNonRetiring() + s.Number(Retiring)
    && s.KillTokens() + s.Number(Retiring)
       == (match s.killing case Posting(left) => s.planned - left case _ => s.threadsToKill)
    && (s.killing.Posting? ==> s.killing.left <= s.planned && s.threadsToKill == 0)
    && (s.killing in {NoKill, Woken, Finished} ==> s.threadsToKill == 0)
    && (if s.killing.Posting? then s.planned else s.threadsToKill) <= s.nthreads
  }

  /** The service thread inside killThreads, the only one there, is neither asleep in the pool nor retiring. */
  ghost predicate KillerPlaced(s: State) {
    s.Number(Stopped) == Bit(s.killer.Some? && !s.killing.Posting?)
    && (s.killer.Some? ==>
          s.killer.value < |s.threads| && s.killing != NoKill
          && s.threads[s.killer.value] == (if s.killing.Posting? then Working else Stopped))
  }

  ghost predicate Inv(s: State) { NoLostWakeUp(s) && Counted(s) && KillerPlaced(s) }

  /** Replacing one phase moves one thread from one count to another. */
  lemma Moved(s: State, s': State, t: nat, p: Phase)
    requires t < |s.threads| && s'.threads == s.threads[t := p]
    ensures forall q :: s'.Number(q) + Bit(s.threads[t] == q) == s.Number(q) + Bit(p == q)
    ensures s.Number(s.threads[t]) > 0
  {
    assert s.threads[t] in multiset(s.threads);
  }

  lemma Pushed(q: seq<Token>, token: Token)
    ensures multiset(q + [token])[Kill] == multiset(q)[Kill] + Bit(token == Kill)
  {
  }

  lemma Popped(q: seq<Token>)
    requires q != []
    ensures multiset(q)[Kill] == multiset(q[1..])[Kill] + Bit(q[0] == Kill)
  {
    assert q == [q[0]] + q[1..];
  }

  lemma InitIsInv(s: State)
    requires Init(s)
    ensures Inv(s)
  {
    forall p | p != Awake
      ensures s.Number(p) == 0
    {
      assert p !in s.threads;
    }
    AllAwake(s.threads);
    assert s.KillTokens() == 0;
    hide State.Number, State.KillTokens;
  }

  lemma {:induction false} AllAwake(threads: seq<Phase>)
    requires forall t :: 0 <= t < |threads| ==> threads[t] == Awake
    ensures multiset(threads)[Awake] == |threads|
  {
    if threads != [] {
      AllAwake(threads[1..]);
      assert threads == [threads[0]] + threads[1..];
    }
  }

  lemma ScheduleKeeps(s: State, s': State, token: Token, inPool: bool)
    requires Schedule(s, s', token, inPool)
    requires s.nIdles == s.Number(Blocked) + s.Number(Signalled)
    ensures s'.nIdles == s'.Number(Blocked) + s'.Number(Signalled)
    ensures NoLostWakeUp(s) && (inPool ==> s.Number(Working) > 0) ==> NoLostWakeUp(s')
    ensures s'.LiveNonRetiring() == s.LiveNonRetiring()
    ensures s'.Number(Retiring) == s.Number(Retiring) && s'.Number(Stopped) == s.Number(Stopped)
    ensures s'.KillTokens() == s.KillTokens() + Bit(token == Kill)
    ensures s'.nthreads == s.nthreads && s'.threadsToKill == s.threadsToKill && s'.planned == s.planned
    ensures s'.killing == s.killing && s'.killer == s.killer
    ensures |s'.threads| == |s.threads|
    ensures forall t :: 0 <= t < |s.threads| && s.threads[t] in {Working, Stopped} ==> s'.threads[t] == s.threads[t]
  {
    hide State.Number;
    Pushed(s.runQueue, token);
    var pushed := s.(runQueue := s.runQueue + [token]);
    SameThreads(s, pushed);
    if (s.runQueue != [] || !inPool) && s.nIdles > 0 && pushed.Number(Blocked) > 0 {
      var t :| 0 <= t < |s.threads| && pushed.threads[t] == Blocked
               && s' == pushed.(threads := pushed.threads[t := Signalled]);
      Moved(s, s', t, Signalled);
    }
  }

  lemma SameThreads(s: State, s': State)
    requires s'.threads == s.threads
    ensures forall p :: s'.Number(p) == s.Number(p)
  {
  }

  lemma SameQueue(s: State, s': State)
    requires s'.runQueue == s.runQueue
    ensures s'.KillTokens() == s.KillTokens()
  {
  }

  lemma ThreadTakes(s: State, s': State, t: nat)
    requires Inv(s) && s.runQueue != [] && (Top(s, s', t) || WakeUp(s, s', t))
    ensures Inv(s')
  {
    hide State.Number;
    Moved(s, s', t, s'.threads[t]);
    Popped(s.runQueue);
  }

  lemma ThreadSleeps(s: State, s': State, t: nat)
    requires Inv(s) && s.runQueue == [] && (Top(s, s', t) || WakeUp(s, s', t))
    ensures Inv(s')
  {
    hide State.Number, State.KillTokens;
    Moved(s, s', t, s'.threads[t]);
    SameQueue(s, s');
  }

  lemma ThreadStirs(s: State, s': State, t: nat)
    requires Inv(s) && (SpuriousWakeUp(s, s', t) || Handled(s, s', t))
    ensures Inv(s')
  {
    hide State.Number, State.KillTokens;
    Moved(s, s', t, s'.threads[t]);
    SameQueue(s, s');
  }

  lemma ThreadMoves(s: State, s': State, t: nat)
    requires Inv(s)
    requires Top(s, s', t) || WakeUp(s, s', t) || SpuriousWakeUp(s, s', t) || Handled(s, s', t)
    ensures Inv(s')
  {
    hide Inv, Top, WakeUp, SpuriousWakeUp, Handled;
    if SpuriousWakeUp(s, s', t) || Handled(s, s', t) {
      ThreadStirs(s, s', t);
    } else if s.runQueue == [] {
      ThreadSleeps(s, s', t);
    } else {
      ThreadTakes(s, s', t);
    }
  }

  lemma ThreadEnds(s: State, s': State, t: nat)
    requires Inv(s) && (ThreadKill(s, s', t) || Exit(s, s', t) || KillReturn(s, s', t))
    ensures Inv(s')
  {
    hide State.Number;
    Moved(s, s', t, s'.threads[t]);
    SameQueue(s, s');
  }

  lemma Added(s: State, s': State)
    requires Inv(s) && AddThread(s, s')
    ensures Inv(s')
  {
    forall p
      ensures s'.Number(p) == s.Number(p) + Bit(p == Awake)
    {
    }
    assert s'.KillTokens() == s.KillTokens();
    hide State.Number;
  }

  lemma KillSteps(s: State, s': State)
    requires Inv(s)
    requires KillPost(s, s') || KillWait(s, s') || exists threads, killer :: KillBegin(s, s', threads, killer)
    ensures Inv(s')
  {
    hide State.Number, Schedule;
    if KillPost(s, s') {
      var posting := s.(killing := Posting(s.killing.left - 1));
      SameThreads(s, posting);
      SameQueue(s, posting);
      if s.killer.Some? {
        assert s.threads[s.killer.value] == Working;
        Present(s, s.killer.value);
      }
      ScheduleKeeps(posting, s', Kill, s.killer.Some?);
    } else if KillWait(s, s') {
      SameQueue(s, s');
      if s.killer.Some? {
        Moved(s, s', s.killer.value, Stopped);
      } else {
        SameThreads(s, s');
      }
    } else {
      SameThreads(s, s');
      SameQueue(s, s');
    }
  }

  lemma Present(s: State, t: nat)
    requires t < |s.threads|
    ensures s.Number(s.threads[t]) > 0
  {
    assert s.threads[t] in multiset(s.threads);
  }

  lemma KillEnds(s: State, s': State)
    requires Inv(s) && (KillResume(s, s') || KillDisconnect(s, s'))
    ensures Inv(s')
  {
    hide State.Number;
    SameThreads(s, s');
    SameQueue(s, s');
  }

  lemma StepKeepsInv(s: State, s': State)
    requires Inv(s) && Step(s, s')
    ensures Inv(s')
  {
    hide State.Number, State.KillTokens, Schedule;
    if stage, inPool :| ScheduleWork(s, s', stage, inPool) {
      ScheduleKeeps(s, s', Work(stage), inPool);
    } else if t :| Top(s, s', t) || WakeUp(s, s', t) || SpuriousWakeUp(s, s', t) || Handled(s, s', t) {
      ThreadMoves(s, s', t);
    } else if t :| ThreadKill(s, s', t) || Exit(s, s', t) || KillReturn(s, s', t) {
      ThreadEnds(s, s', t);
    } else if AddThread(s, s') {
      Added(s, s');
    } else if KillResume(s, s') || KillDisconnect(s, s') {
      KillEnds(s, s');
    } else {
      KillSteps(s, s');
    }
  }

  // ---------- what follows in every run

  ghost predicate Run(states: seq<State>) {
    states != [] && Init(states[0]) && forall i :: 0 <= i < |states| - 1 ==> Step(states[i], states[i + 1])
  }

  lemma {:induction false} RunKeepsInv(states: seq<State>, n: nat)
    requires Run(states) && n < |states|
    ensures Inv(states[n])
  {
    if n == 0 {
      InitIsInv(states[0]);
    } else {
      RunKeepsInv(states, n - 1);
      StepKeepsInv(states[n - 1], states[n]);
    }
  }

  /**
   * In every reachable state enough threads are awake for the queue, as long as there are that many to keep, if no service
   * thread waits inside killThreads; if one does it is the only one, and at most one thread is missing.
   */
  lemma EnoughAwake(states: seq<State>, n: nat)
    requires Run(states) && n < |states|
    ensures var s := states[n];
      var enough := if s.LiveNonRetiring() < |s.runQueue| then s.LiveNonRetiring() else |s.runQueue|;
      s.Number(Stopped) == Bit(s.killer.Some? && !s.killing.Posting?)
      && s.AwakeNonRetiring() + s.Number(Stopped) >= enough
      && (s.Number(Stopped) == 0 ==> s.AwakeNonRetiring() >= enough)
      && s.AwakeNonRetiring() >= enough - 1
    ensures var s := states[n];
      var awake := s.Number(Awake) + s.Number(Signalled) + s.Number(Working);
      awake + s.Number(Stopped) >= |s.runQueue| || awake + s.Number(Stopped) >= s.nthreads - s.Number(Retiring)
  {
    RunKeepsInv(states, n);
  }

  /** Two service threads; the first, handling an event, calls killThreads(1) while the second is asleep. */
  function InsideState(i: nat): State {
    if i == 0 then State([], 0, [Awake, Awake], 2, 0, 0, NoKill, None)
    else if i == 1 then State([Work(7)], 0, [Awake, Awake], 2, 0, 0, NoKill, None)
    else if i == 2 then State([], 0, [Working, Awake], 2, 0, 0, NoKill, None)
    else if i == 3 then State([], 1, [Working, Blocked], 2, 0, 0, NoKill, None)
    else if i == 4 then State([], 1, [Working, Blocked], 2, 0, 1, Posting(1), Some(0))
    else if i == 5 then State([Kill], 1, [Working, Blocked], 2, 0, 1, Posting(0), Some(0))
    else if i == 6 then State([Kill], 1, [Stopped, Blocked], 2, 1, 1, Waiting, Some(0))
    else State([Kill], 1, [Stopped, Blocked], 2, 1, 1, Disconnecting, Some(0))
  }

  lemma InsideStep(i: nat)
    requires i < 7
    ensures Step(InsideState(i), InsideState(i + 1))
  {
    var s, s' := InsideState(i), InsideState(i + 1);
    assert [Awake, Awake][0 := Working] == [Working, Awake] && [Working, Awake][1 := Blocked] == [Working, Blocked];
    assert [Working, Blocked][0 := Stopped] == [Stopped, Blocked] && [Work(7)][1..] == [];
    if i == 0 {
      assert s'.runQueue == s.runQueue + [Work(7)];
      assert ScheduleWork(s, s', 7, false);
    } else if i == 1 {
      assert Top(s, s', 0);
    } else if i == 2 {
      assert Top(s, s', 1);
    } else if i == 3 {
      assert KillBegin(s, s', 1, Some(0));
    } else if i == 4 {
      assert s'.runQueue == s.runQueue + [Kill];
      assert KillPost(s, s');
    } else if i == 5 {
      assert KillWait(s, s');
    } else {
      assert KillResume(s, s');
    }
  }

  lemma InsideRun(n: nat)
    requires n <= 7
    ensures Run(seq(n + 1, (i: nat) => InsideState(i)))
  {
    hide Step;
    forall i | 0 <= i < n
      ensures Step(InsideState(i), InsideState(i + 1))
    {
      InsideStep(i);
    }
  }

  /** A service thread that calls killThreads on its own idle pool: its kill event wakes nobody, and it waits for good. */
  lemma KillFromInsideLosesWakeUp() returns (states: seq<State>)
    ensures Run(states)
    ensures var s := states[|states| - 1];
      s.runQueue == [Kill] && s.Number(Blocked) == 1 && s.AwakeNonRetiring() == 0 && s.killing == Waiting
  {
    hide Step;
    InsideRun(6);
    states := seq(7, (i: nat) => InsideState(i));
    assert multiset(states[6].threads) == multiset{Stopped, Blocked};
  }

  /** Every retirement is counted once: the threads left, and the kill events not yet honoured. */
  lemma RetirementsAreCounted(states: seq<State>, n: nat)
    requires Run(states) && n < |states| && !states[n].killing.Posting?
    ensures var s := states[n];
      s.nthreads == s.LiveNonRetiring() + s.Number(Retiring)
      && s.nthreads >= s.threadsToKill == s.KillTokens() + s.Number(Retiring) >= 0
      && (s.killing == Finished ==> s.threadsToKill == 0)
  {
    RunKeepsInv(states, n);
  }

  /** killThreads with nothing to kill is never woken: only a spurious return can bring its wait to an end. */
  lemma KillNothingWaitsForever(states: seq<State>, n: nat, s': State)
    requires Run(states) && n < |states| && Step(states[n], s')
    requires states[n].killing == Waiting && states[n].threadsToKill == 0
    ensures (s'.killing == Waiting && s'.threadsToKill == 0) || KillResume(states[n], s')
  {
    RunKeepsInv(states, n);
    NoThreadKill(states[n], s');
    NothingBegins(states[n], s');
  }

  lemma NoThreadKill(s: State, s': State)
    requires s.Number(Retiring) == 0 || !s.ThreadMutexFree()
    ensures forall t: nat :: !ThreadKill(s, s', t)
  {
    forall t: nat | t < |s.threads| && s.Number(Retiring) == 0
      ensures s.threads[t] != Retiring
    {
      assert s.threads[t] in multiset(s.threads);
    }
  }

  /** Scheduling a stage leaves a killThreads transaction as it is. */
  lemma NothingBegins(s: State, s': State)
    ensures forall stage, inPool :: ScheduleWork(s, s', stage, inPool) ==>
              s'.killing == s.killing && s'.threadsToKill == s.threadsToKill
  {
  }

  /** A wait that returns before the last retirement never ends: the disconnect holds the mutex that retirements need. */
  lemma EarlyReturnDeadlocks(states: seq<State>, n: nat, s': State)
    requires Run(states) && n < |states| && Step(states[n], s')
    requires states[n].killing == Disconnecting && states[n].threadsToKill > 0
    ensures s'.killing == Disconnecting && s'.threadsToKill == states[n].threadsToKill
  {
    RunKeepsInv(states, n);
    NoThreadKill(states[n], s');
    NothingBegins(states[n], s');
  }

  /** And it can happen. */
  lemma EarlyReturnHappens() returns (states: seq<State>)
    ensures Run(states)
    ensures states[|states| - 1].killing == Disconnecting && states[|states| - 1].threadsToKill == 1
  {
    hide Step;
    InsideRun(7);
    states := seq(8, (i: nat) => InsideState(i));
  }

  /** A wait for nothing, on a pool of one thread. */
  lemma KillNothingHappens() returns (states: seq<State>)
    ensures Run(states)
    ensures states[|states| - 1].killing == Waiting && states[|states| - 1].threadsToKill == 0
  {
    var idle := State([], 0, [Awake], 1, 0, 0, NoKill, None);
    var posting, waiting := idle.(killing := Posting(0)), idle.(killing := Waiting);
    assert KillBegin(idle, posting, 0, None);
    assert KillWait(posting, waiting);
    states := [idle, posting, waiting];
  }

  // ---------- when killThreads does return

  /** What a service thread does next of its own accord. */
  predicate PoolStep(s: State, s': State, t: nat) {
    Top(s, s', t) || WakeUp(s, s', t) || Handled(s, s', t) || ThreadKill(s, s', t) || Exit(s, s', t)
  }

  /** The steps the service threads can take unless something is scheduled or wakes them up. */
  function StepsLeft(s: State): nat {
    3 * |s.runQueue| + 2 * (s.Number(Working) + s.Number(Retiring)) + s.Number(Awake) + s.Number(Signalled)
    + s.Number(Exiting)
  }

  lemma PoolStepIsNearer(s: State, s': State, t: nat)
    requires PoolStep(s, s', t)
    ensures Step(s, s') && StepsLeft(s') < StepsLeft(s)
    ensures s'.killing == s.killing || (s.killing == Waiting && s'.killing == Woken && s'.threadsToKill == 0)
  {
    hide State.Number;
    Moved(s, s', t, s'.threads[t]);
  }

  lemma SomeoneIs(s: State, p: Phase) returns (t: nat)
    requires s.Number(p) > 0
    ensures t < |s.threads| && s.threads[t] == p
  {
    assert p in multiset(s.threads);
    t :| t < |s.threads| && s.threads[t] == p;
  }

  /**
   * While killThreads waits for retirements some service thread can take a step, and each such step brings it nearer to
   * its end: unless it was called by a service thread, and all others are asleep.
   */
  lemma SomeoneWillRetire(states: seq<State>, n: nat) returns (s': State, t: nat)
    requires Run(states) && n < |states| && states[n].killing == Waiting && states[n].threadsToKill > 0
    requires states[n].killer.None? || states[n].Number(Retiring) + states[n].AwakeNonRetiring() > 0
    ensures PoolStep(states[n], s', t) && StepsLeft(s') < StepsLeft(states[n])
  {
    hide State.Number, Step, Run;
    RunKeepsInv(states, n);
    var s := states[n];
    if s.Number(Retiring) > 0 {
      t := SomeoneIs(s, Retiring);
      s' := s.(nthreads := s.nthreads - 1, threadsToKill := s.threadsToKill - 1, threads := s.threads[t := Exiting],
               killing := if s.threadsToKill == 1 then Woken else Waiting);
    } else if s.Number(Working) > 0 {
      t := SomeoneIs(s, Working);
      s' := s.(threads := s.threads[t := Awake]);
    } else {
      KillIsQueued(s);
      if s.Number(Awake) > 0 {
        t := SomeoneIs(s, Awake);
        s' := Taken(s, t);
      } else {
        t := SomeoneIs(s, Signalled);
        s' := Taken(s.(nIdles := s.nIdles - 1), t);
      }
    }
    PoolStepIsNearer(s, s', t);
  }

  /** Such a caller waits until something is scheduled: only threads that have retired have a step left, out of the pool. */
  lemma OthersAreAsleep(s: State, s': State, t: nat)
    requires s.Number(Retiring) + s.AwakeNonRetiring() == 0 && s.killer != Some(t) && PoolStep(s, s', t)
    ensures Exit(s, s', t) && s'.killing == s.killing
  {
    Present(s, t);
  }

  lemma KillIsQueued(s: State)
    requires Inv(s) && s.killing == Waiting && s.threadsToKill > 0 && s.Number(Retiring) == 0
    ensures s.runQueue != []
    ensures s.killer.None? ==> s.AwakeNonRetiring() > 0
  {
    assert Kill in multiset(s.runQueue);
    hide State.Number;
  }

  /** Once the last retirement has been reported the disconnect goes through, as soon as the last thread has left. */
  lemma DisconnectEnds(states: seq<State>, n: nat) returns (s': State)
    requires Run(states) && n < |states| && states[n].killing == Disconnecting && states[n].threadsToKill == 0
    ensures Step(states[n], s')
    ensures s'.killing == Finished || (s'.killing == Disconnecting && s'.Number(Exiting) < states[n].Number(Exiting))
  {
    hide State.Number, Run;
    RunKeepsInv(states, n);
    var s := states[n];
    if s.Number(Exiting) > 0 {
      var t := SomeoneIs(s, Exiting);
      s' := s.(threads := s.threads[t := Gone]);
      assert Exit(s, s', t);
      Moved(s, s', t, Gone);
    } else {
      s' := s.(killing := Finished);
      assert KillDisconnect(s, s');
    }
  }

  /** And nothing holds it up: until it is through, no thread starts to leave. */
  lemma DisconnectIsNotDelayed(states: seq<State>, n: nat, s': State)
    requires Run(states) && n < |states| && Step(states[n], s')
    requires states[n].killing == Disconnecting && states[n].threadsToKill == 0
    ensures s'.killing in {Disconnecting, Finished} && s'.threadsToKill == 0
    ensures s'.Number(Exiting) <= states[n].Number(Exiting)
  {
    hide State.Number, State.KillTokens, Run, Schedule;
    RunKeepsInv(states, n);
    var s := states[n];
    if stage, inPool :| ScheduleWork(s, s', stage, inPool) {
      ScheduleExits(s, s', stage, inPool);
    } else if t: nat :| Top(s, s', t) || WakeUp(s, s', t) || SpuriousWakeUp(s, s', t) || Handled(s, s', t)
                        || ThreadKill(s, s', t) || Exit(s, s', t) || KillReturn(s, s', t) {
      Moved(s, s', t, s'.threads[t]);
    } else {
      SameThreads(s, s');
    }
  }

  lemma ScheduleExits(s: State, s': State, stage: nat, inPool: bool)
    requires ScheduleWork(s, s', stage, inPool)
    ensures s'.killing == s.killing && s'.threadsToKill == s.threadsToKill && s'.Number(Exiting) == s.Number(Exiting)
  {
    var pushed := s.(runQueue := s.runQueue + [Work(stage)]);
    hide State.Number;
    SameThreads(s, pushed);
    if s' != pushed {
      var t :| 0 <= t < |s.threads| && pushed.threads[t] == Blocked
               && s' == pushed.(threads := pushed.threads[t := Signalled]);
      Moved(pushed, s', t, Signalled);
    }
  }

  // ---------- how many threads a transaction retires

  /** Threads that have reported their retirement. */
  function Retired(s: State): nat { s.Number(Exiting) + s.Number(Gone) }

  /** Retirements a transaction still has to see. */
  function Owed(s: State): int { if s.killing.Posting? then s.planned else s.threadsToKill }

  ghost predicate InTransaction(s: State) { s.killing !in {NoKill, Finished} }

  /** Inside a transaction every retirement reported is one owed less, and nothing else changes either. */
  lemma StepRetires(s: State, s': State)
    requires Inv(s) && Step(s, s') && InTransaction(s)
    ensures Retired(s') + Owed(s') == Retired(s) + Owed(s)
  {
    hide Schedule, Top, WakeUp, SpuriousWakeUp, Handled, ThreadKill, Exit, KillReturn, Retired, Owed, InTransaction;
    if stage, inPool :| ScheduleWork(s, s', stage, inPool) {
      ScheduleRetires(s, s', Work(stage), inPool);
    } else if t: nat :| Top(s, s', t) || WakeUp(s, s', t) || SpuriousWakeUp(s, s', t) || Handled(s, s', t)
                        || ThreadKill(s, s', t) || Exit(s, s', t) || KillReturn(s, s', t) {
      ThreadRetires(s, s', t);
    } else if AddThread(s, s') {
      OneMore(s, s');
    } else {
      KillStepRetires(s, s');
    }
  }

  lemma ThreadRetires(s: State, s': State, t: nat)
    requires InTransaction(s)
    requires Top(s, s', t) || WakeUp(s, s', t) || SpuriousWakeUp(s, s', t) || Handled(s, s', t)
             || ThreadKill(s, s', t) || Exit(s, s', t) || KillReturn(s, s', t)
    ensures Retired(s') + Owed(s') == Retired(s) + Owed(s)
  {
    hide State.Number;
    Moved(s, s', t, s'.threads[t]);
  }

  lemma KillStepRetires(s: State, s': State)
    requires Inv(s) && InTransaction(s)
    requires KillPost(s, s') || KillWait(s, s') || KillResume(s, s') || KillDisconnect(s, s')
             || exists threads, killer :: KillBegin(s, s', threads, killer)
    ensures Retired(s') + Owed(s') == Retired(s) + Owed(s)
  {
    hide State.Number, State.KillTokens, Schedule, NoLostWakeUp;
    if KillPost(s, s') {
      var posting := s.(killing := Posting(s.killing.left - 1));
      SameThreads(s, posting);
      ScheduleRetires(posting, s', Kill, s.killer.Some?);
    } else if KillWait(s, s') && s.killer.Some? {
      Moved(s, s', s.killer.value, Stopped);
    } else {
      SameThreads(s, s');
    }
  }

  lemma OneMore(s: State, s': State)
    requires AddThread(s, s')
    ensures Retired(s') + Owed(s') == Retired(s) + Owed(s)
  {
    assert forall p :: s'.Number(p) == s.Number(p) + Bit(p == Awake);
  }

  lemma ScheduleRetires(s: State, s': State, token: Token, inPool: bool)
    requires Schedule(s, s', token, inPool)
    ensures s'.killing == s.killing && s'.threadsToKill == s.threadsToKill && s'.planned == s.planned
    ensures Retired(s') == Retired(s) && Owed(s') == Owed(s)
  {
    var pushed := s.(runQueue := s.runQueue + [token]);
    hide State.Number;
    SameThreads(s, pushed);
    if s' != pushed {
      var t :| 0 <= t < |s.threads| && pushed.threads[t] == Blocked
               && s' == pushed.(threads := pushed.threads[t := Signalled]);
      Moved(pushed, s', t, Signalled);
    }
  }

  /**
   * killThreads(n), begun in state i: as long as the transaction lasts, the threads retired since and those still owed are
   * together n, or all threads there were if those are fewer; when it is finished, so many have retired.
   */
  lemma {:induction false} KillRetires(states: seq<State>, i: nat, j: nat, n: nat, killer: Option<nat>)
    requires Run(states) && i < j < |states| && KillBegin(states[i], states[i + 1], n, killer)
    requires forall k :: i < k < j ==> InTransaction(states[k])
    ensures var m := if n > states[i].nthreads then states[i].nthreads else n;
      Retired(states[j]) + Owed(states[j]) == Retired(states[i]) + m
      && (states[j].killing == Finished ==> Retired(states[j]) == Retired(states[i]) + m)
  {
    hide Step, State.Number;
    RunKeepsInv(states, j);
    if j == i + 1 {
      SameThreads(states[i], states[j]);
    } else {
      KillRetires(states, i, j - 1, n, killer);
      RunKeepsInv(states, j - 1);
      StepRetires(states[j - 1], states[j]);
    }
  }

  // ---------- the run queue

  /** The oldest entry is handed to one thread, which goes to work on it or retires; others wait behind it in order. */
  lemma EntriesInOrder(s: State, s': State)
    requires Step(s, s')
    ensures || s'.runQueue == s.runQueue
            || (exists token :: s'.runQueue == s.runQueue + [token])
            || (s.runQueue != [] && s'.runQueue == s.runQueue[1..]
                && exists t :: 0 <= t < |s.threads| && s.threads[t] in {Awake, Signalled}
                               && s'.threads == s.threads[t := if s.runQueue[0] == Kill then Retiring else Working])
  {
    hide State.Number, State.KillTokens;
    if stage, inPool :| ScheduleWork(s, s', stage, inPool) {
      Queues(s, s', Work(stage), inPool);
    } else if t: nat :| Top(s, s', t) || WakeUp(s, s', t) || SpuriousWakeUp(s, s', t) || Handled(s, s', t)
                        || ThreadKill(s, s', t) || Exit(s, s', t) || KillReturn(s, s', t) {
      if s'.runQueue != s.runQueue {
        assert s'.threads == s.threads[t := if s.runQueue[0] == Kill then Retiring else Working];
      }
    } else if KillPost(s, s') {
      Queues(s.(killing := Posting(s.killing.left - 1)), s', Kill, s.killer.Some?);
    }
  }

  lemma Queues(s: State, s': State, token: Token, inPool: bool)
    requires Schedule(s, s', token, inPool)
    ensures s'.runQueue == s.runQueue + [token]
  {
  }

  /** Where a service thread may go next. */
  predicate Follows(p: Phase, q: Phase) {
    match p
    case Awake => q in {Blocked, Working, Retiring}
    case Blocked => q == Signalled
    case Signalled => q in {Blocked, Working, Retiring}
    case Working => q in {Awake, Stopped}
    case Stopped => q == Working
    case Retiring => q == Exiting
    case Exiting => q == Gone
    case Gone => false
  }

  /** In a step at most one thread moves, and only so; a thread that has called killThreads goes on where it was. */
  lemma PhasesFollow(s: State, s': State)
    requires Inv(s) && Step(s, s')
    ensures s'.threads == s.threads + [Awake] || s'.threads == s.threads
            || exists t :: 0 <= t < |s.threads| && s'.threads == s.threads[t := s'.threads[t]]
                           && Follows(s.threads[t], s'.threads[t])
  {
    hide State.Number, State.KillTokens, NoLostWakeUp, Counted;
    if stage, inPool :| ScheduleWork(s, s', stage, inPool) {
    } else if t: nat :| Top(s, s', t) || WakeUp(s, s', t) || SpuriousWakeUp(s, s', t) || Handled(s, s', t)
                        || ThreadKill(s, s', t) || Exit(s, s', t) || KillReturn(s, s', t) {
      assert s'.threads == s.threads[t := s'.threads[t]] && Follows(s.threads[t], s'.threads[t]);
    } else if KillWait(s, s') && s.killer.Some? {
      var t := s.killer.value;
      assert s'.threads == s.threads[t := s'.threads[t]] && Follows(s.threads[t], s'.threads[t]);
    }
  }
}
