/**
 * How long a connection lives (lfutil/src/net/conn.cpp, lfutil/src/net/connmgr.cpp, lfutil/src/net/net.cpp): threads
 * find it under the map mutex, use it without, and give it back; one of them takes it out of the maps; the last one to
 * let go destroys it.
 */
module Lifetime {
  import opened Words

  /** Where a thread stands with respect to the connection. */
  datatype Phase =
    | Outside
    | Holding       // has found it, holds one reference
    | Closing       // has dropped the last reference of a connection marked for cleanup, is about to call cleanup
    | Destroying    // is in cleanup, past the reference test
    | Removing      // holds the map mutex, has looked the connection up to remove it
    | Leaving       // has found it in use and given its mutex back, but has not left cleanup
    | RemoverDestroying
    | Erasing       // holds the map mutex, is about to erase the map entry

  datatype State = State(mapped: bool, refs: int, cleaning: bool, destroyed: nat, mutex: Option<nat>, threads: seq<Phase>)
  {
    function Number(p: Phase): nat { multiset(threads)[p] }

    /** Threads that will destroy the connection, and the times it has been destroyed. */
    function Ends(): nat { Number(Closing) + Number(Destroying) + Number(RemoverDestroying) + destroyed }

    /**
     * The connection object may be touched by this thread. A remover that finds the connection in use still names the
     * peer in a log line after it has given the connection's mutex back.
     */
    predicate Touches(t: nat)
      requires t < |threads|
    {
      threads[t] != Outside && threads[t] != Erasing
    }
  }

  predicate Init(s: State) {
    s.mapped && s.refs == 0 && !s.cleaning && s.destroyed == 0 && s.mutex.None?
    && forall t :: 0 <= t < |s.threads| ==> s.threads[t] == Outside
  }

  // ---------- the steps, each under the mutex the source takes

  /** ConnMgr::find, by getConn, sendData or recvData: look up and acquire under the map mutex. */
  predicate Find(s: State, s': State, t: nat) {
    t < |s.threads| && s.threads[t] == Outside && s.mutex.None? && s.mapped
    && s' == s.(refs := s.refs + 1, threads := s.threads[t := Holding])
  }

  /** Conn::release, the part under the connection's mutex. */
  predicate Release(s: State, s': State, t: nat) {
    t < |s.threads| && s.threads[t] == Holding
    && s' == s.(refs := s.refs - 1, threads := s.threads[t := if s.refs == 1 && s.cleaning then Closing else Outside])
  }

  /** Conn::cleanup called by release. */
  predicate DeferredCleanup(s: State, s': State, t: nat) {
    t < |s.threads| && s.threads[t] == Closing
    && s' == s.(cleaning := true, threads := s.threads[t := if s.refs > 0 then Outside else Destroying])
  }

  predicate Destroy(s: State, s': State, t: nat) {
    t < |s.threads| && s.threads[t] == Destroying
    && s' == s.(destroyed := s.destroyed + 1, threads := s.threads[t := Outside])
  }

  /** ConnMgr::remove under the map mutex: find the entry, clean up, erase the entry. */
  predicate RemoveBegin(s: State, s': State, t: nat) {
    t < |s.threads| && s.threads[t] == Outside && s.mutex.None? && s.mapped
    && s' == s.(mutex := Some(t), threads := s.threads[t := Removing])
  }

  predicate RemoveCleanup(s: State, s': State, t: nat) {
    t < |s.threads| && s.threads[t] == Removing
    && s' == s.(cleaning := true, threads := s.threads[t := if s.refs > 0 then Leaving else RemoverDestroying])
  }

  /** The end of cleanup for a connection in use: the log line, then the return to remove. */
  predicate RemoveLeave(s: State, s': State, t: nat) {
    t < |s.threads| && s.threads[t] == Leaving && s' == s.(threads := s.threads[t := Erasing])
  }

  predicate RemoveDestroy(s: State, s': State, t: nat) {
    t < |s.threads| && s.threads[t] == RemoverDestroying
    && s' == s.(destroyed := s.destroyed + 1, threads := s.threads[t := Erasing])
  }

  predicate RemoveEnd(s: State, s': State, t: nat) {
    t < |s.threads| && s.threads[t] == Erasing
    && s' == s.(mapped := false, mutex := None, threads := s.threads[t := Outside])
  }

  predicate Step(s: State, s': State, t: nat) {
    || Find(s, s', t) || Release(s, s', t) || DeferredCleanup(s, s', t) || Destroy(s, s', t)
    || RemoveBegin(s, s', t) || RemoveCleanup(s, s', t) || RemoveLeave(s, s', t)
    || RemoveDestroy(s, s', t) || RemoveEnd(s, s', t)
  }

  // ---------- the invariant

  predicate HasMutex(p: Phase) { p in {Removing, Leaving, RemoverDestroying, Erasing} }

  ghost predicate MutexHeld(s: State) {
    (forall t :: 0 <= t < |s.threads| && HasMutex(s.threads[t]) ==> s.mutex == Some(t))
    && (s.mutex.Some? ==>
          s.mutex.value < |s.threads| && HasMutex(s.threads[s.mutex.value]) && s.mapped
          && (s.threads[s.mutex.value] == Removing || s.cleaning))
  }

  /** Once marked for cleanup the connection can no longer be found. */
  ghost predicate Unfindable(s: State) {
    s.cleaning && s.mapped ==> s.mutex.Some? && s.mutex.value < |s.threads| && s.threads[s.mutex.value] != Removing
  }

  ghost predicate Inv(s: State) {
    s.refs == s.Number(Holding) && MutexHeld(s) && Unfindable(s)
    && (!s.mapped ==> s.cleaning)
    && s.Ends() == (if s.cleaning && s.refs == 0 then 1 else 0)
  }

  lemma InitIsInv(s: State)
    requires Init(s)
    ensures Inv(s)
  {
    forall p | p != Outside
      ensures s.Number(p) == 0
    {
      assert p !in s.threads;
    }
  }

  lemma StepKeepsInv(s: State, s': State, t: nat)
    requires Inv(s) && Step(s, s', t)
    ensures Inv(s')
  {
    hide State.Number;
    Moved(s, s', t);
    MutexKept(s, s', t);
  }

  /** One thread moves: the others keep their phases, and the counts follow. */
  lemma Moved(s: State, s': State, t: nat)
    requires Step(s, s', t)
    ensures |s'.threads| == |s.threads| && t < |s.threads| && s'.threads == s.threads[t := s'.threads[t]]
    ensures forall p :: s'.Number(p) + Bit(s.threads[t] == p) == s.Number(p) + Bit(s'.threads[t] == p)
    ensures s.Number(s.threads[t]) > 0
  {
    assert s.threads[t] in multiset(s.threads);
  }

  lemma MutexKept(s: State, s': State, t: nat)
    requires Inv(s) && Step(s, s', t)
    ensures MutexHeld(s')
  {
    hide State.Ends, State.Number, Unfindable;
    assert forall u :: 0 <= u < |s.threads| && u != t ==> s'.threads[u] == s.threads[u];
  }

  // ---------- what follows in every run

  ghost predicate Run(states: seq<State>, movers: seq<nat>) {
    |states| == |movers| + 1 && Init(states[0])
    && forall i :: 0 <= i < |movers| ==> Step(states[i], states[i + 1], movers[i])
  }

  lemma {:induction false} RunKeepsInv(states: seq<State>, movers: seq<nat>, n: nat)
    requires Run(states, movers) && n < |states|
    ensures Inv(states[n])
  {
    if n == 0 {
      InitIsInv(states[0]);
    } else {
      RunKeepsInv(states, movers, n - 1);
      StepKeepsInv(states[n - 1], states[n], movers[n - 1]);
    }
  }

  /** A destroyed connection is touched by removers that have found it in use and not left cleanup, and by no other. */
  lemma UseAfterDestroy(states: seq<State>, movers: seq<nat>, n: nat, t: nat)
    requires Run(states, movers) && n < |states| && t < |states[n].threads|
    ensures states[n].destroyed > 0 ==> (states[n].Touches(t) <==> states[n].threads[t] == Leaving)
    ensures states[n].mapped && states[n].mutex.None? ==> states[n].destroyed == 0 && !states[n].cleaning
  {
    RunKeepsInv(states, movers, n);
    assert states[n].threads[t] in multiset(states[n].threads);
  }

  /** A holder and a remover: the holder lets go, and destroys, before the remover has left cleanup. */
  function RaceState(i: nat): State {
    if i == 0 then State(true, 0, false, 0, None, [Outside, Outside])
    else if i == 1 then State(true, 1, false, 0, None, [Holding, Outside])
    else if i == 2 then State(true, 1, false, 0, Some(1), [Holding, Removing])
    else if i == 3 then State(true, 1, true, 0, Some(1), [Holding, Leaving])
    else if i == 4 then State(true, 0, true, 0, Some(1), [Closing, Leaving])
    else if i == 5 then State(true, 0, true, 0, Some(1), [Destroying, Leaving])
    else State(true, 0, true, 1, Some(1), [Outside, Leaving])
  }

  function RaceMover(i: nat): nat { if i == 1 || i == 2 then 1 else 0 }

  lemma RaceStep(i: nat)
    requires i < 6
    ensures Step(RaceState(i), RaceState(i + 1), RaceMover(i))
  {
    var s, s', t := RaceState(i), RaceState(i + 1), RaceMover(i);
    assert s'.threads == s.threads[t := s'.threads[t]];
  }

  /** The run in which a remover touches the connection after it has been destroyed. */
  lemma RemoverTouchesDestroyed() returns (states: seq<State>, movers: seq<nat>)
    ensures Run(states, movers)
    ensures var s := states[|states| - 1]; |s.threads| == 2 && s.destroyed == 1 && s.Touches(1)
  {
    hide Step;
    states, movers := seq(7, (i: nat) => RaceState(i)), seq(6, (i: nat) => RaceMover(i));
    forall i | 0 <= i < 6
      ensures Step(states[i], states[i + 1], movers[i])
    {
      RaceStep(i);
    }
  }

  /** The connection is destroyed at most once, after it was marked, with no reference left and no way to find it. */
  lemma DestroyedOnce(states: seq<State>, movers: seq<nat>, n: nat)
    requires Run(states, movers) && n < |states|
    ensures var s := states[n];
      s.destroyed <= 1
      && (s.destroyed == 1 ==> s.cleaning && s.refs == 0 && (s.mapped ==> s.mutex.Some?)
                               && forall t :: 0 <= t < |s.threads| ==> (s.Touches(t) <==> s.threads[t] == Leaving))
  {
    RunKeepsInv(states, movers, n);
    var s := states[n];
    forall t | 0 <= t < |s.threads|
      ensures s.destroyed == 1 ==> (s.Touches(t) <==> s.threads[t] == Leaving)
    {
      UseAfterDestroy(states, movers, n, t);
    }
  }

  /** When every thread is done, a removed connection has been destroyed exactly once and a mapped one not at all. */
  lemma SettledIsDestroyed(states: seq<State>, movers: seq<nat>, n: nat)
    requires Run(states, movers) && n < |states|
    requires forall t :: 0 <= t < |states[n].threads| ==> states[n].threads[t] == Outside
    ensures states[n].destroyed == if states[n].mapped then 0 else 1
  {
    RunKeepsInv(states, movers, n);
    var s := states[n];
    forall p | p != Outside
      ensures s.Number(p) == 0
    {
      assert p !in s.threads;
    }
  }

  /** The steps that releases, deferred cleanup and destruction still have to take. */
  function StepsLeft(s: State): nat {
    3 * s.Number(Holding) + 2 * s.Number(Closing) + s.Number(Destroying) + s.Number(RemoverDestroying)
  }

  predicate Ending(p: Phase) { p in {Holding, Closing, Destroying, RemoverDestroying} }

  /** A connection marked for cleanup and not yet destroyed always has a thread that can bring its end nearer. */
  lemma SomeoneWillDestroy(states: seq<State>, movers: seq<nat>, n: nat) returns (s': State, t: nat)
    requires Run(states, movers) && n < |states|
    requires states[n].cleaning && states[n].destroyed == 0
    ensures t < |states[n].threads| && Step(states[n], s', t) && Ending(states[n].threads[t])
    ensures StepsLeft(s') < StepsLeft(states[n])
  {
    hide Step;
    RunKeepsInv(states, movers, n);
    var s := states[n];
    var p := if s.refs > 0 then Holding else if s.Number(Closing) > 0 then Closing
             else if s.Number(Destroying) > 0 then Destroying else RemoverDestroying;
    assert p in multiset(s.threads);
    t :| 0 <= t < |s.threads| && s.threads[t] == p;
    s' := EndingStep(s, t);
    EndStepIsNearer(s, s', t);
  }

  predicate EndStep(s: State, s': State, t: nat) {
    Release(s, s', t) || DeferredCleanup(s, s', t) || Destroy(s, s', t) || RemoveDestroy(s, s', t)
  }

  lemma EndingStep(s: State, t: nat) returns (s': State)
    requires t < |s.threads| && Ending(s.threads[t])
    ensures EndStep(s, s', t)
  {
    match s.threads[t] {
      case Holding =>
        s' := s.(refs := s.refs - 1, threads := s.threads[t := if s.refs == 1 && s.cleaning then Closing else Outside]);
      case Closing =>
        s' := s.(cleaning := true, threads := s.threads[t := if s.refs > 0 then Outside else Destroying]);
      case Destroying =>
        s' := s.(destroyed := s.destroyed + 1, threads := s.threads[t := Outside]);
      case RemoverDestroying =>
        s' := s.(destroyed := s.destroyed + 1, threads := s.threads[t := Erasing]);
    }
  }

  lemma EndStepIsNearer(s: State, s': State, t: nat)
    requires EndStep(s, s', t)
    ensures Step(s, s', t) && Ending(s.threads[t]) && StepsLeft(s') < StepsLeft(s)
  {
    hide State.Number;
    Moved(s, s', t);
  }

  /** Once marked, no step adds to what is left, each step towards destruction takes from it, and at none it has come. */
  lemma MarkedIsDestroyed(states: seq<State>, movers: seq<nat>, n: nat)
    requires Run(states, movers) && n < |movers| && states[n].cleaning
    ensures var s, s', t := states[n], states[n + 1], movers[n];
      s'.cleaning && t < |s.threads| && StepsLeft(s') <= StepsLeft(s)
      && (Ending(s.threads[t]) ==> StepsLeft(s') < StepsLeft(s))
    ensures StepsLeft(states[n]) == 0 ==> states[n].destroyed == 1
  {
    hide State.Number;
    RunKeepsInv(states, movers, n);
    Moved(states[n], states[n + 1], movers[n]);
  }
}
