/** A stage: its event queue and its reference count (lfutil/src/seda/stage.cpp), with the pool's part of each step. */
module Stages {

  type Event = nat

  /** Disconnecting until the waiting thread finds no references left; it may have been signalled. */
  datatype Link = Unconnected | Connected | Disconnecting(signalled: bool)

  /** Every event removed is being handled or has been. */
  ghost predicate Accounted(removed: seq<Event>, handling: multiset<Event>, finished: multiset<Event>) {
    multiset(removed) == handling + finished
  }

  lemma Released(removed: seq<Event>, handling: multiset<Event>, finished: multiset<Event>, se: Event)
    requires se in handling && Accounted(removed, handling, finished)
    ensures Accounted(removed, handling - multiset{se}, finished + multiset{se})
    ensures |handling - multiset{se}| == |handling| - 1
  {
  }

  class Stage {
    var eventList: seq<Event>
    var eventRef: int
    var link: Link

    /** Threads that have counted an event but not scheduled it; run-queue entries; threads that have taken one. */
    ghost var pending: nat
    ghost var tokens: nat
    ghost var took: nat
    /** Events being handled, and the whole history. */
    ghost var handling: multiset<Event>
    ghost var added: seq<Event>
    ghost var removed: seq<Event>
    ghost var finished: multiset<Event>

    /** Events that somebody has promised to remove. */
    ghost function Unredeemed(): nat
      reads this
    {
      pending + tokens + took
    }

    ghost predicate Valid()
      reads this
    {
      eventRef == Unredeemed() + |handling|
      && |eventList| >= Unredeemed() && (link == Connected ==> |eventList| == Unredeemed())
      && added == removed + eventList && Accounted(removed, handling, finished)
      && (link == Unconnected ==> eventRef == 0)
      && (link == Disconnecting(false) ==> eventRef > 0)
    }

    constructor ()
      ensures Valid() && link == Unconnected && added == []
    {
      eventList, eventRef, link := [], 0, Unconnected;
      pending, tokens, took := 0, 0, 0;
      handling, added, removed, finished := multiset{}, [], [], multiset{};
    }

    /** connect, under the list mutex: every event already queued will be scheduled. */
    method Connect() returns (backlog: nat)
      requires Valid() && link == Unconnected
      modifies `eventRef, `link, `pending
      ensures Valid() && link == Connected && backlog == |eventList| == pending
    {
      backlog := |eventList|;
      eventRef := backlog;
      link := Connected;
      pending := backlog;
    }

    /** addEvent, under the list mutex; the caller must schedule the stage if it is connected. */
    method AddEvent(event: Event) returns (mustSchedule: bool)
      requires Valid()
      modifies `eventList, `eventRef, `pending, `added
      ensures Valid() && added == old(added) + [event] && removed + eventList == old(removed + eventList) + [event]
      ensures mustSchedule == (link == Connected) && pending == old(pending) + (if mustSchedule then 1 else 0)
    {
      eventList := eventList + [event];
      added := added + [event];
      mustSchedule := link == Connected;
      if mustSchedule {
        eventRef := eventRef + 1;
        pending := pending + 1;
      }
    }

    /** schedule: the queue it asserts to be non-empty is, and the pool is still there. */
    method Schedule()
      requires Valid() && pending > 0
      modifies `pending, `tokens
      ensures Valid() && pending == old(pending) - 1 && tokens == old(tokens) + 1
      ensures eventList != [] && link != Unconnected
    {
      assert eventList != [];
      pending := pending - 1;
      tokens := tokens + 1;
    }

    /** A service thread takes an entry for this stage from the run queue. */
    ghost method Take()
      requires Valid() && tokens > 0
      modifies `tokens, `took
      ensures Valid() && tokens == old(tokens) - 1 && took == old(took) + 1
    {
      tokens := tokens - 1;
      took := took + 1;
    }

    /** removeEvent: there is always an event, and it is the oldest. */
    method RemoveEvent() returns (se: Event)
      requires Valid() && took > 0
      modifies `eventList, `took, `handling, `removed
      ensures Valid() && old(eventList) == [se] + eventList
      ensures removed == old(removed) + [se] && handling == old(handling) + multiset{se} && took == old(took) - 1
    {
      assert eventList != [];
      se := eventList[0];
      eventList := eventList[1..];
      took := took - 1;
      handling := handling + multiset{se};
      removed := removed + [se];
      assert old(eventList) == [se] + eventList;
      assert added == removed + eventList;
    }

    /** releaseEvent: the last reference of a stage being disconnected signals the waiting thread. */
    method ReleaseEvent(se: Event)
      requires Valid() && se in handling
      modifies `eventRef, `link, `handling, `finished
      ensures Valid() && eventRef == old(eventRef) - 1
      ensures handling == old(handling) - multiset{se} && finished == old(finished) + multiset{se}
      ensures link == if old(link.Disconnecting?) && eventRef == 0 then Disconnecting(true) else old(link)
    {
      Released(removed, handling, finished, se);
      hide Accounted;
      eventRef := eventRef - 1;
      if link.Disconnecting? && eventRef == 0 {
        link := Disconnecting(true);
      }
      handling := handling - multiset{se};
      finished := finished + multiset{se};
    }

    /** disconnect, up to the wait. */
    method DisconnectBegin()
      requires Valid() && link == Connected
      modifies `link
      ensures Valid() && link == Disconnecting(eventRef == 0)
    {
      link := Disconnecting(eventRef == 0);
    }

    /**
     * disconnect, when its wait returns: it goes on waiting, or lets go of the pool with no entry in the run queue, no
     * schedule call outstanding and no handler running.
     */
    method DisconnectWake() returns (done: bool)
      requires Valid() && link.Disconnecting?
      modifies `link
      ensures Valid() && done == (eventRef == 0) && link == if done then Unconnected else Disconnecting(false)
      ensures done ==> pending == tokens == took == 0 && handling == multiset{} && multiset(removed) == finished
    {
      done := eventRef == 0;
      if done {
        NothingLeft();
      }
      link := if done then Unconnected else Disconnecting(false);
    }

    lemma NothingLeft()
      requires Valid() && eventRef == 0
      ensures pending == tokens == took == 0 && handling == multiset{} && multiset(removed) == finished
    {
      assert |handling| == 0;
    }

    /** An event is handled once for every time it was added, in the order in which events were added. */
    lemma FirstInFirstOut()
      requires Valid()
      ensures removed <= added && handling + finished + multiset(eventList) == multiset(added)
    {
      assert multiset(removed + eventList) == multiset(removed) + multiset(eventList);
    }

    /** The thread waiting in disconnect is always signalled, or somebody else is left who will be the last to release. */
    lemma DisconnectIsSignalled()
      requires Valid() && link == Disconnecting(false)
      ensures pending + tokens + took > 0 || exists e :: e in handling
    {
      if pending + tokens + took == 0 {
        assert |handling| > 0;
        assert handling != multiset{};
      }
    }
  }
}
