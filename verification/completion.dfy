/**
 * How a client request ends (lfutil/src/net/conncb.cpp, lfutil/src/comm/commstage.cpp): by its response, by a failure
 * to send it, by a receive error in the middle of its response, or by the sweep when the connection closes.
 */
module Completion {
  import opened Words

  /** The status an event is completed with; a response brings its own. */
  datatype Status = CONN_FAILURE | SEND_FAILURE | STAGE_CLEANUP | RESOURCE_FAILURE | Replied(status: s32)

  datatype Completion = Completion(id: u32, status: Status)

  function Count(done: seq<Completion>, id: u32): nat {
    if done == [] then 0 else Count(done[..|done| - 1], id) + (if done[|done| - 1].id == id then 1 else 0)
  }

  lemma CountSnoc(done: seq<Completion>, x: Completion)
    ensures forall id :: Count(done + [x], id) == Count(done, id) + (if x.id == id then 1 else 0)
  {
    assert (done + [x])[..|done|] == done;
  }

  /** Completions have been added, each with one of these statuses. */
  predicate Added(was: seq<Completion>, done: seq<Completion>, statuses: set<Status>) {
    was <= done && forall i :: |was| <= i < |done| ==> done[i].status in statuses
  }

  predicate Distinct(s: seq<u32>) { forall i, j :: 0 <= i < j < |s| ==> s[i] != s[j] }

  function Ids(s: seq<u32>): set<u32> { set x | x in s }

  lemma Without(s: seq<u32>, k: nat)
    requires k < |s| && Distinct(s)
    ensures var left := s[..k] + s[k + 1..];
      Distinct(left) && s[k] !in left && Ids(left) + {s[k]} == Ids(s)
      && forall i :: 0 <= i < |left| ==> left[i] in s && left[i] != s[k]
  {
    var left := s[..k] + s[k + 1..];
    assert s == s[..k] + [s[k]] + s[k + 1..];
    assert forall i :: 0 <= i < |left| ==> left[i] == if i < k then s[i] else s[i + 1];
  }

  lemma NoIds()
    ensures Ids([]) == {}
  {
  }

  class Client {
    /** The send event map. */
    var sendEventMap: set<u32>
    /** Requests in the map whose vectors are still being prepared; each holds a reference to the connection. */
    var preparing: set<u32>
    /** Requests whose last vector waits for its callback, in posting order. */
    var sendQ: seq<u32>
    /** The request whose response is being received. */
    var cev: Option<u32>
    /** A receive vector is posted, so that an error or a cleanup will reach the receive callback. */
    var recvPosted: bool
    var done: seq<Completion>

    /** Every request entered; those whose response overtook their last vector; those that failed to be sent. */
    ghost var entered: set<u32>
    ghost var overtaken: set<u32>
    ghost var unsent: set<u32>
    /** Requests whose response stopped with nothing posted, forgotten when the connection went. */
    ghost var lost: set<u32>

    ghost predicate Queued()
      reads this
    {
      Distinct(sendQ)
      && (forall i :: 0 <= i < |sendQ| ==> sendQ[i] in entered && sendQ[i] !in preparing && sendQ[i] !in unsent)
      && (forall i :: 0 <= i < |sendQ| ==> sendQ[i] in sendEventMap || sendQ[i] in overtaken)
    }

    ghost predicate Balanced(id: u32)
      reads this
    {
      Count(done, id) + Bit(id in sendEventMap) + Bit(cev == Some(id)) + Bit(id in lost)
      == Bit(id in entered) + Bit(id in overtaken && id in unsent)
    }

    ghost predicate Valid()
      reads this
    {
      Queued() && preparing <= sendEventMap <= entered && overtaken <= entered && unsent <= entered
      && (cev.Some? ==> cev.value in entered && cev.value !in sendEventMap) && sendEventMap !! overtaken
      && lost <= entered && lost !! sendEventMap && (cev.Some? ==> cev.value !in lost)
      && preparing !! unsent
      && forall id :: Balanced(id)
    }

    constructor ()
      ensures Valid() && entered == overtaken == unsent == sendEventMap == preparing == {}
      ensures done == [] && sendQ == [] && cev.None? && recvPosted && lost == {}
    {
      sendEventMap, preparing, sendQ, cev, recvPosted, done := {}, {}, [], None, true, [];
      entered, overtaken, unsent, lost := {}, {}, {}, {};
    }

    /** completeEvent. */
    method Complete(id: u32, status: Status)
      modifies `done
      ensures done == old(done) + [Completion(id, status)]
      ensures forall i :: Count(done, i) == Count(old(done), i) + Bit(i == id)
    {
      CountSnoc(done, Completion(id, status));
      done := done + [Completion(id, status)];
    }

    /** sendRequest up to addEventEntry, under a new request id. */
    method Enter(id: u32)
      requires Valid() && id !in entered
      modifies `sendEventMap, `preparing, `entered
      ensures Valid() && entered == old(entered) + {id}
      ensures sendEventMap == old(sendEventMap) + {id} && preparing == old(preparing) + {id}
    {
      assert Balanced(id);
      sendEventMap := sendEventMap + {id};
      preparing := preparing + {id};
      entered := entered + {id};
      assert forall i :: i != id ==> old(Balanced(i)) ==> Balanced(i);
    }

    /** cleanupFailedReq. */
    method CleanupFailedReq(id: u32)
      requires Valid() && id in preparing
      modifies `sendEventMap, `preparing, `done
      ensures Valid() && done == old(done) + [Completion(id, RESOURCE_FAILURE)]
      ensures sendEventMap == old(sendEventMap) - {id} && preparing == old(preparing) - {id}
    {
      sendEventMap := sendEventMap - {id};
      preparing := preparing - {id};
      Complete(id, RESOURCE_FAILURE);
      assert forall i :: old(Balanced(i)) ==> Balanced(i);
    }

    /** postSend: the last vector of the request carries the event. */
    method Post(id: u32)
      requires Valid() && id in preparing
      modifies `preparing, `sendQ
      ensures Valid() && sendQ == old(sendQ) + [id] && preparing == old(preparing) - {id}
    {
      preparing := preparing - {id};
      sendQ := sendQ + [id];
      assert forall i :: old(Balanced(i)) ==> Balanced(i);
    }

    /** sendReqCallback with DONE: nothing is completed yet. */
    method LastVectorSent()
      requires Valid() && sendQ != []
      modifies `sendQ
      ensures Valid() && sendQ == old(sendQ)[1..]
    {
      sendQ := sendQ[1..];
      assert forall i :: old(Balanced(i)) ==> Balanced(i);
    }

    /** sendReqCallback with ERROR or CLEANUP, for the vector at place k: the event is completed, in the map or not. */
    method LastVectorFailed(k: nat, status: Status)
      requires Valid() && k < |sendQ|
      modifies `sendEventMap, `sendQ, `done, `unsent
      ensures Valid() && sendQ == old(sendQ)[..k] + old(sendQ)[k + 1..]
      ensures unsent == old(unsent) + {old(sendQ)[k]} && unsent + Ids(sendQ) == old(unsent + Ids(sendQ))
      ensures sendEventMap == old(sendEventMap) - {old(sendQ)[k]} && done == old(done) + [Completion(old(sendQ)[k], status)]
    {
      var id := sendQ[k];
      hide Distinct, Ids;
      Without(sendQ, k);
      assert Balanced(id);
      sendQ := sendQ[..k] + sendQ[k + 1..];
      sendEventMap := sendEventMap - {id};
      unsent := unsent + {id};
      Complete(id, status);
      assert forall i :: old(Balanced(i)) ==> Balanced(i);
    }

    /** getAndRmEvent in recvRspMsg: a response to an unknown request changes nothing. */
    method ResponseArrives(id: u32) returns (found: bool)
      requires Valid() && cev.None? && recvPosted && id !in preparing
      modifies `sendEventMap, `cev, `overtaken
      ensures Valid() && found == (id in old(sendEventMap))
      ensures cev == (if found then Some(id) else None) && sendEventMap == old(sendEventMap) - {id}
      ensures overtaken == old(overtaken) + (if found && id in sendQ then {id} else {})
    {
      found := id in sendEventMap;
      if found {
        assert Balanced(id);
        sendEventMap := sendEventMap - {id};
        cev := Some(id);
        if id in sendQ {
          overtaken := overtaken + {id};
        }
        assert forall i :: old(Balanced(i)) ==> Balanced(i);
      }
    }

    /** recvFile after the first block of a longer file, or when writing it fails: nothing is posted again. */
    method Stall()
      requires Valid() && cev.Some? && recvPosted
      modifies `recvPosted
      ensures Valid() && !recvPosted
    {
      recvPosted := false;
      assert forall i :: old(Balanced(i)) ==> Balanced(i);
    }

    /** eventDone: the whole response has been received, and the next header is posted. */
    method EventDone(status: s32)
      requires Valid() && cev.Some? && recvPosted
      modifies `cev, `done
      ensures Valid() && cev.None? && done == old(done) + [Completion(old(cev.value), Replied(status))]
    {
      Complete(cev.value, Replied(status));
      cev := None;
      assert forall i :: old(Balanced(i)) ==> Balanced(i);
    }

    /** recvErrCb, for a posted vector: a request whose response was being received is completed as failed, once. */
    method RecvErrCb(more: bool)
      requires Valid() && recvPosted
      modifies `cev, `done, `recvPosted
      ensures Valid() && cev.None? && recvPosted == more
      ensures done == old(done) + (if old(cev).Some? then [Completion(old(cev).value, CONN_FAILURE)] else [])
    {
      if cev.Some? {
        assert Balanced(cev.value);
        Complete(cev.value, CONN_FAILURE);
        cev := None;
      }
      recvPosted := more;
      assert forall i :: old(Balanced(i)) ==> Balanced(i);
    }

    /** connCallback, on disconnect: everything left in the map fails. */
    method Sweep()
      requires Valid() && preparing == {} && sendQ == []
      modifies `sendEventMap, `done
      ensures Valid() && sendEventMap == {} && Added(old(done), done, {CONN_FAILURE})
      ensures old(done) <= done && forall i :: |old(done)| <= i < |done| ==> done[i].status == CONN_FAILURE
    {
      while sendEventMap != {}
        invariant Valid() && preparing == {} && sendQ == [] && Added(old(done), done, {CONN_FAILURE})
        decreases |sendEventMap|
      {
        var id :| id in sendEventMap;
        label Before:
        Complete(id, CONN_FAILURE);
        sendEventMap := sendEventMap - {id};
        SweptOne@Before(id);
      }
    }

    twostate lemma SweptOne(id: u32)
      requires old(Valid()) && old(preparing) == {} && id in old(sendEventMap)
      requires sendEventMap == old(sendEventMap) - {id}
      requires preparing == old(preparing) && sendQ == old(sendQ) && cev == old(cev) && entered == old(entered)
      requires overtaken == old(overtaken) && unsent == old(unsent) && lost == old(lost)
      requires forall i :: Count(done, i) == Count(old(done), i) + Bit(i == id)
      ensures forall i :: Balanced(i)
    {
      assert forall i :: old(Balanced(i)) ==> Balanced(i);
    }

    /** connCallback, on disconnect: the receive callback's parameter is deleted, and with it the event it may hold. */
    method DropRecvCb()
      requires Valid()
      modifies `cev, `lost
      ensures Valid() && cev.None? && lost == old(lost) + (if old(cev).Some? then {old(cev).value} else {})
    {
      if cev.Some? {
        lost := lost + {cev.value};
        cev := None;
      }
      assert forall i :: old(Balanced(i)) ==> Balanced(i);
    }

    /**
     * cleanup, once no thread holds a reference: the receive vectors, if any is posted, then the queued send vectors with
     * the current one last, then the sweep. Every request is completed exactly once, with two exceptions: one more time
     * if its response overtook a last vector that was then not sent, one time less if its response stopped with nothing
     * posted.
     */
    method Cleanup(hasCurrent: bool, onError: bool)
      requires Valid() && preparing == {} && (hasCurrent ==> sendQ != [])
      modifies this
      ensures Valid() && sendEventMap == {} && sendQ == [] && cev.None?
      ensures entered == old(entered) && overtaken == old(overtaken)
      ensures unsent == old(unsent) + Ids(old(sendQ))
      ensures lost == old(lost) + (if old(cev.Some? && !recvPosted) then {old(cev).value} else {})
      ensures Added(old(done), done, {CONN_FAILURE, if onError then SEND_FAILURE else STAGE_CLEANUP})
      ensures old(done) <= done && forall i :: |old(done)| <= i < |done| ==>
                done[i].status == CONN_FAILURE || done[i].status == (if onError then SEND_FAILURE else STAGE_CLEANUP)
      ensures forall id :: Count(done, id) + Bit(id in lost) == Bit(id in entered) + Bit(id in overtaken && id in unsent)
    {
      hide Valid, Ids;
      if recvPosted {
        RecvErrCb(false);
      }
      FlushSends(hasCurrent, if onError then SEND_FAILURE else STAGE_CLEANUP);
      NoIds();
      Sweep();
      DropRecvCb();
      AllBalanced();
    }

    method FlushSends(hasCurrent: bool, status: Status)
      requires Valid() && (hasCurrent ==> sendQ != [])
      modifies `sendEventMap, `sendQ, `done, `unsent
      ensures Valid() && sendQ == [] && unsent + Ids(sendQ) == old(unsent + Ids(sendQ)) && Added(old(done), done, {status})
    {
      hide Valid, Ids;
      var at := if hasCurrent then 1 else 0;
      while |sendQ| > at
        invariant Valid() && at <= |sendQ| && unsent + Ids(sendQ) == old(unsent + Ids(sendQ))
        invariant Added(old(done), done, {status})
      {
        LastVectorFailed(at, status);
      }
      if hasCurrent {
        LastVectorFailed(0, status);
      }
    }

    /** Once nothing is outstanding: a request is completed exactly once unless exactly one exception applies to it. */
    lemma AllBalanced()
      requires Valid() && sendEventMap == {} && cev.None?
      ensures forall id :: Count(done, id) + Bit(id in lost) == Bit(id in entered) + Bit(id in overtaken && id in unsent)
      ensures forall id :: id in entered ==> (Count(done, id) == 1 <==> (id in lost <==> id in overtaken && id in unsent))
    {
      forall id
        ensures Count(done, id) + Bit(id in lost) == Bit(id in entered) + Bit(id in overtaken && id in unsent)
      {
        assert Balanced(id);
      }
    }
  }

  /** A response that overtakes the last vector of its request, which is then not sent: the event is completed twice. */
  method ResponseOvertakesSend(id: u32) returns (c: Client)
    ensures fresh(c) && c.entered == {id} && Count(c.done, id) == 2
  {
    c := new Client();
    c.Enter(id);
    c.Post(id);
    var found := c.ResponseArrives(id);
    c.EventDone(0);
    c.Cleanup(true, true);
  }

  /** A response with a file of more than one block: after the first block nobody will ever complete the event. */
  method StalledResponseIsLost(id: u32) returns (c: Client)
    ensures fresh(c) && c.entered == {id} && Count(c.done, id) == 0
  {
    c := new Client();
    c.Enter(id);
    c.Post(id);
    c.LastVectorSent();
    var found := c.ResponseArrives(id);
    c.Stall();
    c.Cleanup(false, true);
  }
}
