/** The sending half of a connection (lfutil/src/net/conn.cpp, lfutil/src/net/iovec.cpp). */
module SendPath {
  import opened Words

  /** A vector posted for sending, numbered in posting order. */
  datatype IoVec = IoVec(serial: nat, bytes: seq<byte>, xferred: nat)
  {
    predicate Done() { xferred == |bytes| }

    function Room(): nat
      requires xferred <= |bytes|
    {
      |bytes| - xferred
    }

    /** The bytes the socket has accepted. */
    function Sent(): seq<byte>
      requires xferred <= |bytes|
    {
      bytes[..xferred]
    }
  }

  datatype State = DONE | ERROR | CLEANUP

  datatype Callback = Callback(serial: nat, state: State)

  /** What one send call may do: take some of the bytes, ask to try later, or fail. */
  datatype SendResult = Wrote(n: nat) | Again | Failed

  datatype Status = SUCCESS | NOVEC | UNAVAIL | BROKEN

  /** How many of the room bytes left in a vector these results accept, and how its turn ends. */
  function Offer(script: seq<SendResult>, room: nat): nat {
    if room == 0 || script == [] || !script[0].Wrote? || script[0].n == 0 then 0
    else
      var n := if script[0].n <= room then script[0].n else room;
      n + Offer(script[1..], room - n)
  }

  function Outcome(script: seq<SendResult>, room: nat): Status {
    if room == 0 then SUCCESS
    else if script == [] || script[0] == Again then UNAVAIL
    else if script[0] == Failed || script[0].n == 0 then BROKEN
    else Outcome(script[1..], if script[0].n <= room then room - script[0].n else 0)
  }

  predicate Positive(r: SendResult) { r.Wrote? && r.n > 0 }

  /** What the first k results offer to take. */
  function Taken(script: seq<SendResult>, k: nat): nat
    requires k <= |script| && forall i :: 0 <= i < k ==> Positive(script[i])
  {
    if k == 0 then 0
    else
      assert Positive(script[k - 1]);
      Taken(script, k - 1) + script[k - 1].n
  }

  /** Result k is the first that takes nothing, or the script ends there, and what came before leaves room. */
  ghost predicate StopsAt(script: seq<SendResult>, room: nat, k: nat) {
    k <= |script| && (forall i :: 0 <= i < k ==> Positive(script[i])) && Taken(script, k) < room
    && (k < |script| ==> !Positive(script[k]))
  }

  /** The first k results fill the vector. */
  ghost predicate FillsBy(script: seq<SendResult>, room: nat, k: nat) {
    k <= |script| && (forall i :: 0 <= i < k ==> Positive(script[i])) && Taken(script, k) >= room
  }

  lemma {:induction false} TakenTail(script: seq<SendResult>, k: nat)
    requires 0 < k <= |script| && forall i :: 0 <= i < k ==> Positive(script[i])
    ensures Taken(script, k) == script[0].n + Taken(script[1..], k - 1)
  {
    if k > 1 {
      TakenTail(script, k - 1);
    }
  }

  /** There is always one place where the turn of a vector ends, and what the socket says there decides how. */
  lemma {:induction false} OutcomeAt(script: seq<SendResult>, room: nat) returns (k: nat)
    ensures match Outcome(script, room)
      case SUCCESS => FillsBy(script, room, k) && Offer(script, room) == room
      case UNAVAIL => StopsAt(script, room, k) && (k == |script| || script[k] == Again)
                      && Offer(script, room) == Taken(script, k)
      case BROKEN => StopsAt(script, room, k) && k < |script| && script[k] in {Failed, Wrote(0)}
                     && Offer(script, room) == Taken(script, k)
      case NOVEC => false
  {
    if room == 0 || script == [] || !Positive(script[0]) {
      k := 0;
    } else {
      var n := if script[0].n <= room then script[0].n else room;
      k := OutcomeAt(script[1..], room - n);
      TakenTail(script, k + 1);
      k := k + 1;
    }
  }

  lemma {:induction false} TakenGrows(script: seq<SendResult>, j: nat, k: nat)
    requires j <= k <= |script| && forall i :: 0 <= i < k ==> Positive(script[i])
    ensures Taken(script, j) <= Taken(script, k)
  {
    if j < k {
      TakenGrows(script, j, k - 1);
    }
  }

  /** It is the only place. */
  lemma OnePlace(script: seq<SendResult>, room: nat, j: nat, k: nat)
    requires StopsAt(script, room, j)
    ensures StopsAt(script, room, k) ==> j == k
    ensures !FillsBy(script, room, k)
  {
    if FillsBy(script, room, k) {
      if k <= j {
        TakenGrows(script, k, j);
      }
    }
  }

  /** The bytes accepted up to the first failure end inside the vector that failed. */
  ghost predicate EndsAt(posted: seq<seq<byte>>, early: seq<byte>, k: nat, part: nat) {
    if k < |posted| then part <= |posted[k]| && early == Flatten(posted[..k]) + posted[k][..part]
    else k == |posted| && part == 0 && early == Flatten(posted)
  }

  lemma EarlyIsPrefix(posted: seq<seq<byte>>, early: seq<byte>, k: nat, part: nat)
    requires EndsAt(posted, early, k, part)
    ensures early <= Flatten(posted)
  {
    if k < |posted| {
      assert posted == posted[..k] + posted[k..];
      FlattenAppend(posted[..k], posted[k..]);
    }
  }

  lemma PostKeepsEnd(posted: seq<seq<byte>>, more: seq<seq<byte>>, early: seq<byte>, k: nat, part: nat)
    requires EndsAt(posted, early, k, part)
    ensures EndsAt(posted + more, early, k, part)
  {
    var all := posted + more;
    if k < |posted| {
      assert all[..k] == posted[..k];
    } else if more == [] {
      assert all == posted;
    } else {
      assert all[..k] == posted && early + all[k][..0] == early;
    }
  }

  /** One callback for each finished vector, in posting order; the others wait in order. */
  ghost predicate InOrder(calls: seq<Callback>, pending: seq<IoVec>, posted: seq<seq<byte>>) {
    |calls| + |pending| == |posted|
    && (forall k :: 0 <= k < |calls| ==> calls[k].serial == k)
    && (forall j :: 0 <= j < |pending| ==> pending[j].serial == |calls| + j && pending[j].bytes == posted[|calls| + j])
  }

  lemma OrderPost(calls: seq<Callback>, pending: seq<IoVec>, posted: seq<seq<byte>>, b: seq<byte>)
    requires InOrder(calls, pending, posted)
    ensures InOrder(calls, pending + [IoVec(|calls| + |pending|, b, 0)], posted + [b])
  {
  }

  /** The first pending vector is the next one posted; it may move on, or be called back. */
  lemma OrderHead(calls: seq<Callback>, v: IoVec, rest: seq<IoVec>, posted: seq<seq<byte>>, x: nat, state: State)
    requires InOrder(calls, [v] + rest, posted)
    ensures v.serial == |calls| < |posted| && v.bytes == posted[|calls|]
    ensures InOrder(calls, [v.(xferred := x)] + rest, posted)
    ensures InOrder(calls + [Callback(v.serial, state)], rest, posted)
  {
    var pending := [v] + rest;
    assert pending[0] == v && forall j :: 0 <= j < |rest| ==> rest[j] == pending[j + 1];
    assert forall j :: 0 < j < |pending| ==> ([v.(xferred := x)] + rest)[j] == pending[j];
  }

  /** How the turn of a vector ends, read off the results of its send calls. */
  lemma EveryOutcome(script: seq<SendResult>, room: nat)
    ensures Outcome(script, room) == SUCCESS <==> exists k: nat :: FillsBy(script, room, k)
    ensures Outcome(script, room) == UNAVAIL
       <==> exists k: nat :: StopsAt(script, room, k) && (k == |script| || script[k] == Again)
    ensures Outcome(script, room) == BROKEN
       <==> exists k: nat :: StopsAt(script, room, k) && k < |script| && script[k] in {Failed, Wrote(0)}
    ensures Outcome(script, room) != NOVEC
    ensures forall k: nat :: StopsAt(script, room, k) ==> Offer(script, room) == Taken(script, k)
  {
    hide Offer, Outcome, Taken;
    var at := OutcomeAt(script, room);
    forall k: nat | StopsAt(script, room, k) || FillsBy(script, room, k)
      ensures StopsAt(script, room, at) ==> k == at && StopsAt(script, room, k)
      ensures FillsBy(script, room, at) ==> !StopsAt(script, room, k)
    {
      if StopsAt(script, room, at) {
        OnePlace(script, room, at, k);
      } else if StopsAt(script, room, k) {
        OnePlace(script, room, k, at);
      }
    }
  }

  class SendSide {
    var sendQ: seq<IoVec>
    var cur: Option<IoVec>
    var readyToSend: bool
    var cleaning: bool
    var calls: seq<Callback>

    /** Every vector ever posted, and the bytes accepted before the first failure. */
    ghost var posted: seq<seq<byte>>
    ghost var early: seq<byte>
    ghost var firstError: Option<nat>
    ghost var part: nat

    function Pending(): seq<IoVec>
      reads `cur, `sendQ
    {
      (if cur.Some? then [cur.value] else []) + sendQ
    }

    ghost predicate Fresh()
      reads `cur, `sendQ
    {
      (cur.Some? ==> cur.value.xferred <= |cur.value.bytes|)
      && forall j :: 0 <= j < |sendQ| ==> sendQ[j].xferred == 0
    }

    /** Until something fails every callback reports success and the accepted bytes are those of the vectors so far. */
    ghost predicate Accepted()
      reads `cur, `calls, `posted, `early, `firstError, `part
    {
      match firstError
      case None =>
        (forall k :: 0 <= k < |calls| ==> calls[k].state == DONE)
        && part == (if cur.Some? then cur.value.xferred else 0)
        && EndsAt(posted, early, |calls|, part)
      case Some(e) =>
        e < |calls| && (forall k :: 0 <= k < e ==> calls[k].state == DONE) && calls[e].state == ERROR
        && EndsAt(posted, early, e, part)
    }

    ghost predicate Valid()
      reads this
    {
      InOrder(calls, Pending(), posted) && Fresh() && Accepted()
    }

    constructor ()
      ensures Valid() && posted == [] && calls == [] && early == [] && firstError.None?
    {
      sendQ, cur, readyToSend, cleaning, calls := [], None, false, false, [];
      posted, early, firstError, part := [], [], None, 0;
    }

    /** setReadyToSend, when the socket has become writable. */
    method SetReadyToSend(ready: bool)
      requires Valid()
      modifies `readyToSend
      ensures Valid() && readyToSend == ready
    {
      readyToSend := ready;
    }

    /** postSend: all vectors of a message go in together. */
    method PostSend(msgVecs: seq<seq<byte>>)
      requires Valid()
      modifies `sendQ, `posted
      ensures Valid() && posted == old(posted) + msgVecs
    {
      hide InOrder, EndsAt;
      for i := 0 to |msgVecs|
        invariant InOrder(calls, Pending(), posted) && Fresh() && posted == old(posted) + msgVecs[..i]
      {
        OrderPost(calls, Pending(), posted, msgVecs[i]);
        ghost var before := Pending();
        var v := IoVec(|calls| + |Pending()|, msgVecs[i], 0);
        sendQ := sendQ + [v];
        posted := posted + [msgVecs[i]];
        assert Pending() == before + [v];
      }
      assert msgVecs[..|msgVecs|] == msgVecs;
      if firstError.None? {
        PostKeepsEnd(old(posted), msgVecs, early, |calls|, part);
      } else {
        PostKeepsEnd(old(posted), msgVecs, early, firstError.value, part);
      }
    }

    /** sendvecProgress: push the current vector into the socket and call back when it is done or has failed. */
    method SendvecProgress(script: seq<SendResult>) returns (rc: Status, left: seq<SendResult>)
      requires Valid()
      modifies `cur, `readyToSend, `calls, `early, `firstError, `part
      ensures Valid() && old(early) <= early && |left| <= |script|
      ensures rc == NOVEC <==> old(cur.None?)
      ensures old(cur.Some? && readyToSend && !cleaning) ==>
                var room := old(cur.value).Room();
                rc == Outcome(script, room) && (old(firstError.None?) ==> |early| == |old(early)| + Offer(script, room))
      ensures old(cur.Some? && readyToSend && !cleaning) ==>
                var room := old(cur.value).Room();
                (rc == SUCCESS <==> exists k: nat :: FillsBy(script, room, k))
                && (rc == UNAVAIL <==> exists k: nat :: StopsAt(script, room, k) && (k == |script| || script[k] == Again))
                && (rc == BROKEN <==> exists k: nat :: StopsAt(script, room, k) && k < |script|
                                                  && script[k] in {Failed, Wrote(0)})
                && forall k: nat :: StopsAt(script, room, k) && old(firstError.None?) ==>
                                 |early| == |old(early)| + Taken(script, k)
      ensures old(cur.Some? && readyToSend && cleaning) ==>
                early == old(early) && rc == if old(cur.value).Done() then SUCCESS else BROKEN
      ensures rc == NOVEC ==> cur == old(cur) && calls == old(calls)
      ensures rc == UNAVAIL ==> cur.Some? && calls == old(calls) && !readyToSend
      ensures rc == SUCCESS ==> cur.None? && calls == old(calls) + [Callback(|old(calls)|, DONE)]
      ensures rc == BROKEN ==> cur.None? && calls == old(calls) + [Callback(|old(calls)|, ERROR)]
    {
      if cur.Some? {
        EveryOutcome(script, cur.value.Room());
      }
      hide InOrder, Fresh, Accepted, StopsAt, FillsBy;
      left := script;
      if cur.None? {
        return NOVEC, left;
      }
      if !readyToSend {
        return UNAVAIL, left;
      }
      var nw;
      nw, left := Push(script);
      if cur.value.Done() {
        Finish(DONE);
        rc := SUCCESS;
      } else if nw == Again {
        readyToSend := false;
        rc := UNAVAIL;
      } else {
        Finish(ERROR);
        rc := BROKEN;
      }
    }

    /** The send calls for the current vector, until it is done or one of them takes nothing. */
    method Push(script: seq<SendResult>) returns (nw: SendResult, left: seq<SendResult>)
      requires Valid() && cur.Some?
      modifies `cur, `early, `part
      ensures Valid() && cur.Some? && old(early) <= early && |left| <= |script|
      ensures !cleaning ==>
                var room := old(cur.value).Room();
                Outcome(script, room) == (if cur.value.Done() then SUCCESS else if nw == Again then UNAVAIL else BROKEN)
                && (firstError.None? ==> |early| == |old(early)| + Offer(script, room))
      ensures !cleaning ==>
                var room := old(cur.value).Room();
                (cur.value.Done() <==> exists k: nat :: FillsBy(script, room, k))
                && (!cur.value.Done() ==>
                      (nw == Again
                       <==> exists k: nat :: StopsAt(script, room, k) && (k == |script| || script[k] == Again)))
      ensures cleaning ==> cur == old(cur) && early == old(early) && (cur.value.Done() || nw == Failed)
    {
      hide InOrder, Accepted, StopsAt, FillsBy;
      left := script;
      nw := Again;
      ghost var room := cur.value.Room();
      while !cur.value.Done()
        invariant Valid() && cur.Some? && old(early) <= early && |left| <= |script|
        invariant cleaning ==> cur == old(cur) && early == old(early)
        invariant !cleaning ==> Outcome(left, cur.value.Room()) == Outcome(script, room)
        invariant !cleaning && firstError.None? ==>
                    |early| + Offer(left, cur.value.Room()) == |old(early)| + Offer(script, room)
        decreases cur.value.Room()
      {
        if cleaning {
          nw := Failed;
        } else if left == [] {
          nw := Again;
        } else {
          nw := left[0];
        }
        if nw.Wrote? && nw.n > 0 {
          Transfer(if nw.n <= cur.value.Room() then nw.n else cur.value.Room());
          left := left[1..];
        } else {
          break;
        }
      }
      EveryOutcome(script, room);
    }

    /** incXferred, and what it means for the bytes on the wire. */
    method Transfer(n: nat)
      requires Valid() && cur.Some? && 0 < n <= |cur.value.bytes| - cur.value.xferred
      modifies `cur, `early, `part
      ensures Valid() && cur.Some? && cur.value == old(cur.value).(xferred := old(cur.value.xferred) + n)
      ensures old(early) <= early && (firstError.None? ==> |early| == |old(early)| + n)
    {
      hide InOrder;
      ghost var v := cur.value;
      assert Pending() == [v] + sendQ;
      OrderHead(calls, v, sendQ, posted, v.xferred + n, DONE);
      cur := Some(cur.value.(xferred := cur.value.xferred + n));
      assert Pending() == [cur.value] + sendQ;
      if firstError.None? {
        assert v.bytes[..v.xferred + n] == v.bytes[..v.xferred] + v.bytes[v.xferred..v.xferred + n];
        early := early + v.bytes[v.xferred..v.xferred + n];
        part := part + n;
      }
    }

    /** The callback of the current vector. */
    method Finish(state: State)
      requires Valid() && cur.Some? && state != CLEANUP && (state == DONE <==> cur.value.Done())
      modifies `cur, `calls, `firstError, `part
      ensures Valid() && cur.None? && calls == old(calls) + [Callback(|old(calls)|, state)]
    {
      hide InOrder, EndsAt;
      assert Pending() == [cur.value] + sendQ;
      OrderHead(calls, cur.value, sendQ, posted, 0, state);
      var svec := cur.value;
      cur := None;
      calls := calls + [Callback(svec.serial, state)];
      assert Pending() == sendQ;
      if firstError.None? {
        if state == DONE {
          part := 0;
          EndsNext(posted, early, |calls| - 1);
        } else {
          firstError := Some(|calls| - 1);
        }
      }
    }

    /** Nothing is left to send, or the socket takes no more for now. */
    predicate Idle()
      reads this
    {
      (cur.None? && sendQ == []) || !readyToSend
    }

    /** sendProgress, one turn under mSendMutex: finish what can be finished, then take the next vector. */
    method SendTurn(script: seq<SendResult>) returns (more: bool, left: seq<SendResult>)
      requires Valid()
      modifies `cur, `sendQ, `readyToSend, `calls, `early, `firstError, `part
      ensures Valid() && old(early) <= early && |left| <= |script|
      ensures more ==> cur.Some? && |sendQ| < old(|sendQ|)
      ensures !more ==> Idle() || (|calls| == |old(calls)| + 1 && calls[|calls| - 1].state == ERROR)
      ensures old(calls) <= calls
    {
      hide Valid;
      var rc := UNAVAIL;
      left := script;
      if readyToSend {
        rc, left := SendvecProgress(script);
      }
      if rc == BROKEN || rc == UNAVAIL {
        return false, left;
      }
      if |sendQ| == 0 {
        return false, left;
      }
      TakeNext();
      more := true;
    }

    method TakeNext()
      requires Valid() && cur.None? && |sendQ| > 0
      modifies `cur, `sendQ, `part
      ensures Valid() && cur.Some? && |sendQ| == old(|sendQ|) - 1
    {
      hide InOrder, EndsAt;
      assert Pending() == sendQ;
      cur := Some(sendQ[0]);
      sendQ := sendQ[1..];
      assert Pending() == old(sendQ);
    }

    method SendProgress(script: seq<SendResult>)
      requires Valid()
      modifies `cur, `sendQ, `readyToSend, `calls, `early, `firstError, `part
      ensures Valid() && old(early) <= early && old(calls) <= calls
      ensures Idle() || (|calls| > |old(calls)| && calls[|calls| - 1].state == ERROR)
    {
      var left := script;
      var more := true;
      while more
        invariant Valid() && old(early) <= early && old(calls) <= calls
        invariant !more ==> Idle() || (|calls| > |old(calls)| && calls[|calls| - 1].state == ERROR)
        decreases more, |sendQ|
      {
        more, left := SendTurn(left);
      }
    }

    /** cleanup of a connection in use: it is marked, and left to the last holder; a sender finds the mark. */
    method MarkForCleanup()
      requires Valid()
      modifies `cleaning
      ensures Valid() && cleaning
    {
      cleaning := true;
    }

    /** cleanup: the queued vectors first and the current one last, whatever state they are in. */
    method Cleanup(onError: bool)
      requires Valid()
      modifies this
      ensures cur.None? && sendQ == [] && cleaning && posted == old(posted) && early == old(early)
      ensures old(calls) <= calls
      ensures OnceEach(calls, |posted|)
      ensures forall k :: |old(calls)| <= k < |calls| ==> calls[k].state == if onError then ERROR else CLEANUP
    {
      hide Accepted, Fresh;
      cleaning := true;
      var state := if onError then ERROR else CLEANUP;
      ghost var n, first := |calls|, if cur.Some? then 1 else 0;
      QueueSerials();
      CleanupQueue(state, n + first);
      if cur.Some? {
        calls := calls + [Callback(cur.value.serial, state)];
      }
      cur := None;
      CleanedOnce(calls, n, |posted|, first);
    }

    lemma QueueSerials()
      requires InOrder(calls, Pending(), posted)
      ensures var first := if cur.Some? then 1 else 0;
        |posted| == |calls| + first + |sendQ|
        && (cur.Some? ==> cur.value.serial == |calls|)
        && (forall j :: 0 <= j < |sendQ| ==> sendQ[j].serial == |calls| + first + j)
      ensures forall k :: 0 <= k < |calls| ==> calls[k].serial == k
    {
      if cur.Some? {
        OrderHead(calls, cur.value, sendQ, posted, 0, DONE);
      } else {
        assert Pending() == sendQ;
      }
    }

    /** The socket never sees anything but a prefix of what was posted, and a vector reported sent is in that prefix. */
    lemma AcceptedIsPrefix()
      requires Valid()
      ensures early <= Flatten(posted)
      ensures firstError.None? ==> Flatten(posted[..|calls|]) <= early
      ensures firstError.Some? ==> Flatten(posted[..firstError.value]) <= early
      ensures firstError.None? && Pending() == [] ==> early == Flatten(posted)
    {
      var k := if firstError.Some? then firstError.value else |calls|;
      EarlyIsPrefix(posted, early, k, part);
      if k == |posted| {
        assert posted[..k] == posted;
      }
    }

    method CleanupQueue(state: State, ghost next: nat)
      requires forall j :: 0 <= j < |sendQ| ==> sendQ[j].serial == next + j
      modifies `sendQ, `calls
      ensures sendQ == [] && |calls| == old(|calls| + |sendQ|) && old(calls) <= calls
      ensures forall k :: old(|calls|) <= k < |calls| ==> calls[k] == Callback(next + k - old(|calls|), state)
    {
      while |sendQ| > 0
        invariant |calls| + |sendQ| == old(|calls| + |sendQ|) && old(calls) <= calls
        invariant forall j :: 0 <= j < |sendQ| ==> sendQ[j].serial == next + |calls| - old(|calls|) + j
        invariant forall k :: old(|calls|) <= k < |calls| ==> calls[k] == Callback(next + k - old(|calls|), state)
      {
        calls := calls + [Callback(sendQ[0].serial, state)];
        sendQ := sendQ[1..];
      }
    }
  }

  lemma CleanedOnce(calls: seq<Callback>, n: nat, all: nat, first: nat)
    requires first <= 1 && |calls| == all && n + first <= all
    requires forall k :: 0 <= k < n ==> calls[k].serial == k
    requires forall k :: n <= k < all - first ==> calls[k].serial == k + first
    requires first == 1 ==> calls[all - 1].serial == n
    ensures OnceEach(calls, all)
  {
  }

  /** A callback for every vector, and for none of them two. */
  ghost predicate OnceEach(calls: seq<Callback>, n: nat) {
    |calls| == n
    && (forall k :: 0 <= k < n ==> calls[k].serial < n)
    && (forall j, k :: 0 <= j < k < n ==> calls[j].serial != calls[k].serial)
  }

  lemma EndsNext(posted: seq<seq<byte>>, early: seq<byte>, k: nat)
    requires k < |posted| && EndsAt(posted, early, k, |posted[k]|)
    ensures EndsAt(posted, early, k + 1, 0)
  {
    FlattenPrefix(posted, k);
    assert posted[k][..|posted[k]|] == posted[k];
    if k + 1 < |posted| {
      assert early == Flatten(posted[..k + 1]) + posted[k + 1][..0];
    } else {
      assert posted[..k + 1] == posted;
    }
  }
}
