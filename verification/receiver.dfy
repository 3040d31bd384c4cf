/** The callback-driven receive state machine (lfutil/src/net/conncb.cpp, recvProgress of lfutil/src/net/conn.cpp). */
module Receiver {
  import opened Words
  import opened Sizing
  import opened Messages
  import opened Frames

  /** A vector posted for receiving: what it holds so far, and whether it was made for a caller's buffer. */
  datatype IoVec = IoVec(size: nat, data: seq<byte>, user: bool)
  {
    predicate Done() { |data| == size }
  }

  datatype Part = HEADER | MESSAGE | ATTACHMENT | ATTACHFILE | DRAIN

  datatype Event = Event(message: Message, filled: seq<seq<byte>>, file: seq<byte>)

  /** The callback parameter that lives as long as the connection. */
  datatype Param = Param(attLen: u32, fileLen: u64, remainVecs: nat, drainLen: nat, cev: Option<Event>)

  // ---------- how the posted vectors relate to the bytes since the last frame boundary

  ghost predicate InMessage(c: Config, user: bool, open: seq<byte>, posted: seq<IoVec>, cbp: Param) {
    |open| >= HDR_LEN && IsRpc(open) && !(c.checks && user)
    && |open| <= HDR_LEN + MsgLen(open)
    && posted == [IoVec(MsgLen(open), open[HDR_LEN..], user)]
    && cbp.attLen == AttLen(open) && cbp.fileLen == FileLen(open) && cbp.cev == None
  }

  ghost predicate Taken(c: Config, user: bool, known: Expected, open: seq<byte>) {
    HasMessage(open) && !(c.checks && user) && VerdictOn(c, known, open).Take?
  }

  /** Buffers filled one after the other. */
  ghost predicate Filling(sizes: seq<nat>, filled: seq<seq<byte>>, posted: seq<IoVec>, rest: seq<byte>) {
    |posted| > 0 && |filled| + |posted| == |sizes|
    && (forall i :: 0 <= i < |filled| ==> |filled[i]| == sizes[i])
    && (forall i :: 0 <= i < |posted| ==> posted[i].size == sizes[|filled| + i] && posted[i].user)
    && (forall i :: 0 < i < |posted| ==> posted[i].data == [])
    && |posted[0].data| <= posted[0].size && Flatten(filled) + posted[0].data == rest
  }

  ghost predicate InAttachment(c: Config, user: bool, known: Expected, open: seq<byte>, posted: seq<IoVec>, cbp: Param) {
    Taken(c, user, known, open) && AttLen(open) > 0 && cbp.fileLen == FileLen(open) && cbp.remainVecs == |posted|
    && cbp.cev.Some? && cbp.cev.value == Event(VerdictOn(c, known, open).message, cbp.cev.value.filled, [])
    && Filling(VerdictOn(c, known, open).sizes, cbp.cev.value.filled, posted, open[HDR_LEN + MsgLen(open)..])
  }

  ghost predicate InFile(c: Config, user: bool, known: Expected, open: seq<byte>, posted: seq<IoVec>, cbp: Param) {
    Taken(c, user, known, open)
    && var att := HDR_LEN + MsgLen(open);
    var file := att + Sum(VerdictOn(c, known, open).sizes);
    |open| >= file && cbp.fileLen == FileLen(open) > 0
    && cbp.cev.Some? && cbp.cev.value.message == VerdictOn(c, known, open).message
    && cbp.cev.value.filled == Split(open[att..file], VerdictOn(c, known, open).sizes)
    && (if posted == [] then FileLen(open) > c.block else InFileBlock(c, open[file..], posted, cbp))
  }

  ghost predicate InFileBlock(c: Config, rest: seq<byte>, posted: seq<IoVec>, cbp: Param) {
    posted == [IoVec(if cbp.fileLen <= c.block then cbp.fileLen else c.block, rest, false)]
    && |rest| <= posted[0].size && cbp.remainVecs == Blocks(cbp.fileLen, c.block) && cbp.cev.Some?
    && cbp.cev.value.file == []
  }

  ghost predicate Refused(c: Config, user: bool, known: Expected, s: seq<byte>) {
    |s| >= HDR_LEN
    && (IsRpc(s) ==> HasMessage(s) && VerdictOn(c, known, s).Refuse? && !(c.checks && user))
  }

  ghost function DrainStart(s: seq<byte>): nat
    requires |s| >= HDR_LEN
  {
    if IsRpc(s) then HDR_LEN + MsgLen(s) else HDR_LEN
  }

  ghost function DrainAmount(s: seq<byte>): nat
    requires |s| >= HDR_LEN
  {
    if IsRpc(s) then AttLen(s) + FileLen(s) else MsgLen(s) + AttLen(s) + FileLen(s)
  }

  ghost predicate InDrain(c: Config, user: bool, known: Expected, open: seq<byte>, posted: seq<IoVec>, cbp: Param) {
    Refused(c, user, known, open) && cbp.cev == None
    && cbp.drainLen == DrainAmount(open) > 0 && cbp.remainVecs >= 1
    && |posted| == 1 && posted[0].user == user && |posted[0].data| <= posted[0].size
    && (cbp.remainVecs >= 2 ==> posted[0].size == c.block)
    && |open| - |posted[0].data| + posted[0].size + Sum(DrainTail(cbp.remainVecs, cbp.drainLen, c.block))
       == DrainStart(open) + Drained(cbp.drainLen, c.block)
  }

  ghost predicate Tracks(c: Config, user: bool, known: Expected, open: seq<byte>, part: Part, posted: seq<IoVec>, cbp: Param)
  {
    match part
    case HEADER => |open| <= HDR_LEN && posted == [IoVec(HDR_LEN, open, user)] && cbp.cev == None
    case MESSAGE => InMessage(c, user, open, posted, cbp)
    case ATTACHMENT => InAttachment(c, user, known, open, posted, cbp)
    case ATTACHFILE => InFile(c, user, known, open, posted, cbp)
    case DRAIN => InDrain(c, user, known, open, posted, cbp)
  }

  /** What a refused message has already been answered with. */
  ghost function Reply(c: Config, user: bool, known: Expected, s: seq<byte>): seq<Output>
    requires Refused(c, user, known, s)
  {
    if IsRpc(s) then VerdictOn(c, known, s).reply else []
  }

  // ---------- requests and their responses

  predicate Answers(m: Message, id: u32) { m.ResponseMessage? && Wrap32(m.response.id) == id }

  /** How many of the responses delivered are to this request. */
  function Answered(out: seq<Output>, id: u32): nat {
    if out == [] then 0
    else
      var last := out[|out| - 1];
      Answered(out[..|out| - 1], id) + Bit(last.Delivered? && Answers(last.body, id))
  }

  /** Only a delivered response counts, for the request whose id it carries in its low 32 bits. */
  lemma AnsweredCounts(out: seq<Output>, r: Response, pieces: seq<seq<byte>>, file: seq<byte>, id: u32)
    ensures Answered([], id) == 0
    ensures Answered(out + [Delivered(ResponseMessage(r), pieces, file)], id) == Answered(out, id) + Bit(r.id % TWO32 == id)
  {
    AnsweredSnoc(out, Delivered(ResponseMessage(r), pieces, file));
  }

  /** Each time a request is entered it is still expected, being answered or answered, and only one of these. */
  ghost predicate Balanced(out: seq<Output>, cev: Option<Event>, pending: Expected, entered: multiset<u32>) {
    forall id: u32 ::
      Answered(out, id) + Bit(cev.Some? && Answers(cev.value.message, id)) + Bit(id in pending) == entered[id]
  }

  lemma AnsweredSnoc(out: seq<Output>, last: Output)
    ensures forall id :: Answered(out + [last], id) == Answered(out, id) + Bit(last.Delivered? && Answers(last.body, id))
  {
    assert (out + [last])[..|out|] == out;
  }

  lemma NoneAnswered(pending: Expected)
    ensures Balanced([], None, pending, multiset(pending.Keys))
  {
  }

  lemma OneEntered(out: seq<Output>, cev: Option<Event>, pending: Expected, entered: multiset<u32>, id: u32, sizes: seq<nat>)
    requires Balanced(out, cev, pending, entered) && id !in pending
    ensures Balanced(out, cev, pending[id := sizes], entered + multiset{id})
  {
  }

  lemma MalformedKeeps(out: seq<Output>, cev: Option<Event>, pending: Expected, entered: multiset<u32>, message: seq<byte>)
    requires Balanced(out, cev, pending, entered)
    ensures Balanced(out + [Malformed(message)], cev, pending, entered)
  {
    AnsweredSnoc(out, Malformed(message));
  }

  lemma RequestKeeps(out: seq<Output>, pending: Expected, entered: multiset<u32>, m: Message)
    requires Balanced(out, None, pending, entered) && m.RequestMessage?
    ensures Balanced(out, Some(Event(m, [], [])), pending, entered)
  {
  }

  lemma ResponseKeeps(out: seq<Output>, pending: Expected, entered: multiset<u32>, m: Message)
    requires Balanced(out, None, pending, entered) && m.ResponseMessage? && Wrap32(m.response.id) in pending
    ensures Balanced(out, Some(Event(m, [], [])), pending - {Wrap32(m.response.id)}, entered)
  {
  }

  lemma SameMessageKeeps(out: seq<Output>, ev: Event, ev': Event, pending: Expected, entered: multiset<u32>)
    requires Balanced(out, Some(ev), pending, entered) && ev'.message == ev.message
    ensures Balanced(out, Some(ev'), pending, entered)
  {
  }

  lemma DeliveryKeeps(out: seq<Output>, ev: Event, pending: Expected, entered: multiset<u32>)
    requires Balanced(out, Some(ev), pending, entered)
    ensures Balanced(out + [Delivered(ev.message, ev.filled, ev.file)], None, pending, entered)
  {
    AnsweredSnoc(out, Delivered(ev.message, ev.filled, ev.file));
  }

  // ---------- bytes arriving

  lemma Arrive(c: Config, user: bool, known: Expected, open: seq<byte>, part: Part, v: IoVec, queue: seq<IoVec>,
               cbp: Param, b: seq<byte>)
    requires Tracks(c, user, known, open, part, [v] + queue, cbp) && |v.data| + |b| <= v.size
    ensures Tracks(c, user, known, open + b, part, [v.(data := v.data + b)] + queue, cbp)
    ensures part == DRAIN ==> Reply(c, user, known, open + b) == Reply(c, user, known, open)
  {
    hide IsRpc, MsgLen, AttLen, FileLen, Judge, Drained;
    var posted := [v] + queue;
    assert posted[0] == v;
    if |open| >= HDR_LEN {
      HeaderOf(open, b);
      assert HasMessage(open) ==> MessageOf(open + b) == MessageOf(open);
    }
    match part {
      case HEADER =>
      case MESSAGE =>
        assert (open + b)[HDR_LEN..] == open[HDR_LEN..] + b;
      case ATTACHMENT =>
        ArriveAttachment(c, user, known, open, v, queue, cbp, b);
      case ATTACHFILE =>
        ArriveFile(c, user, known, open, v, queue, cbp, b);
      case DRAIN =>
    }
  }

  lemma ArriveAttachment(c: Config, user: bool, known: Expected, open: seq<byte>, v: IoVec, queue: seq<IoVec>,
                         cbp: Param, b: seq<byte>)
    requires InAttachment(c, user, known, open, [v] + queue, cbp) && |v.data| + |b| <= v.size
    ensures InAttachment(c, user, known, open + b, [v.(data := v.data + b)] + queue, cbp)
  {
    hide IsRpc, MsgLen, AttLen, FileLen, Judge, Flatten;
    HeaderOf(open, b);
    assert MessageOf(open + b) == MessageOf(open);
    var at := HDR_LEN + MsgLen(open);
    assert (open + b)[at..] == open[at..] + b;
    FillingGrows(VerdictOn(c, known, open).sizes, cbp.cev.value.filled, v, queue, open[at..], b);
  }

  lemma FillingGrows(sizes: seq<nat>, filled: seq<seq<byte>>, v: IoVec, queue: seq<IoVec>, rest: seq<byte>, b: seq<byte>)
    requires Filling(sizes, filled, [v] + queue, rest) && |v.data| + |b| <= v.size
    ensures Filling(sizes, filled, [v.(data := v.data + b)] + queue, rest + b)
  {
    hide Flatten;
    var was, now := [v] + queue, [v.(data := v.data + b)] + queue;
    assert was[0] == v && forall i :: 0 < i < |was| ==> now[i] == was[i];
    assert Flatten(filled) + (v.data + b) == (Flatten(filled) + v.data) + b;
  }

  lemma ArriveFile(c: Config, user: bool, known: Expected, open: seq<byte>, v: IoVec, queue: seq<IoVec>,
                   cbp: Param, b: seq<byte>)
    requires InFile(c, user, known, open, [v] + queue, cbp) && |v.data| + |b| <= v.size
    ensures InFile(c, user, known, open + b, [v.(data := v.data + b)] + queue, cbp)
  {
    hide IsRpc, MsgLen, AttLen, FileLen, Judge, Split, Blocks;
    HeaderOf(open, b);
    assert MessageOf(open + b) == MessageOf(open);
    var att := HDR_LEN + MsgLen(open);
    var file := att + Sum(VerdictOn(c, known, open).sizes);
    assert (open + b)[att..file] == open[att..file] && (open + b)[file..] == open[file..] + b;
    assert ([v] + queue)[0] == v && queue == [];
  }

  // ---------- frames ending

  lemma RefusedIsWhole(c: Config, user: bool, known: Expected, s: seq<byte>)
    requires Refused(c, user, known, s) && |s| == DrainStart(s) + Skipped(c, DrainAmount(s))
    ensures Whole(c, user, Entry(s, known)) && Meaning(c, user, Entry(s, known)) == Reply(c, user, known, s)
    ensures UserNext(c, user, Entry(s, known)) == user
  {
    hide IsRpc, MsgLen, AttLen, FileLen, Judge, Drained;
  }

  lemma TakenIsWhole(c: Config, user: bool, known: Expected, s: seq<byte>, m: Message, pieces: seq<seq<byte>>,
                     file: seq<byte>)
    requires Taken(c, user, known, s) && FileLen(s) <= c.block && VerdictOn(c, known, s).message == m
    requires |pieces| == |VerdictOn(c, known, s).sizes|
    requires forall i :: 0 <= i < |pieces| ==> |pieces[i]| == VerdictOn(c, known, s).sizes[i]
    requires s[HDR_LEN + MsgLen(s)..] == Flatten(pieces) + file && |file| == FileLen(s)
    ensures Whole(c, user, Entry(s, known)) && Meaning(c, user, Entry(s, known)) == [Delivered(m, pieces, file)]
    ensures UserNext(c, user, Entry(s, known)) == if FileLen(s) > 0 then false else if AttLen(s) > 0 then true else user
  {
    hide IsRpc, MsgLen, AttLen, FileLen, Judge, Drained, Flatten, Split;
    var sizes := VerdictOn(c, known, s).sizes;
    PiecesSum(pieces, sizes);
    BodyParts(s, HDR_LEN + MsgLen(s), Flatten(pieces), file);
    SplitUnique(Flatten(pieces), sizes, pieces);
  }

  lemma BodyParts(s: seq<byte>, at: nat, attachment: seq<byte>, file: seq<byte>)
    requires at <= |s| && s[at..] == attachment + file
    ensures |s| == at + |attachment| + |file|
    ensures s[at..at + |attachment|] == attachment && s[at + |attachment|..] == file
  {
    assert s[at..at + |attachment|] == s[at..][..|attachment|] && s[at + |attachment|..] == s[at..][|attachment|..];
  }

  lemma {:induction false} PiecesSum(pieces: seq<seq<byte>>, sizes: seq<nat>)
    requires |pieces| == |sizes| && forall i :: 0 <= i < |pieces| ==> |pieces[i]| == sizes[i]
    ensures |Flatten(pieces)| == Sum(sizes)
  {
    if pieces != [] {
      PiecesSum(pieces[1..], sizes[1..]);
    }
  }

  /** The open bytes are in the posted vectors, and what has been delivered is what the whole frames bring. */
  ghost predicate Following(c: Config, aborted: bool, entries: seq<Entry>, known: Expected, open: seq<byte>, part: Part,
                            posted: seq<IoVec>, cbp: Param, delivered: seq<Output>)
  {
    Cuts(c, entries)
    && (if aborted then posted == [] && Stopped(c, User(c, entries), open)
        else Tracks(c, User(c, entries), known, open, part, posted, cbp))
    && delivered == Outputs(c, entries)
                    + (if part == DRAIN && !aborted then Reply(c, User(c, entries), known, open) else [])
  }

  /** The assertion has failed on a header that came in a caller's vector. */
  ghost predicate Stopped(c: Config, user: bool, open: seq<byte>) {
    |open| == HDR_LEN && IsRpc(open) && c.checks && user
  }

  lemma FollowHeader(c: Config, entries: seq<Entry>, known: Expected, cbp: Param, delivered: seq<Output>)
    requires Cuts(c, entries) && cbp.cev == None && delivered == Outputs(c, entries)
    ensures Following(c, false, entries, known, [], HEADER, [IoVec(HDR_LEN, [], User(c, entries))], cbp, delivered)
  {
  }

  lemma FollowAttachment(c: Config, entries: seq<Entry>, known: Expected, open: seq<byte>, posted: seq<IoVec>, cbp: Param,
                         delivered: seq<Output>)
    requires Cuts(c, entries) && InAttachment(c, User(c, entries), known, open, posted, cbp)
    requires delivered == Outputs(c, entries)
    ensures Following(c, false, entries, known, open, ATTACHMENT, posted, cbp, delivered)
  {
  }

  lemma FollowFile(c: Config, entries: seq<Entry>, known: Expected, open: seq<byte>, posted: seq<IoVec>, cbp: Param,
                   delivered: seq<Output>)
    requires Cuts(c, entries) && InFile(c, User(c, entries), known, open, posted, cbp)
    requires delivered == Outputs(c, entries)
    ensures Following(c, false, entries, known, open, ATTACHFILE, posted, cbp, delivered)
  {
  }

  lemma FollowDrain(c: Config, entries: seq<Entry>, known: Expected, open: seq<byte>, posted: seq<IoVec>, cbp: Param,
                    delivered: seq<Output>)
    requires Cuts(c, entries) && InDrain(c, User(c, entries), known, open, posted, cbp)
    requires delivered == Outputs(c, entries) + Reply(c, User(c, entries), known, open)
    ensures Following(c, false, entries, known, open, DRAIN, posted, cbp, delivered)
  {
  }

  /** A refused frame of which nothing is left to drain. */
  lemma RefusedFollows(c: Config, entries: seq<Entry>, known: Expected, open: seq<byte>, cbp: Param,
                       delivered: seq<Output>)
    requires Cuts(c, entries) && Refused(c, User(c, entries), known, open) && cbp.cev == None
    requires |open| == DrainStart(open) + Skipped(c, DrainAmount(open))
    requires delivered == Outputs(c, entries) + Reply(c, User(c, entries), known, open)
    ensures Whole(c, User(c, entries), Entry(open, known))
    ensures Following(c, false, entries + [Entry(open, known)], known, [], HEADER, [IoVec(HDR_LEN, [], User(c, entries))],
                      cbp, delivered)
  {
    hide Cuts, User, Outputs, Refused, Reply, Whole, Meaning, UserNext, DrainStart, DrainAmount, Skipped;
    RefusedIsWhole(c, User(c, entries), known, open);
    Extend(c, entries, Entry(open, known));
    FollowHeader(c, entries + [Entry(open, known)], known, cbp, delivered);
  }

  /** A full vector of a drain: the next one, or the end of the frame. */
  lemma DrainFollows(c: Config, entries: seq<Entry>, known: Expected, open: seq<byte>, iov: IoVec, queue: seq<IoVec>,
                     cbp: Param, delivered: seq<Output>)
    requires Following(c, false, entries, known, open, DRAIN, [iov] + queue, cbp, delivered) && iov.Done()
    ensures Cuts(c, entries) && queue == [] && cbp.cev == None && cbp.remainVecs >= 1
    ensures iov.size == 0 ==> cbp.remainVecs == 1
    ensures var next := cbp.(remainVecs := cbp.remainVecs - 1);
      if cbp.remainVecs == 1 then
        Whole(c, User(c, entries), Entry(open, known))
        && Following(c, false, entries + [Entry(open, known)], known, [], HEADER, [IoVec(HDR_LEN, [], iov.user)],
                     next, delivered)
      else if cbp.remainVecs == 2 then
        Following(c, false, entries, known, open, DRAIN, [iov.(size := cbp.drainLen % c.block, data := [])], next,
                  delivered)
      else Following(c, false, entries, known, open, DRAIN, [iov.(data := [])], next, delivered)
  {
    hide Cuts, User, Outputs, InDrain, Refused, Reply, Whole, DrainStart, DrainAmount, Skipped;
    DrainMoves(c, User(c, entries), known, open, iov, queue, cbp);
    var next := cbp.(remainVecs := cbp.remainVecs - 1);
    if cbp.remainVecs == 1 {
      RefusedFollows(c, entries, known, open, next, delivered);
    } else if cbp.remainVecs == 2 {
      FollowDrain(c, entries, known, open, [iov.(size := cbp.drainLen % c.block, data := [])], next, delivered);
    } else {
      FollowDrain(c, entries, known, open, [iov.(data := [])], next, delivered);
    }
  }

  function FirstBlock(c: Config, fileLen: nat): seq<IoVec> {
    [IoVec(if fileLen <= c.block then fileLen else c.block, [], false)]
  }

  /** What an accepted message leads to: its attachment, its file, or the end of the frame. */
  lemma RestFollows(c: Config, entries: seq<Entry>, known: Expected, open: seq<byte>, message: Message, sizes: seq<nat>,
                    cbp: Param, delivered: seq<Output>)
    requires Cuts(c, entries) && delivered == Outputs(c, entries)
    requires Taken(c, User(c, entries), known, open) && |open| == HDR_LEN + MsgLen(open)
    requires message == VerdictOn(c, known, open).message && sizes == VerdictOn(c, known, open).sizes
    requires cbp.attLen == AttLen(open) && cbp.fileLen == FileLen(open)
    ensures var cev := Some(Event(message, [], []));
      if cbp.attLen > 0 then
        Following(c, false, entries, known, open, ATTACHMENT, UserVecs(sizes), cbp.(cev := cev, remainVecs := |sizes|),
                  delivered)
      else if cbp.fileLen > 0 then
        Following(c, false, entries, known, open, ATTACHFILE, FirstBlock(c, cbp.fileLen),
                  cbp.(cev := cev, remainVecs := Blocks(cbp.fileLen, c.block)), delivered)
      else
        Whole(c, User(c, entries), Entry(open, known))
        && Following(c, false, entries + [Entry(open, known)], known, [], HEADER,
                     [IoVec(HDR_LEN, [], User(c, entries))], cbp.(cev := None), delivered + [Delivered(message, [], [])])
  {
    hide Cuts, User, Outputs, Following, InAttachment, InFile, Taken, VerdictOn, MsgLen, AttLen, FileLen, Blocks, Whole,
      Meaning, UserNext, UserVecs, IsRpc;
    var user := User(c, entries);
    var taken := cbp.(cev := Some(Event(message, [], [])));
    if cbp.attLen > 0 {
      var next := taken.(remainVecs := |sizes|);
      VecsCount(sizes);
      AttachmentIsTracked(c, user, known, open, UserVecs(sizes), next);
      FollowAttachment(c, entries, known, open, UserVecs(sizes), next, delivered);
    } else if cbp.fileLen > 0 {
      var next := taken.(remainVecs := Blocks(cbp.fileLen, c.block));
      FileIsTracked(c, user, known, open, FirstBlock(c, cbp.fileLen), next);
      FollowFile(c, entries, known, open, FirstBlock(c, cbp.fileLen), next, delivered);
    } else {
      MessageAloneIsWhole(c, user, known, open, message);
      Extend(c, entries, Entry(open, known));
      FollowHeader(c, entries + [Entry(open, known)], known, cbp.(cev := None), delivered + [Delivered(message, [], [])]);
    }
  }

  /** A full attachment buffer: the next one, the file, or the end of the frame. */
  lemma BufferFollows(c: Config, entries: seq<Entry>, known: Expected, open: seq<byte>, iov: IoVec, queue: seq<IoVec>,
                      cbp: Param, delivered: seq<Output>)
    requires Following(c, false, entries, known, open, ATTACHMENT, [iov] + queue, cbp, delivered) && iov.Done()
    ensures Cuts(c, entries) && cbp.cev.Some? && cbp.remainVecs == |queue| + 1
    ensures forall i :: 0 <= i < |queue| ==> queue[i].data == []
    ensures var ev := cbp.cev.value.(filled := cbp.cev.value.filled + [iov.data]);
      var next := cbp.(remainVecs := |queue|, cev := Some(ev));
      if queue != [] then Following(c, false, entries, known, open, ATTACHMENT, queue, next, delivered)
      else if cbp.fileLen > 0 then
        Following(c, false, entries, known, open, ATTACHFILE, FirstBlock(c, cbp.fileLen),
                  next.(remainVecs := Blocks(cbp.fileLen, c.block)), delivered)
      else
        Whole(c, User(c, entries), Entry(open, known))
        && Following(c, false, entries + [Entry(open, known)], known, [], HEADER, [IoVec(HDR_LEN, [], iov.user)],
                     next.(cev := None), delivered + [Delivered(ev.message, ev.filled, ev.file)])
  {
    hide Cuts, User, Outputs, VerdictOn, MsgLen, AttLen, FileLen, IsRpc, Filling, Flatten, Whole, Meaning, UserNext, InFile,
      Blocks;
    var user, ev := User(c, entries), cbp.cev.value;
    var sizes, rest := VerdictOn(c, known, open).sizes, open[HDR_LEN + MsgLen(open)..];
    BufferFilled(sizes, ev.filled, iov, queue, rest);
    assert |[iov] + queue| == |queue| + 1;
    var filled := ev.filled + [iov.data];
    var next := cbp.(remainVecs := |queue|, cev := Some(ev.(filled := filled)));
    if queue == [] {
      if cbp.fileLen > 0 {
        var file := next.(remainVecs := Blocks(cbp.fileLen, c.block));
        FileFollows(c, user, known, open, FirstBlock(c, cbp.fileLen), file);
        FollowFile(c, entries, known, open, FirstBlock(c, cbp.fileLen), file, delivered);
      } else {
        TakenIsWhole(c, user, known, open, ev.message, filled, []);
        Extend(c, entries, Entry(open, known));
        FollowHeader(c, entries + [Entry(open, known)], known, next.(cev := None),
                     delivered + [Delivered(ev.message, filled, ev.file)]);
      }
    }
  }

  /** A full block of a file: the end of the frame, or nothing more. */
  lemma BlockFollows(c: Config, entries: seq<Entry>, known: Expected, open: seq<byte>, iov: IoVec, queue: seq<IoVec>,
                     cbp: Param, delivered: seq<Output>)
    requires Following(c, false, entries, known, open, ATTACHFILE, [iov] + queue, cbp, delivered) && iov.Done()
    ensures Cuts(c, entries) && cbp.cev.Some? && queue == [] && iov.size > 0
    ensures cbp.remainVecs >= 1 && (cbp.remainVecs == 1 <==> cbp.fileLen <= c.block)
    ensures var ev := cbp.cev.value.(file := cbp.cev.value.file + iov.data);
      var next := cbp.(remainVecs := cbp.remainVecs - 1, cev := Some(ev));
      if cbp.fileLen > c.block then Following(c, false, entries, known, open, ATTACHFILE, [], next, delivered)
      else
        Whole(c, User(c, entries), Entry(open, known))
        && Following(c, false, entries + [Entry(open, known)], known, [], HEADER, [IoVec(HDR_LEN, [], iov.user)],
                     next.(cev := None), delivered + [Delivered(ev.message, ev.filled, ev.file)])
  {
    hide Cuts, User, Outputs, InFile, Whole, Meaning, UserNext;
    FileReceived(c, User(c, entries), known, open, iov, queue, cbp);
    var ev := cbp.cev.value.(file := cbp.cev.value.file + iov.data);
    var next := cbp.(remainVecs := cbp.remainVecs - 1, cev := Some(ev));
    if cbp.fileLen > c.block {
      FollowFile(c, entries, known, open, [], next, delivered);
    } else {
      Extend(c, entries, Entry(open, known));
      FollowHeader(c, entries + [Entry(open, known)], known, next.(cev := None),
                   delivered + [Delivered(ev.message, ev.filled, ev.file)]);
    }
  }

  lemma OneFirstBlock(c: Config, fileLen: nat)
    ensures FirstBlock(c, fileLen) == [] + [IoVec(if fileLen <= c.block then fileLen else c.block, [], false)]
  {
  }

  lemma VecsCount(mems: seq<nat>)
    ensures |UserVecs(mems)| == |mems|
  {
  }

  class Conn {
    const c: Config
    var nextRecv: Part
    var cur: Option<IoVec>
    var queue: seq<IoVec>
    var cbp: Param
    var pending: Expected
    var delivered: seq<Output>
    /** An assertion has ended the process. */
    var aborted: bool

    /** The bytes taken from the socket, the frames they contain, and what lies past the last whole frame. */
    ghost var received: seq<byte>
    ghost var entries: seq<Entry>
    ghost var open: seq<byte>
    ghost var known: Expected
    /** How often each request has been put into the map. */
    ghost var entered: multiset<u32>

    ghost predicate Follows(posted: seq<IoVec>)
      reads `nextRecv, `cbp, `delivered, `aborted, `received, `entries, `open, `known, `pending, `entered
    {
      received == Wire(entries) + open && Balanced(delivered, cbp.cev, pending, entered)
      && Following(c, aborted, entries, known, open, nextRecv, posted, cbp, delivered)
    }

    function Posted(): seq<IoVec>
      reads this
    {
      (if cur.Some? then [cur.value] else []) + queue
    }

    ghost predicate Valid()
      reads this
    {
      Follows(Posted())
    }

    ghost predicate Fresh()
      reads this
    {
      forall i :: 0 <= i < |queue| ==> queue[i].data == []
    }

    /** connCallback, on connect: the first header is posted. */
    constructor (c: Config, pending: Expected)
      ensures Valid() && Fresh() && this.c == c && this.pending == pending
      ensures received == [] && entries == [] && delivered == [] && !aborted && cur.None?
      ensures entered == multiset(pending.Keys)
    {
      this.c := c;
      nextRecv, cur, queue := HEADER, None, [IoVec(HDR_LEN, [], false)];
      cbp := Param(0, 0, 0, 0, None);
      this.pending, delivered, aborted := pending, [], false;
      received, entries, open, known, entered := [], [], [], pending, multiset(pending.Keys);
      NoneAnswered(pending);
    }

    /** addEventEntry: an existing entry of the same id is kept. */
    method AddEventEntry(id: u32, sizes: seq<nat>)
      requires Valid() && Fresh() && (cur.Some? ==> Pristine())
      modifies `pending, `entered
      ensures Valid() && Fresh() && Posted() == old(Posted()) && (cur.Some? ==> Pristine())
      ensures pending == if id in old(pending) then old(pending) else old(pending)[id := sizes]
      ensures entered == old(entered) + (if id in old(pending) then multiset{} else multiset{id})
    {
      hide Cuts, User, Outputs, Wire, Tracks, Reply, Refused, Balanced;
      if id !in pending {
        OneEntered(delivered, cbp.cev, pending, entered, id, sizes);
        entered := entered + multiset{id};
        pending := pending[id := sizes];
      }
    }

    method RepostIoVec(iov: IoVec, len: nat)
      modifies `queue
      ensures queue == old(queue) + [IoVec(len, [], iov.user)]
    {
      queue := queue + [iov.(size := len, data := [])];
    }

    ghost method EndFrame()
      requires Cuts(c, entries) && Whole(c, User(c, entries), Entry(open, known)) && received == Wire(entries) + open
      modifies `entries, `open
      ensures Cuts(c, entries) && entries == old(entries) + [Entry(old(open), known)] && open == []
      ensures received == Wire(entries) + open
    {
      Extend(c, entries, Entry(open, known));
      entries := entries + [Entry(open, known)];
      open := [];
    }

    /** Start to drain, or go straight on to the next header when there is nothing to drain. */
    method Prepare2Drain(iov: IoVec, leftSize: nat)
      requires queue == [] && cur.None? && !aborted && Cuts(c, entries) && received == Wire(entries) + open
      requires Refused(c, User(c, entries), known, open) && iov.user == User(c, entries)
      requires leftSize == DrainAmount(open) && |open| == DrainStart(open) && cbp.cev == None
      requires delivered == Outputs(c, entries) + Reply(c, User(c, entries), known, open)
      requires Balanced(delivered, None, pending, entered)
      modifies `nextRecv, `queue, `cbp, `entries, `open
      ensures Valid() && Fresh() && nextRecv in {HEADER, DRAIN}
    {
      hide IsRpc, MsgLen, AttLen, FileLen, Judge, InDrain, Refused, DrainStart, DrainAmount, Drained, Cuts, User, Outputs,
        Wire, Whole, Meaning, UserNext, Reply, InMessage, InAttachment, InFile, Balanced, Following, Tracks;
      if leftSize > 0 {
        var blockCount := (leftSize + c.block - 1) / c.block;
        var blockSize := if c.block > leftSize then leftSize else c.block;
        queue := queue + [iov.(size := blockSize, data := [])];
        cbp := cbp.(drainLen := leftSize, remainVecs := blockCount);
        nextRecv := DRAIN;
        assert Posted() == [iov.(size := blockSize, data := [])];
        DrainIsTracked(c, User(c, entries), known, open, Posted(), cbp);
        FollowDrain(c, entries, known, open, Posted(), cbp, delivered);
      } else {
        RefusedFollows(c, entries, known, open, cbp.(drainLen := 0), delivered);
        EndFrame();
        cbp := cbp.(drainLen := 0);
        RepostIoVec(iov, HDR_LEN);
        nextRecv := HEADER;
        assert Posted() == [IoVec(HDR_LEN, [], iov.user)];
      }
    }

    method RecvHeaderCb(iov: IoVec)
      requires Follows([iov] + queue) && cur.None? && iov.Done() && nextRecv == HEADER && !aborted
      modifies `nextRecv, `queue, `cbp, `entries, `open, `known, `aborted
      ensures Valid() && Fresh() && iov.size == HDR_LEN
    {
      hide Judge, InAttachment, InFile, InDrain, Cuts, User, Outputs, Wire, Whole, Balanced;
      assert [iov] + queue == [IoVec(HDR_LEN, open, iov.user)];
      assert ([iov] + queue)[0] == iov && queue == [];
      var h := iov.data;
      var msgLen := MsgLen(h);
      cbp := Param(AttLen(h), FileLen(h), 0, 0, None);
      known := pending;
      if !IsRpc(h) {
        Prepare2Drain(iov, msgLen + cbp.attLen + cbp.fileLen);
        return;
      }
      if c.checks && iov.user {
        aborted := true;
        return;
      }
      nextRecv := MESSAGE;
      RepostIoVec(iov, msgLen);
      assert Posted() == [IoVec(msgLen, [], iov.user)] && open[HDR_LEN..] == [];
    }

    /** checkEventReady: hand the event over and post the next header, or let the vector go. */
    method CheckEventReady(eventReady: bool, iov: IoVec)
      requires eventReady ==> cbp.cev.Some?
      modifies `nextRecv, `queue, `cbp, `delivered
      ensures if eventReady
        then delivered == old(delivered) + [Delivered(old(cbp.cev.value.message), old(cbp.cev.value.filled),
                                                      old(cbp.cev.value.file))]
             && nextRecv == HEADER && cbp == old(cbp).(cev := None)
             && queue == old(queue) + [IoVec(HDR_LEN, [], iov.user)]
        else delivered == old(delivered) && nextRecv == old(nextRecv) && cbp == old(cbp) && queue == old(queue)
    {
      if eventReady {
        var cev := cbp.cev.value;
        delivered := delivered + [Delivered(cev.message, cev.filled, cev.file)];
        nextRecv := HEADER;
        cbp := cbp.(cev := None);
        RepostIoVec(iov, HDR_LEN);
      }
    }

    /** pushAttachMessage: one vector for each buffer. */
    method PushAttachMessage(mems: seq<nat>)
      modifies `queue, `cbp
      ensures queue == old(queue) + UserVecs(mems)
      ensures cbp == old(cbp).(remainVecs := |mems|)
    {
      var iovs := [];
      for i := 0 to |mems|
        invariant iovs == UserVecs(mems[..i])
      {
        iovs := iovs + [IoVec(mems[i], [], true)];
      }
      assert mems[..|mems|] == mems;
      cbp := cbp.(remainVecs := |mems|);
      queue := queue + iovs;
    }

    method RecvPrepareFileIov()
      modifies `queue, `cbp, `nextRecv
      ensures nextRecv == ATTACHFILE
      ensures queue == old(queue) + [IoVec(if cbp.fileLen <= c.block then cbp.fileLen else c.block, [], false)]
      ensures cbp == old(cbp).(remainVecs := Blocks(cbp.fileLen, c.block))
    {
      var blockSize: nat := c.block;
      if cbp.fileLen <= blockSize {
        blockSize := cbp.fileLen;
      }
      queue := queue + [IoVec(blockSize, [], false)];
      cbp := cbp.(remainVecs := (cbp.fileLen + c.block - 1) / c.block);
      nextRecv := ATTACHFILE;
    }

    /** A message has been accepted, its buffers are chosen, and nothing is posted yet. */
    ghost predicate Accepting(message: Message, sizes: seq<nat>, iov: IoVec)
      reads this
    {
      queue == [] && cur.None? && !aborted && Cuts(c, entries) && received == Wire(entries) + open
      && delivered == Outputs(c, entries) && iov.user == User(c, entries)
      && Taken(c, User(c, entries), known, open) && |open| == HDR_LEN + MsgLen(open) && cbp.cev == None
      && message == VerdictOn(c, known, open).message && sizes == VerdictOn(c, known, open).sizes
      && cbp.attLen == AttLen(open) && cbp.fileLen == FileLen(open)
      && Balanced(delivered, Some(Event(message, [], [])), pending, entered)
    }

    /** The tail of recvReqMsg and recvRspMsg: post what the frame still has to bring. */
    method AwaitRest(message: Message, sizes: seq<nat>, iov: IoVec)
      requires Accepting(message, sizes, iov)
      modifies `nextRecv, `queue, `cbp, `delivered, `entries, `open
      ensures Valid() && Fresh() && nextRecv in {HEADER, ATTACHMENT, ATTACHFILE}
    {
      hide Cuts, User, Outputs, Wire, Whole, Taken, VerdictOn, MsgLen, AttLen, FileLen, Blocks, UserVecs, Balanced,
        Following, FirstBlock;
      RestFollows(c, entries, known, open, message, sizes, cbp, delivered);
      DeliveryKeeps(delivered, Event(message, [], []), pending, entered);
      var eventReady := false;
      cbp := cbp.(cev := Some(Event(message, [], [])));
      if cbp.attLen > 0 {
        AllEmpty(sizes);
        PushAttachMessage(sizes);
        nextRecv := ATTACHMENT;
        assert Posted() == queue == UserVecs(sizes);
        assert Follows(queue);
      } else if cbp.fileLen > 0 {
        RecvPrepareFileIov();
        OneFirstBlock(c, cbp.fileLen);
        assert Posted() == queue == FirstBlock(c, cbp.fileLen);
        assert Follows(queue);
      } else {
        eventReady := true;
        EndFrame();
      }
      hide Follows;
      CheckEventReady(eventReady, iov);
      if eventReady {
        HeaderIsNext(iov);
      }
    }

    /** The next header is all that is posted. */
    lemma HeaderIsNext(iov: IoVec)
      requires queue == [IoVec(HDR_LEN, [], iov.user)] && cur.None? && nextRecv == HEADER && !aborted
      requires received == Wire(entries) + open && Balanced(delivered, cbp.cev, pending, entered)
      requires Following(c, false, entries, known, open, HEADER, [IoVec(HDR_LEN, [], iov.user)], cbp, delivered)
      ensures Valid() && Fresh()
    {
      hide Following, Wire, Balanced;
      assert Posted() == queue;
    }

    /** What the MESSAGE callbacks find: a whole message in the vector, nothing else posted. */
    ghost predicate AtMessage(iov: IoVec)
      reads this
    {
      Cuts(c, entries) && received == Wire(entries) + open && queue == [] && cur.None? && !aborted
      && HasMessage(open) && |open| == HDR_LEN + MsgLen(open) && iov.data == MessageOf(open)
      && !(c.checks && User(c, entries)) && iov.user == User(c, entries)
      && cbp.attLen == AttLen(open) && cbp.fileLen == FileLen(open) && cbp.cev == None
      && delivered == Outputs(c, entries) && known == pending && Balanced(delivered, None, pending, entered)
    }

    method RecvReqMsg(msg: Message, iov: IoVec)
      requires AtMessage(iov) && msg.RequestMessage? && Deserialize(iov.data, Signed32(|iov.data|)) == Some(msg)
      modifies `nextRecv, `queue, `cbp, `delivered, `entries, `open
      ensures Valid() && Fresh() && nextRecv != MESSAGE
      ensures VerdictOn(c, known, old(open)).Take? && VerdictOn(c, known, old(open)).left == pending
    {
      hide IsRpc, MsgLen, AttLen, FileLen, Cuts, User, Outputs, Wire, Deserialize, Balanced;
      RequestKeeps(delivered, pending, entered, msg);
      var sizes := [];
      if cbp.attLen > 0 {
        sizes := AllocAttachIoVecs([], cbp.attLen, c.block);
      }
      AwaitRest(msg, sizes, iov);
    }

    method RecvRspMsg(msg: Message, iov: IoVec)
      requires AtMessage(iov) && msg.ResponseMessage? && Deserialize(iov.data, Signed32(|iov.data|)) == Some(msg)
      modifies `nextRecv, `queue, `cbp, `delivered, `entries, `open, `pending
      ensures Valid() && Fresh() && nextRecv != MESSAGE
      ensures var v := VerdictOn(c, known, old(open)); pending == if v.Take? then v.left else old(pending)
      ensures pending == old(pending) - {Wrap32(msg.response.id)}
    {
      hide IsRpc, MsgLen, AttLen, FileLen, Cuts, User, Outputs, Wire, Deserialize, Balanced;
      var id := Wrap32(msg.response.id);
      if id !in pending {
        Prepare2Drain(iov, cbp.attLen + cbp.fileLen);
        return;
      }
      var sizes := pending[id];
      ResponseKeeps(delivered, pending, entered, msg);
      pending := pending - {id};
      if cbp.attLen > 0 {
        sizes := PrepareRspAttach(sizes, cbp.attLen, c.block);
      } else {
        sizes := [];
      }
      AwaitRest(msg, sizes, iov);
    }

    /** The MESSAGE state: deserialize, and choose between draining and taking the rest of the frame. */
    method RecvMessageCb(iov: IoVec)
      requires Follows([iov] + queue) && cur.None? && iov.Done() && nextRecv == MESSAGE && !aborted
      modifies `nextRecv, `queue, `cbp, `delivered, `entries, `open, `known, `pending
      ensures Valid() && Fresh() && nextRecv != MESSAGE && known == old(pending)
      ensures HasMessage(old(open))
      ensures var v := VerdictOn(c, old(pending), old(open)); pending == if v.Take? then v.left else old(pending)
      ensures match Deserialize(iov.data, Signed32(|iov.data|))
        case Some(ResponseMessage(r)) => pending == old(pending) - {Wrap32(r.id)}
        case _ => pending == old(pending)
    {
      hide IsRpc, MsgLen, AttLen, FileLen, Cuts, User, Outputs, Wire, Deserialize, Balanced;
      assert ([iov] + queue)[0] == iov && queue == [];
      known := pending;
      assert AtMessage(iov);
      var msg := Deserialize(iov.data, Signed32(|iov.data|));
      if msg.None? {
        MalformedKeeps(delivered, cbp.cev, pending, entered, iov.data);
        delivered := delivered + [Malformed(iov.data)];
        Prepare2Drain(iov, cbp.attLen + cbp.fileLen);
      } else if msg.value.RequestMessage? {
        RecvReqMsg(msg.value, iov);
      } else {
        RecvRspMsg(msg.value, iov);
      }
    }

    /** The ATTACHMENT state: count the buffers down; after the last one, the file or the next header. */
    method RecvAttachmentCb(iov: IoVec)
      requires Follows([iov] + queue) && cur.None? && iov.Done() && nextRecv == ATTACHMENT && !aborted
      modifies `nextRecv, `queue, `cbp, `delivered, `entries, `open
      ensures Valid() && Fresh()
      ensures nextRecv in {HEADER, ATTACHFILE} || (nextRecv == ATTACHMENT && queue == old(queue))
    {
      hide Cuts, User, Outputs, Wire, Whole, Balanced, Following;
      BufferFollows(c, entries, known, open, iov, queue, cbp, delivered);
      ghost var ev := cbp.cev.value.(filled := cbp.cev.value.filled + [iov.data]);
      SameMessageKeeps(delivered, cbp.cev.value, ev, pending, entered);
      DeliveryKeeps(delivered, ev, pending, entered);
      cbp := cbp.(remainVecs := cbp.remainVecs - 1,
                  cev := Some(cbp.cev.value.(filled := cbp.cev.value.filled + [iov.data])));
      if cbp.remainVecs == 0 {
        var eventReady := cbp.fileLen == 0;
        if eventReady {
          EndFrame();
        } else {
          RecvPrepareFileIov();
        }
        CheckEventReady(eventReady, iov);
        assert Posted() == if eventReady then [IoVec(HDR_LEN, [], iov.user)] else FirstBlock(c, cbp.fileLen);
      } else {
        assert Posted() == queue;
      }
    }

    /** The ATTACHFILE state: a file of one block ends the frame; after the first block of a longer one nothing is posted. */
    method RecvFileCb(iov: IoVec)
      requires Follows([iov] + queue) && cur.None? && iov.Done() && nextRecv == ATTACHFILE && !aborted
      modifies `nextRecv, `queue, `cbp, `delivered, `entries, `open
      ensures Valid() && Fresh() && iov.size > 0
      ensures old(cbp.fileLen) > c.block ==> Posted() == []
    {
      hide Cuts, User, Outputs, Wire, Whole, Balanced, Following;
      BlockFollows(c, entries, known, open, iov, queue, cbp, delivered);
      ghost var ev := cbp.cev.value.(file := cbp.cev.value.file + iov.data);
      SameMessageKeeps(delivered, cbp.cev.value, ev, pending, entered);
      DeliveryKeeps(delivered, ev, pending, entered);
      cbp := cbp.(cev := Some(cbp.cev.value.(file := cbp.cev.value.file + iov.data)), remainVecs := cbp.remainVecs - 1);
      if cbp.remainVecs == 0 {
        EndFrame();
        CheckEventReady(true, iov);
        assert Posted() == [IoVec(HDR_LEN, [], iov.user)];
      } else {
        assert Posted() == [];
      }
    }

    /** The DRAIN state. */
    method RecvDrainCb(iov: IoVec)
      requires Follows([iov] + queue) && cur.None? && iov.Done() && nextRecv == DRAIN && !aborted
      modifies `nextRecv, `queue, `cbp, `entries, `open
      ensures Valid() && Fresh() && (iov.size == 0 ==> nextRecv == HEADER)
    {
      hide Cuts, User, Outputs, Wire, Whole, Balanced, Following;
      DrainFollows(c, entries, known, open, iov, queue, cbp, delivered);
      cbp := cbp.(remainVecs := cbp.remainVecs - 1);
      if cbp.remainVecs == 0 {
        EndFrame();
        nextRecv := HEADER;
        RepostIoVec(iov, HDR_LEN);
        assert Posted() == [IoVec(HDR_LEN, [], iov.user)];
      } else if cbp.remainVecs == 1 {
        queue := queue + [iov.(size := cbp.drainLen % c.block, data := [])];
        assert Posted() == [iov.(size := cbp.drainLen % c.block, data := [])];
      } else {
        queue := queue + [iov.(data := [])];
        assert Posted() == [iov.(data := [])];
      }
    }

    method RecvCallback(iov: IoVec)
      requires Follows([iov] + queue) && cur.None? && iov.Done() && !aborted
      modifies `nextRecv, `queue, `cbp, `delivered, `entries, `open, `known, `aborted, `pending
      ensures Valid() && Fresh()
      ensures iov.size == 0 ==> Rank(nextRecv) < Rank(old(nextRecv)) || (nextRecv == old(nextRecv) && queue == old(queue))
    {
      hide Follows, Valid, Fresh;
      match nextRecv {
        case HEADER => RecvHeaderCb(iov);
        case MESSAGE => RecvMessageCb(iov);
        case ATTACHMENT => RecvAttachmentCb(iov);
        case ATTACHFILE => RecvFileCb(iov);
        case DRAIN => RecvDrainCb(iov);
      }
    }

    /** Take what the socket has for the current vector; call back once it is full. */
    method RecvvecProgress(data: seq<seq<byte>>) returns (rc: Status, left: seq<seq<byte>>)
      requires Valid() && Fresh() && NonEmpty(data) && (cur.Some? ==> Pristine())
      modifies `nextRecv, `cur, `queue, `cbp, `delivered, `entries, `open, `known, `aborted, `pending, `received
      ensures Valid() && Fresh() && NonEmpty(left) && |Flatten(left)| <= |Flatten(data)|
      ensures received + Flatten(left) == old(received) + Flatten(data)
      ensures rc == NOVEC <==> old(cur.None?)
      ensures rc == NOVEC ==> cur.None? && queue == old(queue) && nextRecv == old(nextRecv) && left == data
      ensures rc == UNAVAIL ==> Quiet() && cur.Some? && left == []
      ensures rc == SUCCESS ==> cur.None? && (|Flatten(left)| < |Flatten(data)| || Rank(nextRecv) < old(Rank(nextRecv))
                                              || (nextRecv == old(nextRecv) && queue == old(queue)))
    {
      hide Follows, Flatten;
      left := data;
      if cur.None? {
        return NOVEC, left;
      }
      while !cur.value.Done() && left != []
        invariant cur.Some? && Valid() && Fresh() && NonEmpty(left) && queue == old(queue) && nextRecv == old(nextRecv)
        invariant received + Flatten(left) == old(received) + Flatten(data)
        invariant !aborted && |cur.value.data| <= cur.value.size
        invariant |Flatten(left)| <= |Flatten(data)|
        invariant cur.value.Done() && cur.value.size > 0 ==> |Flatten(left)| < |Flatten(data)|
        decreases |Flatten(left)|
      {
        left := Recv(left);
      }
      if !cur.value.Done() {
        return UNAVAIL, left;
      }
      var rvec := cur.value;
      assert Posted() == [rvec] + queue;
      cur := None;
      RecvCallback(rvec);
      rc := SUCCESS;
    }

    /** One recv call: some bytes for the current vector, no more than it has room for. */
    method Recv(data: seq<seq<byte>>) returns (left: seq<seq<byte>>)
      requires Valid() && Fresh() && NonEmpty(data) && data != [] && cur.Some? && !aborted
      requires |cur.value.data| < cur.value.size
      modifies `cur, `open, `received
      ensures Valid() && Fresh() && NonEmpty(left) && cur.Some?
      ensures |cur.value.data| <= cur.value.size
      ensures received + Flatten(left) == old(received) + Flatten(data) && |Flatten(left)| < |Flatten(data)|
    {
      hide Cuts, User, Outputs, Wire, Tracks, Reply, Refused, Flatten, Balanced;
      var v := cur.value;
      var bytes;
      bytes, left := TakeBytes(data, v.size - |v.data|);
      assert Posted() == [v] + queue;
      Arrive(c, User(c, entries), known, open, nextRecv, v, queue, cbp, bytes);
      cur := Some(v.(data := v.data + bytes));
      assert received + bytes == Wire(entries) + (open + bytes);
      open := open + bytes;
      received := received + bytes;
      assert Posted() == [cur.value] + queue;
    }

    /** A vector that has just been taken from the queue, or was left short of bytes. */
    ghost predicate Pristine()
      reads this
      requires cur.Some?
    {
      !aborted && |cur.value.data| <= cur.value.size && (cur.value.Done() ==> cur.value.size == 0)
    }

    /** Nothing more can be done with the bytes at hand. */
    ghost predicate Quiet()
      reads this
    {
      if cur.Some? then Pristine() && !cur.value.Done() else queue == []
    }

    /** recvProgress on a readable socket: whatever the chunks, every byte that has a vector to go to is consumed. */
    method RecvProgress(data: seq<seq<byte>>) returns (left: seq<seq<byte>>)
      requires Valid() && Fresh() && NonEmpty(data) && (cur.Some? ==> Pristine())
      modifies `nextRecv, `cur, `queue, `cbp, `delivered, `entries, `open, `known, `aborted, `pending, `received
      ensures Valid() && Fresh() && Quiet() && NonEmpty(left)
      ensures received + Flatten(left) == old(received) + Flatten(data)
      ensures left != [] ==> Posted() == []
    {
      hide Follows, Flatten;
      left := data;
      var recvqEmpty := false;
      while !recvqEmpty
        invariant Valid() && Fresh() && NonEmpty(left) && (cur.Some? ==> Pristine())
        invariant received + Flatten(left) == old(received) + Flatten(data)
        invariant recvqEmpty ==> cur.None? && queue == []
        decreases !recvqEmpty, |Flatten(left)|, Rank(nextRecv), 2 * |queue| + (if cur.Some? then 1 else 0)
      {
        var rc;
        rc, left := RecvvecProgress(left);
        if rc == UNAVAIL {
          break;
        }
        if queue != [] {
          TakeNext();
        } else {
          recvqEmpty := true;
        }
      }
    }

    method TakeNext()
      requires Valid() && Fresh() && cur.None? && queue != []
      modifies `cur, `queue
      ensures Valid() && Fresh() && cur.Some? && Pristine() && queue == old(queue)[1..]
    {
      hide Cuts, User, Outputs, Wire, Tracks, Reply, Refused, Balanced;
      assert Posted() == queue && !aborted;
      cur := Some(queue[0]);
      queue := queue[1..];
      assert Posted() == old(queue);
    }

    /** No more responses to a request are delivered than it has been entered. */
    lemma AnsweredOnce(id: u32)
      requires Valid()
      ensures Answered(delivered, id) <= entered[id]
    {
      hide Cuts, User, Outputs, Wire, Reply, Tracks;
    }

    /** An empty header vector is all that is posted. */
    ghost predicate AtBoundary()
      reads this
    {
      nextRecv == HEADER && !aborted && |Posted()| == 1 && Posted()[0].size == HDR_LEN && Posted()[0].data == []
    }

    lemma BoundaryIsOpenEmpty()
      requires Valid()
      ensures AtBoundary() <==> open == []
    {
      hide Cuts, User, Outputs, Wire, Reply, Balanced;
    }

    /** Once no more can be done, the bytes past the last boundary are not, and never were, a whole frame. */
    lemma QuietMeansOpen()
      requires Valid() && Quiet()
      ensures Cuts(c, entries)
      ensures var l := FrameLen(c, User(c, entries), known, open); l.None? || l.value > |open|
      ensures nextRecv == HEADER && !aborted <==> |open| < HDR_LEN
    {
      hide Cuts, User, Outputs, Wire, Reply, Balanced;
      if !aborted {
        assert cur.Some? ==> Posted()[0] == cur.value;
        OpenFrame(c, User(c, entries), known, open, nextRecv, Posted(), cbp);
      }
    }
  }

  lemma OpenFrame(c: Config, user: bool, known: Expected, open: seq<byte>, part: Part, posted: seq<IoVec>, cbp: Param)
    requires Tracks(c, user, known, open, part, posted, cbp)
    requires posted != [] ==> |posted[0].data| < posted[0].size
    ensures var l := FrameLen(c, user, known, open); l.None? || l.value > |open|
    ensures part == HEADER <==> |open| < HDR_LEN
  {
    hide IsRpc, MsgLen, AttLen, FileLen, Judge;
    match part {
      case HEADER =>
      case MESSAGE =>
      case ATTACHMENT =>
        if posted != [] {
          hide Flatten;
          var sizes, filled := VerdictOn(c, known, open).sizes, cbp.cev.value.filled;
          FillingShort(sizes, filled, posted, open[HDR_LEN + MsgLen(open)..]);
        }
      case ATTACHFILE =>
      case DRAIN =>
        hide Drained;
    }
  }

  lemma FillingShort(sizes: seq<nat>, filled: seq<seq<byte>>, posted: seq<IoVec>, rest: seq<byte>)
    requires Filling(sizes, filled, posted, rest) && |posted[0].data| < posted[0].size
    ensures |rest| < Sum(sizes)
  {
    var n := |filled|;
    PiecesSum(filled, sizes[..n]);
    assert sizes == sizes[..n] + sizes[n..];
    SumAppend(sizes[..n], sizes[n..]);
    assert sizes[n] == posted[0].size;
  }

  /** Parts in the order in which vectors without bytes can lead through them. */
  ghost function Rank(part: Part): nat {
    match part case HEADER => 0 case DRAIN => 1 case ATTACHFILE => 1 case ATTACHMENT => 2 case MESSAGE => 3
  }

  datatype Status = SUCCESS | NOVEC | UNAVAIL

  predicate NonEmpty(data: seq<seq<byte>>) { forall i :: 0 <= i < |data| ==> data[i] != [] }

  /** What one recv call takes from the arrived chunks: a non-empty part of the first, at most room bytes. */
  method TakeBytes(data: seq<seq<byte>>, room: nat) returns (bytes: seq<byte>, left: seq<seq<byte>>)
    requires NonEmpty(data) && data != [] && room > 0
    ensures NonEmpty(left) && 0 < |bytes| <= room && bytes + Flatten(left) == Flatten(data)
  {
    var n := if |data[0]| <= room then |data[0]| else room;
    bytes := data[0][..n];
    left := if n == |data[0]| then data[1..] else [data[0][n..]] + data[1..];
    assert data[0] == bytes + data[0][n..];
    FirstChunk(data[0], data[1..]);
    assert data == [data[0]] + data[1..];
    hide Flatten;
    if n < |data[0]| {
      FirstChunk(data[0][n..], data[1..]);
      assert bytes + (data[0][n..] + Flatten(data[1..])) == data[0] + Flatten(data[1..]);
    } else {
      assert bytes == data[0];
    }
  }

  lemma FirstChunk(first: seq<byte>, more: seq<seq<byte>>)
    ensures Flatten([first] + more) == first + Flatten(more)
  {
    assert ([first] + more)[1..] == more;
  }

  lemma DrainMoves(c: Config, user: bool, known: Expected, open: seq<byte>, iov: IoVec, queue: seq<IoVec>, cbp: Param)
    requires InDrain(c, user, known, open, [iov] + queue, cbp) && iov.Done()
    ensures queue == [] && iov.user == user && cbp.cev == None && cbp.remainVecs >= 1 && Refused(c, user, known, open)
    ensures iov.size == 0 ==> cbp.remainVecs == 1
    ensures cbp.remainVecs == 1 ==> |open| == DrainStart(open) + Skipped(c, DrainAmount(open))
    ensures var next := cbp.(remainVecs := cbp.remainVecs - 1);
      (cbp.remainVecs == 2 ==>
         InDrain(c, user, known, open, [iov.(size := cbp.drainLen % c.block, data := [])], next))
      && (cbp.remainVecs > 2 ==> InDrain(c, user, known, open, [iov.(data := [])], next))
  {
    hide Refused, DrainStart, DrainAmount, Drained, DrainTail;
    assert ([iov] + queue)[0] == iov && queue == [];
    DrainTailStep(cbp.remainVecs, cbp.drainLen, c.block);
  }

  lemma DrainTailStep(remain: nat, len: nat, block: Limit)
    ensures remain == 1 ==> Sum(DrainTail(remain, len, block)) == 0
    ensures remain == 2 ==> Sum(DrainTail(remain, len, block)) == len % block && Sum(DrainTail(1, len, block)) == 0
    ensures remain > 2 ==> Sum(DrainTail(remain, len, block)) == block + Sum(DrainTail(remain - 1, len, block))
  {
  }

  lemma BufferFilled(sizes: seq<nat>, filled: seq<seq<byte>>, v: IoVec, queue: seq<IoVec>, rest: seq<byte>)
    requires Filling(sizes, filled, [v] + queue, rest) && v.Done()
    ensures Flatten(filled + [v.data]) == rest && v.user
    ensures forall i :: 0 <= i < |queue| ==> queue[i].data == []
    ensures forall i :: 0 <= i < |filled| + 1 ==> |(filled + [v.data])[i]| == sizes[i]
    ensures if queue == [] then |filled| + 1 == |sizes| else Filling(sizes, filled + [v.data], queue, rest)
  {
    hide Flatten;
    var was := [v] + queue;
    assert was[0] == v;
    FlattenSnoc(filled, v.data);
    forall i | 0 <= i < |queue|
      ensures queue[i].size == sizes[|filled| + 1 + i] && queue[i].user && queue[i].data == []
    {
      assert queue[i] == was[i + 1];
    }
    if queue != [] {
      assert Flatten(filled + [v.data]) + queue[0].data == rest;
    }
  }

  lemma FileFollows(c: Config, user: bool, known: Expected, open: seq<byte>, posted: seq<IoVec>, cbp: Param)
    requires Taken(c, user, known, open) && cbp.fileLen == FileLen(open) > 0 && cbp.cev.Some?
    requires cbp.cev.value == Event(VerdictOn(c, known, open).message, cbp.cev.value.filled, [])
    requires |cbp.cev.value.filled| == |VerdictOn(c, known, open).sizes|
    requires forall i :: 0 <= i < |cbp.cev.value.filled| ==> |cbp.cev.value.filled[i]| == VerdictOn(c, known, open).sizes[i]
    requires open[HDR_LEN + MsgLen(open)..] == Flatten(cbp.cev.value.filled)
    requires posted == [IoVec(if cbp.fileLen <= c.block then cbp.fileLen else c.block, [], false)]
    requires cbp.remainVecs == Blocks(cbp.fileLen, c.block)
    ensures InFile(c, user, known, open, posted, cbp)
  {
    hide IsRpc, MsgLen, AttLen, FileLen, Judge, Flatten, Split, Blocks;
    var sizes := VerdictOn(c, known, open).sizes;
    PiecesSum(cbp.cev.value.filled, sizes);
    var at := HDR_LEN + MsgLen(open);
    assert |open| == at + Sum(sizes);
    assert open[at..at + Sum(sizes)] == open[at..] && open[at + Sum(sizes)..] == [];
    SplitUnique(open[at..], sizes, cbp.cev.value.filled);
  }

  lemma FileReceived(c: Config, user: bool, known: Expected, open: seq<byte>, iov: IoVec, queue: seq<IoVec>, cbp: Param)
    requires InFile(c, user, known, open, [iov] + queue, cbp) && iov.Done()
    ensures queue == [] && iov.size > 0 && cbp.cev.Some?
    ensures cbp.remainVecs >= 1 && (cbp.remainVecs == 1 <==> cbp.fileLen <= c.block)
    ensures var e, ev := Entry(open, known), cbp.cev.value;
      if cbp.fileLen <= c.block
      then Whole(c, user, e) && !UserNext(c, user, e) && !iov.user
           && Meaning(c, user, e) == [Delivered(ev.message, ev.filled, ev.file + iov.data)]
      else InFile(c, user, known, open, [], cbp.(cev := Some(ev.(file := ev.file + iov.data)),
                                                 remainVecs := cbp.remainVecs - 1))
  {
    hide IsRpc, MsgLen, AttLen, FileLen, Judge, Flatten, Split, Blocks, Whole, Meaning, UserNext, Taken, VerdictOn;
    assert ([iov] + queue)[0] == iov && queue == [];
    OneBlock(cbp.fileLen, c.block);
    if cbp.fileLen <= c.block {
      var ev := cbp.cev.value;
      FileIsWhole(c, user, known, open, iov, cbp.(cev := Some(ev.(file := ev.file + iov.data))));
    }
  }

  lemma FileIsWhole(c: Config, user: bool, known: Expected, open: seq<byte>, iov: IoVec, cbp: Param)
    requires Taken(c, user, known, open) && 0 < cbp.fileLen == FileLen(open) <= c.block && cbp.cev.Some?
    requires var at := HDR_LEN + MsgLen(open);
      var file := at + Sum(VerdictOn(c, known, open).sizes);
      |open| >= file && cbp.cev.value.filled == Split(open[at..file], VerdictOn(c, known, open).sizes)
      && cbp.cev.value.message == VerdictOn(c, known, open).message
      && iov.data == open[file..] == cbp.cev.value.file && |iov.data| == cbp.fileLen
    ensures var e := Entry(open, known);
      Whole(c, user, e) && !UserNext(c, user, e)
      && Meaning(c, user, e) == [Delivered(cbp.cev.value.message, cbp.cev.value.filled, cbp.cev.value.file)]
  {
    hide IsRpc, MsgLen, AttLen, FileLen, Judge, Flatten, Split;
    var sizes := VerdictOn(c, known, open).sizes;
    var at := HDR_LEN + MsgLen(open);
    var file := at + Sum(sizes);
    assert open[at..] == open[at..file] + open[file..];
    TakenIsWhole(c, user, known, open, cbp.cev.value.message, cbp.cev.value.filled, iov.data);
  }

  function UserVecs(mems: seq<nat>): (r: seq<IoVec>)
    ensures |r| == |mems|
    ensures forall i :: 0 <= i < |mems| ==> r[i] == IoVec(mems[i], [], true)
  {
    seq(|mems|, i requires 0 <= i < |mems| => IoVec(mems[i], [], true))
  }

  lemma AllEmpty(mems: seq<nat>)
    ensures forall i :: 0 <= i < |UserVecs(mems)| ==> UserVecs(mems)[i].data == []
  {
  }

  lemma AttachmentIsTracked(c: Config, user: bool, known: Expected, open: seq<byte>, posted: seq<IoVec>, cbp: Param)
    requires Taken(c, user, known, open) && |open| == HDR_LEN + MsgLen(open) && AttLen(open) > 0
    requires posted == UserVecs(VerdictOn(c, known, open).sizes) && cbp.remainVecs == |posted|
    requires cbp.fileLen == FileLen(open) && cbp.cev == Some(Event(VerdictOn(c, known, open).message, [], []))
    ensures InAttachment(c, user, known, open, posted, cbp)
  {
    hide IsRpc, MsgLen, AttLen, FileLen, Judge;
    assert VerdictOn(c, known, open) == Judge(c, known, AttLen(open), MessageOf(open));
    assert open[HDR_LEN + MsgLen(open)..] == [];
  }

  lemma FileIsTracked(c: Config, user: bool, known: Expected, open: seq<byte>, posted: seq<IoVec>, cbp: Param)
    requires Taken(c, user, known, open) && |open| == HDR_LEN + MsgLen(open) && AttLen(open) == 0
    requires cbp.fileLen == FileLen(open) > 0 && cbp.remainVecs == Blocks(cbp.fileLen, c.block)
    requires posted == [IoVec(if cbp.fileLen <= c.block then cbp.fileLen else c.block, [], false)]
    requires cbp.cev == Some(Event(VerdictOn(c, known, open).message, [], []))
    ensures InFile(c, user, known, open, posted, cbp)
  {
    hide IsRpc, MsgLen, AttLen, FileLen, Blocks, Judge;
    assert VerdictOn(c, known, open) == Judge(c, known, AttLen(open), MessageOf(open));
    var at := HDR_LEN + MsgLen(open);
    assert open[at..at] == [] && open[at..] == [];
  }

  lemma MessageAloneIsWhole(c: Config, user: bool, known: Expected, s: seq<byte>, m: Message)
    requires Taken(c, user, known, s) && |s| == HDR_LEN + MsgLen(s) && AttLen(s) == FileLen(s) == 0
    requires VerdictOn(c, known, s).message == m
    ensures Whole(c, user, Entry(s, known)) && Meaning(c, user, Entry(s, known)) == [Delivered(m, [], [])]
    ensures UserNext(c, user, Entry(s, known)) == user
  {
    hide IsRpc, MsgLen, AttLen, FileLen, Judge;
    assert VerdictOn(c, known, s) == Judge(c, known, AttLen(s), MessageOf(s));
    assert s[HDR_LEN + MsgLen(s)..] == Flatten([]) + [];
    TakenIsWhole(c, user, known, s, m, [], []);
  }

  lemma DrainIsTracked(c: Config, user: bool, known: Expected, open: seq<byte>, posted: seq<IoVec>, cbp: Param)
    requires Refused(c, user, known, open) && |open| == DrainStart(open) && cbp.cev == None
    requires cbp.drainLen == DrainAmount(open) > 0 && cbp.remainVecs == Blocks(cbp.drainLen, c.block)
    requires posted == [IoVec(if c.block > cbp.drainLen then cbp.drainLen else c.block, [], user)]
    ensures InDrain(c, user, known, open, posted, cbp)
  {
    hide IsRpc, MsgLen, AttLen, FileLen, Judge, Drained, Blocks;
    BlocksBounds(cbp.drainLen, c.block);
    DrainBegins(cbp.drainLen, c.block);
  }

  lemma DrainBegins(len: nat, block: Limit)
    requires len > 0
    ensures Drained(len, block) == (if block > len then len else block) + Sum(DrainTail(Blocks(len, block), len, block))
    ensures Blocks(len, block) >= 2 ==> len >= block
  {
    BlocksStep(len, block);
    var first := if block > len then len else block;
    assert DrainSizes(len, block)[1..] == DrainTail(Blocks(len, block), len, block);
  }
}
