/**
 * Messages sent by makeRpcMessage and prepareIovecs (lfutil/src/net/iovutil.cpp) and received by the callback state
 * machine: what arrives is what was sent, frame by frame, however the stream is cut.
 */
module Framing {
  import opened Words
  import opened Sizing
  import opened Messages
  import opened Frames
  import opened Receiver

  /** A message with its attachment buffers and the bytes of its attached file. */
  datatype MsgDesc = MsgDesc(message: Message, attachMems: seq<seq<byte>>, file: seq<byte>)
  {
    /** What the wire format can carry: 31 bits of attachment, 64 bits of file. */
    predicate Sendable() {
      message.Valid() && |Flatten(attachMems)| < TWO31 && |file| < TWO64
    }

    function Attachment(): seq<byte> { Flatten(attachMems) }
  }

  function HeaderBytes(pad: seq<byte>, msgLen: u64, attLen: u64, fileLen: u64): (h: seq<byte>)
    requires |pad| == 4
    ensures |h| == HDR_LEN
  {
    RPC + pad + Le64(msgLen) + Le64(attLen) + Le64(fileLen)
  }

  /** One frame on the wire; the four bytes after the type string are never written. */
  function Encode(md: MsgDesc, pad: seq<byte>): (s: seq<byte>)
    requires md.Sendable() && |pad| == 4
    ensures |s| == HDR_LEN + |MessageBytes(md.message)| + |md.Attachment()| + |md.file|
  {
    HeaderBytes(pad, |MessageBytes(md.message)|, |md.Attachment()|, |md.file|)
    + MessageBytes(md.message) + md.Attachment() + md.file
  }

  /** The fields of the header, written where they stand. */
  method FillHeader(hdr: array<byte>, msgLen: u64, attLen: u64, fileLen: u64)
    requires hdr.Length >= HDR_LEN
    modifies hdr
    ensures hdr[..] == HeaderBytes(old(hdr[4..8]), msgLen, attLen, fileLen) + old(hdr[HDR_LEN..])
  {
    hide Le64;
    ghost var was := hdr[..];
    Store(hdr, 0, RPC);
    Store(hdr, 8, Le64(msgLen));
    Store(hdr, 16, Le64(attLen));
    Store(hdr, 24, Le64(fileLen));
    HeaderSplices(was, Le64(msgLen), Le64(attLen), Le64(fileLen));
    assert was[4..8] == old(hdr[4..8]) && was[HDR_LEN..] == old(hdr[HDR_LEN..]);
  }

  lemma HeaderSplices(was: seq<byte>, m: seq<byte>, a: seq<byte>, f: seq<byte>)
    requires |was| >= HDR_LEN && |m| == |a| == |f| == 8
    ensures Splice(Splice(Splice(Splice(was, 0, RPC), 8, m), 16, a), 24, f)
         == RPC + was[4..8] + m + a + f + was[HDR_LEN..]
  {
    var first := Splice(was, 0, RPC);
    SpliceTwice(first, 8, m, a);
    SpliceTwice(first, 8, m + a, f);
    assert first[..8] == RPC + was[4..8] && first[HDR_LEN..] == was[HDR_LEN..];
  }

  /** makeRpcMessage: header and message in one buffer. */
  method MakeRpcMessage(md: MsgDesc) returns (hdr: array<byte>)
    requires md.Sendable()
    ensures fresh(hdr) && hdr.Length >= HDR_LEN
    ensures hdr[..] + md.Attachment() + md.file == Encode(md, hdr[4..8])
  {
    hide Le64, RequestBytes, ResponseBytes;
    var attLen := 0;
    for i := 0 to |md.attachMems|
      invariant attLen == |Flatten(md.attachMems[..i])|
    {
      FlattenPrefix(md.attachMems, i);
      attLen := attLen + |md.attachMems[i]|;
    }
    assert md.attachMems[..|md.attachMems|] == md.attachMems;
    var msgLen := if md.message.RequestMessage? then REQUEST_SIZE else RESPONSE_SIZE;
    hdr := new byte[HDR_LEN + msgLen];
    ghost var pad := hdr[4..8];
    ghost var head := HeaderBytes(pad, msgLen, attLen, |md.file|);
    FillHeader(hdr, msgLen, attLen, |md.file|);
    var rc;
    match md.message {
      case RequestMessage(r) => rc := SerializeRequest(r, hdr, HDR_LEN, msgLen);
      case ResponseMessage(r) => rc := SerializeResponse(r, hdr, HDR_LEN, msgLen);
    }
    assert hdr[..] == head + MessageBytes(md.message);
    assert hdr[4..8] == pad;
  }

  /** The header: type string, four bytes never written, and the three lengths. */
  lemma HeaderLayout(md: MsgDesc, pad: seq<byte>)
    requires md.Sendable() && |pad| == 4
    ensures var s := Encode(md, pad);
      s[..4] == ['r' as int, 'p' as int, 'c' as int, 0] && s[4..8] == pad && s[8..16] == Le64(|MessageBytes(md.message)|)
      && s[16..24] == Le64(|md.Attachment()|) && s[24..32] == Le64(|md.file|)
      && s[32..] == MessageBytes(md.message) + md.Attachment() + md.file
  {
    hide Le64, RequestBytes, ResponseBytes;
    var m, a, f := |MessageBytes(md.message)|, |md.Attachment()|, |md.file|;
    var s := Encode(md, pad);
    var head := HeaderBytes(pad, m, a, f);
    assert s[..32] == head;
    assert s[..4] == head[..4] && s[4..8] == head[4..8] && s[8..16] == head[8..16] && s[16..24] == head[16..24];
    assert s[24..32] == head[24..32];
  }

  // ---------- reading the header back

  lemma HeaderRoundTrip(md: MsgDesc, pad: seq<byte>, rest: seq<byte>)
    requires md.Sendable() && |pad| == 4
    ensures var s := Encode(md, pad) + rest;
      IsRpc(s) && HasMessage(s) && MessageOf(s) == MessageBytes(md.message)
      && MsgLen(s) == |MessageBytes(md.message)| && AttLen(s) == |md.Attachment()| && FileLen(s) == |md.file|
  {
    hide Le64, FromLe64, RequestBytes, ResponseBytes;
    var s := Encode(md, pad) + rest;
    var m, a, f := |MessageBytes(md.message)|, |md.Attachment()|, |md.file|;
    var head := HeaderBytes(pad, m, a, f);
    assert s[..HDR_LEN] == head;
    assert s[..4] == head[..4] && s[8..16] == head[8..16] && s[16..24] == head[16..24] && s[24..32] == head[24..32];
    assert head[..4] == RPC && head[8..16] == Le64(m) && head[16..24] == Le64(a) && head[24..32] == Le64(f);
    Le64RoundTrip(m);
    Le64RoundTrip(a);
    Le64RoundTrip(f);
    assert s[HDR_LEN..HDR_LEN + m] == MessageBytes(md.message);
  }

  // ---------- when a frame is cut where it was sent

  /** Whether the receiver takes the message: a request always, a response if its request is known. */
  predicate Accepted(known: Expected, m: Message) { m.RequestMessage? || Wrap32(m.response.id) in known }

  /** The receiver takes exactly the bytes that were sent. */
  predicate Fits(c: Config, known: Expected, md: MsgDesc) {
    var att := |md.Attachment()|;
    if Accepted(known, md.message) then
      |md.file| <= c.block
      && (att > 0 && md.message.ResponseMessage? ==>
            var sum := Sum(known[Wrap32(md.message.response.id)]);
            Wrap32(sum) > att || sum < TWO32)
    else
      var skip := att + |md.file|;
      skip <= c.block || skip % c.block != 0
  }

  /** In other words: a file of one block and no overflow in the buffer sizes, or a drain that does not stop early. */
  lemma FitsIs(c: Config, known: Expected, md: MsgDesc)
    ensures var att, file := |md.Attachment()|, |md.file|;
      match md.message
      case RequestMessage(_) => Accepted(known, md.message) && (Fits(c, known, md) <==> file <= c.block)
      case ResponseMessage(r) =>
        var id := r.id % TWO32;
        (Accepted(known, md.message) <==> id in known)
        && (Fits(c, known, md)
            <==> if id in known then
                   file <= c.block && (att > 0 ==> Sum(known[id]) % TWO32 > att || Sum(known[id]) < TWO32)
                 else att + file <= c.block || (att + file) % c.block != 0)
  {
    hide Flatten, Sum;
  }

  /** The buffers an accepted attachment goes into. */
  function BuffersFor(c: Config, known: Expected, md: MsgDesc): seq<nat>
    requires md.Sendable() && Accepted(known, md.message)
  {
    var att := |md.Attachment()|;
    if att == 0 then []
    else if md.message.RequestMessage? then Sizes(att, c.block)
    else ResponseSizes(known[Wrap32(md.message.response.id)], att, c.block)
  }

  /** Which buffers those are: the receiver's own blocks for a request, the caller's first for a response. */
  lemma BuffersAre(c: Config, known: Expected, md: MsgDesc)
    requires md.Sendable() && Accepted(known, md.message) && md.Attachment() != []
    ensures var att, r := |md.Attachment()|, BuffersFor(c, known, md);
      if md.message.RequestMessage? then
        Sum(r) == att && (forall i :: 0 <= i < |r| ==> 0 < r[i] <= c.block)
        && forall i :: 0 <= i < |r| - 1 ==> r[i] == c.block
      else
        var user := known[Wrap32(md.message.response.id)];
        Sum(user) < TWO32 ==>
          Sum(r) == att
          && (if Sum(user) > att then
                |r| == |user|
                && forall i :: 0 <= i < |r| ==>
                     var rest := att - Sum(user[..i]);
                     r[i] == if rest <= 0 then 0 else if user[i] > rest then rest else user[i]
              else
                user <= r && (forall i :: |user| <= i < |r| ==> 0 < r[i] <= c.block)
                && forall i :: |user| <= i < |r| - 1 ==> r[i] == c.block)
  {
    hide Sizes;
    var att := |md.Attachment()|;
    if md.message.RequestMessage? {
      SizesAreFull(att, c.block);
    } else if Sum(known[Wrap32(md.message.response.id)]) < TWO32 {
      ResponseBuffersAre(known[Wrap32(md.message.response.id)], att, c.block);
    }
  }

  lemma ResponseBuffersAre(user: seq<nat>, att: nat, block: Limit)
    requires 0 < att < TWO31 && Sum(user) < TWO32
    ensures var r := ResponseSizes(user, att, block);
      Sum(r) == att
      && (if Sum(user) > att then
            |r| == |user|
            && forall i :: 0 <= i < |r| ==>
                 var rest := att - Sum(user[..i]);
                 r[i] == if rest <= 0 then 0 else if user[i] > rest then rest else user[i]
          else
            user <= r && (forall i :: |user| <= i < |r| ==> 0 < r[i] <= block)
            && forall i :: |user| <= i < |r| - 1 ==> r[i] == block)
  {
    ResponseSizesConserve(user, att, block);
    ResponseSizesRespectCaller(user, att, block);
    if Sum(user) > att {
      ResponseTruncates(user, att, block);
      hide ResponseSizes;
      forall i | 0 <= i < |user|
        ensures var rest := att - Sum(user[..i]);
          Truncate(user, att)[i] == if rest <= 0 then 0 else if user[i] > rest then rest else user[i]
      {
        hide Truncate, Sum;
        TruncateFills(user, att, i);
      }
    } else {
      hide ResponseSizes, Sum;
    }
  }

  lemma ResponseTruncates(user: seq<nat>, att: nat, block: Limit)
    requires 0 < att < TWO31 && att < Sum(user) < TWO32
    ensures ResponseSizes(user, att, block) == Truncate(user, att)
  {
    hide Truncate, Sizes;
  }

  lemma ShortLength(m: Message)
    ensures Signed32(|MessageBytes(m)|) == |MessageBytes(m)|
  {
    hide RequestBytes, ResponseBytes;
    assert |MessageBytes(m)| in {REQUEST_SIZE, RESPONSE_SIZE};
  }

  lemma JudgeEncoded(c: Config, known: Expected, md: MsgDesc, pad: seq<byte>, rest: seq<byte>)
    requires md.Sendable() && |pad| == 4
    ensures var s := Encode(md, pad) + rest;
      HasMessage(s)
      && (if Accepted(known, md.message)
          then VerdictOn(c, known, s).Take? && VerdictOn(c, known, s).message == md.message.Seen()
               && VerdictOn(c, known, s).sizes == BuffersFor(c, known, md)
          else VerdictOn(c, known, s) == Refuse([]))
  {
    hide MessageBytes, Deserialize, Encode, MsgLen, AttLen, FileLen;
    HeaderRoundTrip(md, pad, rest);
    var bytes := MessageBytes(md.message);
    ShortLength(md.message);
    MessageRoundTrip(md.message, [], Signed32(|bytes|));
    assert bytes + [] == bytes;
  }

  /** The exact condition under which a frame is cut where its sender ended it. */
  lemma CutAsSent(c: Config, user: bool, known: Expected, md: MsgDesc, pad: seq<byte>, rest: seq<byte>)
    requires md.Sendable() && |pad| == 4
    ensures FrameLen(c, user, known, Encode(md, pad) + rest) == Some(|Encode(md, pad)|)
       <==> !(c.checks && user) && Fits(c, known, md)
  {
    hide MessageBytes, Judge, VerdictOn, MsgLen, AttLen, FileLen, IsRpc, HasMessage, Drained, ResponseSizes;
    HeaderRoundTrip(md, pad, rest);
    JudgeEncoded(c, known, md, pad, rest);
    var att := |md.Attachment()|;
    if Accepted(known, md.message) {
      if att > 0 && md.message.ResponseMessage? {
        ResponseSizesConserve(known[Wrap32(md.message.response.id)], att, c.block);
      }
    } else if att + |md.file| > 0 {
      DrainedExactly(att + |md.file|, c.block);
    }
  }

  // ---------- runs

  /** A frame as it goes out: what was sent and the bytes that were never written. */
  datatype Sent = Sent(md: MsgDesc, pad: seq<byte>)
  {
    predicate Ok() { md.Sendable() && |pad| == 4 }

    function Bytes(): seq<byte>
      requires Ok()
    {
      Encode(md, pad)
    }

    function Header(): seq<byte>
      requires Ok()
    {
      Bytes()[..HDR_LEN]
    }

    /** Its last receive vector was made for an attachment buffer. */
    predicate EndsInAttachment() { |md.Attachment()| > 0 && md.file == [] }
  }

  predicate AllOk(fs: seq<Sent>) { forall i :: 0 <= i < |fs| ==> fs[i].Ok() }

  function Stream(fs: seq<Sent>): seq<byte>
    requires AllOk(fs)
  {
    if fs == [] then [] else fs[0].Bytes() + Stream(fs[1..])
  }

  /** Two ways to cut the first frame off the same stream agree. */
  lemma SameFirstFrame(c: Config, user: bool, e: Entry, more: seq<byte>, f: Sent, rest: seq<byte>)
    requires f.Ok() && Whole(c, user, e) && e.bytes + more == f.Bytes() + rest
    requires Fits(c, e.known, f.md)
    ensures e.bytes == f.Bytes() && more == rest && !(c.checks && user)
  {
    hide Fits, Encode;
    var s := e.bytes + more;
    FrameLenStable(c, user, e.known, e.bytes, more);
    CutAsSent(c, user, e.known, f.md, f.pad, rest);
    HeaderRoundTrip(f.md, f.pad, rest);
    NotTrapped(c, user, e.known, s);
    assert s[..|e.bytes|] == e.bytes && s[..|f.Bytes()|] == f.Bytes();
    assert s[|e.bytes|..] == more && s[|f.Bytes()|..] == rest;
  }

  lemma NotTrapped(c: Config, user: bool, known: Expected, s: seq<byte>)
    requires FrameLen(c, user, known, s).Some? && IsRpc(s)
    ensures !(c.checks && user)
  {
  }

  lemma WholeIsLong(c: Config, user: bool, e: Entry)
    requires Whole(c, user, e)
    ensures |e.bytes| >= HDR_LEN
  {
    hide IsRpc, MsgLen, AttLen, FileLen, Judge, Skipped;
  }

  /** Every frame the receiver has cut is the frame that was sent in its place. */
  lemma {:induction false} FramesMatch(c: Config, es: seq<Entry>, more: seq<byte>, fs: seq<Sent>)
    requires Cuts(c, es) && AllOk(fs) && Wire(es) + more == Stream(fs)
    requires forall i :: 0 <= i < |es| && i < |fs| ==> Fits(c, es[i].known, fs[i].md)
    ensures |es| <= |fs| && more == Stream(fs[|es|..])
    ensures forall i :: 0 <= i < |es| ==> es[i].bytes == fs[i].Bytes()
    ensures es != [] ==> !(c.checks && User(c, es[..|es| - 1]))
    decreases |es|
  {
    hide Fits, Meaning, UserNext, Whole, Stream, Cuts, User, Wire, Encode, Sent.Ok, Sent.Bytes;
    if es == [] {
      NoneMatched(es, more, fs);
    } else {
      var init, last := es[..|es| - 1], es[|es| - 1];
      LastEntry(c, es, more);
      FramesMatch(c, init, last.bytes + more, fs);
      MatchNext(c, User(c, init), last, more, fs, |init|);
      forall i | 0 <= i < |es|
        ensures es[i].bytes == fs[i].Bytes()
      {
        if i < |init| {
          assert es[i] == init[i];
        }
      }
    }
  }

  lemma MatchNext(c: Config, user: bool, e: Entry, more: seq<byte>, fs: seq<Sent>, k: nat)
    requires AllOk(fs) && k <= |fs| && Whole(c, user, e) && e.bytes + more == Stream(fs[k..])
    requires k < |fs| ==> Fits(c, e.known, fs[k].md)
    ensures k < |fs| && e.bytes == fs[k].Bytes() && more == Stream(fs[k + 1..]) && !(c.checks && user)
  {
    hide Fits, Whole, Stream, Encode;
    WholeIsLong(c, user, e);
    StreamStep(fs, k);
    SameFirstFrame(c, user, e, more, fs[k], Stream(fs[k + 1..]));
  }

  lemma NoneMatched(es: seq<Entry>, more: seq<byte>, fs: seq<Sent>)
    requires es == [] && AllOk(fs) && Wire(es) + more == Stream(fs)
    ensures more == Stream(fs[0..])
  {
    assert fs[0..] == fs && Wire(es) + more == more;
  }

  lemma LastEntry(c: Config, es: seq<Entry>, more: seq<byte>)
    requires Cuts(c, es) && es != []
    ensures var init, last := es[..|es| - 1], es[|es| - 1];
      Cuts(c, init) && Whole(c, User(c, init), last) && Wire(es) + more == Wire(init) + (last.bytes + more)
      && User(c, es) == UserNext(c, User(c, init), last)
      && Outputs(c, es) == Outputs(c, init) + Meaning(c, User(c, init), last)
  {
  }

  lemma StreamStep(fs: seq<Sent>, i: nat)
    requires AllOk(fs) && i <= |fs|
    ensures Stream(fs[i..]) == if i < |fs| then fs[i].Bytes() + Stream(fs[i + 1..]) else []
  {
    if i < |fs| {
      assert fs[i..][1..] == fs[i + 1..];
    }
  }

  /**
   * However the stream is cut into chunks, and wherever it has got to: the frames received are the first frames sent,
   * and what is left over is a proper part of the next one.
   */
  lemma Reception(conn: Conn, fs: seq<Sent>, rest: seq<byte>)
    requires conn.Valid() && conn.Quiet() && AllOk(fs) && conn.received + rest == Stream(fs)
    requires forall i :: 0 <= i < |conn.entries| && i < |fs| ==> Fits(conn.c, conn.entries[i].known, fs[i].md)
    requires |conn.entries| < |fs| ==> Fits(conn.c, conn.known, fs[|conn.entries|].md)
    ensures Cuts(conn.c, conn.entries)
    ensures var n := |conn.entries|;
      n <= |fs| && conn.open + rest == Stream(fs[n..])
      && (forall i :: 0 <= i < n ==> conn.entries[i].bytes == fs[i].Bytes())
      && (n < |fs| && !(conn.c.checks && User(conn.c, conn.entries)) ==> |conn.open| < |fs[n].Bytes()|)
      && (n == |fs| ==> conn.open == rest == [])
    ensures conn.AtBoundary() <==> conn.open == []
  {
    hide Fits, Cuts, User, Outputs, Wire, Stream, Encode, Tracks, Reply;
    conn.QuietMeansOpen();
    conn.BoundaryIsOpenEmpty();
    var n := |conn.entries|;
    assert Wire(conn.entries) + (conn.open + rest) == Stream(fs);
    FramesMatch(conn.c, conn.entries, conn.open + rest, fs);
    StreamStep(fs, n);
    if n < |fs| && !(conn.c.checks && User(conn.c, conn.entries)) {
      OpenIsShort(conn.c, User(conn.c, conn.entries), conn.known, conn.open, rest, fs[n], Stream(fs[n + 1..]));
    }
  }

  lemma OpenIsShort(c: Config, user: bool, known: Expected, open: seq<byte>, rest: seq<byte>, f: Sent, more: seq<byte>)
    requires var l := FrameLen(c, user, known, open); l.None? || l.value > |open|
    requires f.Ok() && open + rest == f.Bytes() + more && !(c.checks && user) && Fits(c, known, f.md)
    ensures |open| < |f.Bytes()|
  {
    hide Fits, Encode, FrameLen;
    if |open| >= |f.Bytes()| {
      var t := open[|f.Bytes()|..];
      assert open == (open + rest)[..|open|] && f.Bytes() == (open + rest)[..|f.Bytes()|];
      assert open == f.Bytes() + t;
      CutAsSent(c, user, known, f.md, f.pad, t);
    }
  }

  // ---------- requests

  predicate Requests(c: Config, fs: seq<Sent>) {
    forall i :: 0 <= i < |fs| ==> fs[i].Ok() && fs[i].md.message.RequestMessage? && |fs[i].md.file| <= c.block
  }

  /** What a request brings: the message, its attachment bytes in blocks, and its file. */
  function Arrival(c: Config, md: MsgDesc): Output {
    var att := md.Attachment();
    Delivered(md.message.Seen(), Split(att, if att == [] then [] else Sizes(|att|, c.block)), md.file)
  }

  /** Nothing of a request is missing: its message as a peer sees it, all attachment bytes in order, and its file. */
  lemma ArrivalIs(c: Config, md: MsgDesc)
    ensures var a := Arrival(c, md);
      a.Delivered? && a.body == md.message.Seen() && Flatten(a.attachments) == md.Attachment() && a.file == md.file
      && forall i :: 0 <= i < |a.attachments| ==> 0 < |a.attachments[i]| <= c.block
  {
  }

  /** Nor of anything accepted, while what is not accepted brings nothing. */
  lemma DeliveryIs(c: Config, known: Expected, md: MsgDesc)
    requires md.Sendable() && WholeAttachment(c, known, md)
    ensures var d := Delivery(c, known, md);
      if Accepted(known, md.message) then
        |d| == 1 && d[0].Delivered? && d[0].body == md.message.Seen() && d[0].file == md.file
        && Flatten(d[0].attachments) == md.Attachment() && |d[0].attachments| == |BuffersFor(c, known, md)|
        && forall i :: 0 <= i < |d[0].attachments| ==> |d[0].attachments[i]| == BuffersFor(c, known, md)[i]
      else d == []
  {
  }

  /** What any sent frame delivers where it is cut as sent: nothing if refused, else all of it, in the receiver's buffers. */
  lemma FrameMeaning(c: Config, user: bool, e: Entry, f: Sent)
    requires f.Ok() && e.bytes == f.Bytes() && Whole(c, user, e)
    ensures !(c.checks && user)
    ensures Accepted(e.known, f.md.message) ==> |f.md.Attachment()| == Sum(BuffersFor(c, e.known, f.md))
    ensures Meaning(c, user, e)
         == if Accepted(e.known, f.md.message)
            then [Delivered(f.md.message.Seen(), Split(f.md.Attachment(), BuffersFor(c, e.known, f.md)), f.md.file)]
            else []
    ensures UserNext(c, user, e)
         == if !Accepted(e.known, f.md.message) then user
            else if f.md.file != [] then false else if f.md.Attachment() != [] then true else user
  {
    hide Le64, RequestBytes, MsgLen, AttLen, FileLen, IsRpc, Judge, VerdictOn, Split, Flatten, BuffersFor, Accepted;
    var s := e.bytes;
    assert f.Bytes() + [] == s;
    HeaderRoundTrip(f.md, f.pad, []);
    JudgeEncoded(c, e.known, f.md, f.pad, []);
    NotTrapped(c, user, e.known, s);
    var att := HDR_LEN + |MessageBytes(f.md.message)|;
    var file := att + |f.md.Attachment()|;
    assert s[att..file] == f.md.Attachment() && s[file..] == f.md.file;
  }

  lemma RequestMeaning(c: Config, user: bool, e: Entry, f: Sent)
    requires f.Ok() && f.md.message.RequestMessage? && e.bytes == f.Bytes() && Whole(c, user, e)
    ensures Meaning(c, user, e) == [Arrival(c, f.md)] && !(c.checks && user)
    ensures UserNext(c, user, e) == if f.md.file != [] then false else if f.md.Attachment() != [] then true else user
  {
    hide Meaning, UserNext, Whole, Split, Flatten;
    FrameMeaning(c, user, e, f);
  }

  lemma {:induction false} RequestOutputs(c: Config, es: seq<Entry>, fs: seq<Sent>)
    requires Cuts(c, es) && Requests(c, fs) && |es| <= |fs|
    requires forall i :: 0 <= i < |es| ==> es[i].bytes == fs[i].Bytes()
    ensures |Outputs(c, es)| == |es|
    ensures forall i :: 0 <= i < |es| ==> Outputs(c, es)[i] == Arrival(c, fs[i].md)
  {
    hide Whole, Meaning, UserNext, Arrival, MsgDesc.Attachment, Sent.Bytes, Sent.Ok, Requests, User, Wire;
    if es != [] {
      var init, last := es[..|es| - 1], es[|es| - 1];
      LastEntry(c, es, []);
      assert forall i :: 0 <= i < |init| ==> init[i] == es[i];
      RequestOutputs(c, init, fs);
      RequestsAt(c, fs, |init|);
      RequestMeaning(c, User(c, init), last, fs[|init|]);
    }
  }

  lemma {:induction false} RequestTraps(c: Config, es: seq<Entry>, fs: seq<Sent>)
    requires Cuts(c, es) && Requests(c, fs) && |es| <= |fs| && c.checks
    requires forall i :: 0 <= i < |es| ==> es[i].bytes == fs[i].Bytes()
    ensures forall i :: 0 <= i < |es| - 1 ==> !fs[i].EndsInAttachment()
    ensures User(c, es) <==> es != [] && fs[|es| - 1].EndsInAttachment()
  {
    hide Whole, Meaning, UserNext, Outputs, Arrival, MsgDesc.Attachment, Sent.Bytes, Sent.Ok, Requests, Wire;
    if es != [] {
      var init, last := es[..|es| - 1], es[|es| - 1];
      LastEntry(c, es, []);
      assert forall i :: 0 <= i < |init| ==> init[i] == es[i];
      RequestTraps(c, init, fs);
      RequestsAt(c, fs, |init|);
      RequestMeaning(c, User(c, init), last, fs[|init|]);
    }
  }

  lemma RequestsAt(c: Config, fs: seq<Sent>, i: nat)
    requires Requests(c, fs) && i < |fs|
    ensures fs[i].Ok() && fs[i].md.message.RequestMessage? && |fs[i].md.file| <= c.block
  {
  }

  /** Requests with their attachments and files of one block arrive complete, in order, and as soon as they can. */
  lemma RequestsArrive(conn: Conn, fs: seq<Sent>, rest: seq<byte>)
    requires conn.Valid() && conn.Quiet() && Requests(conn.c, fs) && conn.received + rest == Stream(fs)
    ensures var n := |conn.entries|;
      n <= |fs| && |conn.delivered| == n
      && (forall i :: 0 <= i < n ==> conn.delivered[i] == Arrival(conn.c, fs[i].md))
      && conn.open + rest == Stream(fs[n..])
      && (n < |fs| && !conn.aborted ==> |conn.open| < |fs[n].Bytes()|)
    ensures conn.AtBoundary() <==> conn.received == Stream(fs[..|conn.entries|])
  {
    hide Cuts, User, Outputs, Wire, Stream, Encode, Tracks, Arrival;
    var n := |conn.entries|;
    Reception(conn, fs, rest);
    RequestOutputs(conn.c, conn.entries, fs);
    NoReply(conn, fs, rest);
    StreamStep(fs, n);
    assert n < |fs| ==> |Encode(fs[n].md, fs[n].pad)| >= HDR_LEN;
    SentSoFar(fs, n, conn.received, conn.open, rest);
  }

  lemma SentSoFar(fs: seq<Sent>, n: nat, received: seq<byte>, open: seq<byte>, rest: seq<byte>)
    requires AllOk(fs) && n <= |fs| && received + rest == Stream(fs) && open + rest == Stream(fs[n..])
    ensures open == [] <==> received == Stream(fs[..n])
  {
    hide Stream, Sent.Ok;
    StreamSplit(fs, n);
    assert |received| + |rest| == |Stream(fs[..n])| + |open| + |rest|;
    if open == [] {
      assert received == Stream(fs)[..|received|] && Stream(fs[..n]) == Stream(fs)[..|received|];
    }
  }

  lemma {:induction false} StreamSplit(fs: seq<Sent>, n: nat)
    requires AllOk(fs) && n <= |fs|
    ensures Stream(fs) == Stream(fs[..n]) + Stream(fs[n..])
    decreases n
  {
    hide Encode, Sent.Ok, Sent.Bytes;
    if n == 0 {
      assert fs[0..] == fs;
    } else {
      StreamSplit(fs[1..], n - 1);
      assert fs[1..][..n - 1] == fs[..n][1..] && fs[1..][n - 1..] == fs[n..];
      assert Stream(fs[..n]) == fs[0].Bytes() + Stream(fs[..n][1..]);
    }
  }

  // ---------- requests and responses

  /** What a sent frame brings when it is judged with these requests known. */
  function Delivery(c: Config, known: Expected, md: MsgDesc): seq<Output>
    requires md.Sendable()
  {
    if Accepted(known, md.message) && WholeAttachment(c, known, md)
    then [Delivered(md.message.Seen(), Split(md.Attachment(), BuffersFor(c, known, md)), md.file)]
    else []
  }

  /** The buffers for an accepted message take exactly its attachment. */
  predicate WholeAttachment(c: Config, known: Expected, md: MsgDesc)
    requires md.Sendable()
  {
    Accepted(known, md.message) ==> |md.Attachment()| == Sum(BuffersFor(c, known, md))
  }

  function Deliveries(c: Config, es: seq<Entry>, fs: seq<Sent>): seq<Output>
    requires AllOk(fs) && |es| <= |fs|
  {
    if es == [] then []
    else Deliveries(c, es[..|es| - 1], fs) + Delivery(c, es[|es| - 1].known, fs[|es| - 1].md)
  }

  lemma {:induction false} OutputsOfSent(c: Config, es: seq<Entry>, fs: seq<Sent>)
    requires Cuts(c, es) && AllOk(fs) && |es| <= |fs|
    requires forall i :: 0 <= i < |es| ==> es[i].bytes == fs[i].Bytes()
    ensures Outputs(c, es) == Deliveries(c, es, fs)
    ensures forall i :: 0 <= i < |es| ==> WholeAttachment(c, es[i].known, fs[i].md)
  {
    hide Whole, Meaning, UserNext, MsgDesc.Attachment, Sent.Bytes, Sent.Ok, User, Wire, Delivery, WholeAttachment;
    if es != [] {
      var init, last := es[..|es| - 1], es[|es| - 1];
      LastEntry(c, es, []);
      assert forall i :: 0 <= i < |init| ==> init[i] == es[i];
      OutputsOfSent(c, init, fs);
      DeliveryIsMeaning(c, User(c, init), last, fs[|init|]);
    }
  }

  lemma DeliveryIsMeaning(c: Config, user: bool, e: Entry, f: Sent)
    requires f.Ok() && e.bytes == f.Bytes() && Whole(c, user, e)
    ensures Meaning(c, user, e) == Delivery(c, e.known, f.md) && WholeAttachment(c, e.known, f.md)
  {
    hide Meaning, UserNext, Whole, Split, Flatten, BuffersFor;
    FrameMeaning(c, user, e, f);
  }

  /**
   * Everything delivered, at any point of any chunking: each request, and each response whose request was known when it
   * was judged, with its whole attachment in the buffers meant for it, in the order in which they were sent. No accepted
   * frame is dropped, and no request is answered more often than it was entered.
   */
  lemma FramesDelivered(conn: Conn, fs: seq<Sent>, rest: seq<byte>)
    requires conn.Valid() && conn.Quiet() && AllOk(fs) && conn.received + rest == Stream(fs)
    requires forall i :: 0 <= i < |conn.entries| && i < |fs| ==> Fits(conn.c, conn.entries[i].known, fs[i].md)
    requires |conn.entries| < |fs| ==> Fits(conn.c, conn.known, fs[|conn.entries|].md)
    ensures |conn.entries| <= |fs| && conn.delivered == Deliveries(conn.c, conn.entries, fs)
    ensures forall i :: 0 <= i < |conn.entries| ==> WholeAttachment(conn.c, conn.entries[i].known, fs[i].md)
    ensures forall id :: Answered(conn.delivered, id) <= conn.entered[id]
  {
    hide Fits, Cuts, User, Outputs, Wire, Stream, Encode, Tracks, Reply, Deliveries, WholeAttachment, Sent.Bytes, Sent.Ok,
      Answered, Balanced;
    Reception(conn, fs, rest);
    NoneTwice(conn);
    OutputsOfSent(conn.c, conn.entries, fs);
    var n := |conn.entries|;
    if conn.nextRecv == DRAIN && !conn.aborted {
      var user := User(conn.c, conn.entries);
      DrainingRefused(conn.c, user, conn.known, conn.open, conn.Posted(), conn.cbp);
      StreamStep(fs, n);
      SilentReply(conn.c, user, conn.known, conn.open, rest, fs[n], Stream(fs[n + 1..]));
    }
  }

  lemma NoneTwice(conn: Conn)
    requires conn.Valid()
    ensures forall id :: Answered(conn.delivered, id) <= conn.entered[id]
  {
    hide Conn.Valid, Answered;
    forall id
      ensures Answered(conn.delivered, id) <= conn.entered[id]
    {
      conn.AnsweredOnce(id);
    }
  }

  lemma DrainingRefused(c: Config, user: bool, known: Expected, open: seq<byte>, posted: seq<IoVec>, cbp: Param)
    requires Tracks(c, user, known, open, DRAIN, posted, cbp)
    ensures Refused(c, user, known, open) && |open| >= HDR_LEN
  {
  }

  /** A response to an unknown request is drained without an answer. */
  lemma SilentReply(c: Config, user: bool, known: Expected, open: seq<byte>, rest: seq<byte>, f: Sent, more: seq<byte>)
    requires Refused(c, user, known, open) && f.Ok() && open + rest == f.Bytes() + more
    ensures Reply(c, user, known, open) == []
  {
    hide Encode, MsgLen, AttLen, FileLen, IsRpc, VerdictOn, HasMessage, MsgDesc.Sendable, Accepted;
    HeaderOf(open, rest);
    HeaderRoundTrip(f.md, f.pad, more);
    JudgeEncoded(c, known, f.md, f.pad, more);
    VerdictStable(c, known, open, rest);
  }

  /** A part of a request is never answered or drained. */
  lemma NoReply(conn: Conn, fs: seq<Sent>, rest: seq<byte>)
    requires conn.Valid() && conn.Quiet() && Requests(conn.c, fs) && Cuts(conn.c, conn.entries)
    requires |conn.entries| <= |fs| && conn.open + rest == Stream(fs[|conn.entries|..])
    ensures conn.delivered == Outputs(conn.c, conn.entries)
    ensures conn.aborted ==> conn.c.checks && User(conn.c, conn.entries)
    ensures conn.c.checks && User(conn.c, conn.entries) && |conn.open| >= HDR_LEN ==> conn.aborted
  {
    hide Cuts, User, Outputs, Wire, Encode, Sent.Bytes, Stream, Tracks, Reply;
    var n := |conn.entries|;
    StreamStep(fs, n);
    conn.QuietMeansOpen();
    if |conn.open| >= HDR_LEN && !conn.aborted {
      InsideRequest(conn.c, User(conn.c, conn.entries), conn.known, conn.open, rest, fs[n], Stream(fs[n + 1..]),
                    conn.nextRecv, conn.Posted(), conn.cbp);
    }
  }

  lemma InsideRequest(c: Config, user: bool, known: Expected, open: seq<byte>, rest: seq<byte>, f: Sent, more: seq<byte>,
                      part: Part, posted: seq<IoVec>, cbp: Param)
    requires Tracks(c, user, known, open, part, posted, cbp) && part != HEADER && |open| >= HDR_LEN
    requires f.Ok() && f.md.message.RequestMessage? && open + rest == f.Bytes() + more
    ensures part != DRAIN && !(c.checks && user)
  {
    hide Encode, MsgLen, AttLen, FileLen, IsRpc, Judge, InMessage, InAttachment, InFile, InDrain, VerdictOn;
    HeaderOf(open, rest);
    HeaderRoundTrip(f.md, f.pad, more);
    if part == DRAIN {
      NotRefused(c, user, known, open, rest, f, more);
      assert false by {
        DrainIsRefused(c, user, known, open, posted, cbp);
      }
    }
    PastHeader(c, user, known, open, part, posted, cbp);
  }

  lemma NotRefused(c: Config, user: bool, known: Expected, open: seq<byte>, rest: seq<byte>, f: Sent, more: seq<byte>)
    requires |open| >= HDR_LEN && f.Ok() && f.md.message.RequestMessage? && open + rest == f.Bytes() + more
    ensures IsRpc(open) && !Refused(c, user, known, open)
  {
    hide Encode, MsgLen, AttLen, FileLen, IsRpc, VerdictOn, HasMessage, MsgDesc.Sendable;
    HeaderOf(open, rest);
    HeaderRoundTrip(f.md, f.pad, more);
    JudgeEncoded(c, known, f.md, f.pad, more);
    if HasMessage(open) {
      VerdictStable(c, known, open, rest);
    }
  }

  lemma DrainIsRefused(c: Config, user: bool, known: Expected, open: seq<byte>, posted: seq<IoVec>, cbp: Param)
    requires InDrain(c, user, known, open, posted, cbp)
    ensures Refused(c, user, known, open)
  {
  }

  lemma PastHeader(c: Config, user: bool, known: Expected, open: seq<byte>, part: Part, posted: seq<IoVec>, cbp: Param)
    requires Tracks(c, user, known, open, part, posted, cbp) && part != HEADER && part != DRAIN
    ensures !(c.checks && user)
  {
  }

  /** A connection with nothing posted has stopped at an assertion or inside a file, and a short file does not stop it. */
  lemma NothingPosted(conn: Conn, fs: seq<Sent>, rest: seq<byte>)
    requires conn.Valid() && conn.Quiet() && Requests(conn.c, fs) && Cuts(conn.c, conn.entries)
    requires |conn.entries| < |fs| && conn.open + rest == Stream(fs[|conn.entries|..])
    requires conn.Posted() == []
    ensures conn.aborted
  {
    hide Cuts, User, Outputs, Wire, Encode, Sent.Bytes, Stream, Reply, Tracks;
    var n := |conn.entries|;
    StreamStep(fs, n);
    RequestsAt(conn.c, fs, n);
    if !conn.aborted {
      Stalled(conn.c, User(conn.c, conn.entries), conn.known, conn.open, conn.nextRecv, conn.cbp);
      LongFile(conn.open, rest, fs[n], Stream(fs[n + 1..]));
    }
  }

  lemma Stalled(c: Config, user: bool, known: Expected, open: seq<byte>, part: Part, cbp: Param)
    requires Tracks(c, user, known, open, part, [], cbp)
    ensures |open| >= HDR_LEN && FileLen(open) > c.block
  {
  }

  lemma LongFile(open: seq<byte>, rest: seq<byte>, f: Sent, more: seq<byte>)
    requires |open| >= HDR_LEN && f.Ok() && open + rest == f.Bytes() + more
    ensures FileLen(open) == |f.md.file|
  {
    hide FileLen, Encode;
    HeaderOf(open, rest);
    HeaderRoundTrip(f.md, f.pad, more);
  }

  /** Assertions are off, or no attachment-only request precedes another. */
  predicate Clear(c: Config, fs: seq<Sent>) {
    c.checks ==> forall i :: 0 <= i < |fs| - 1 ==> !fs[i].EndsInAttachment()
  }

  /** The first n requests end in the first attachment-only one, and there are more. */
  predicate TrapsAfter(fs: seq<Sent>, n: nat) {
    0 < n < |fs| && fs[n - 1].EndsInAttachment() && forall i :: 0 <= i < n - 1 ==> !fs[i].EndsInAttachment()
  }

  /** What has been received is n requests and the header of the next. */
  predicate StopsAt(fs: seq<Sent>, n: nat, received: seq<byte>)
    requires AllOk(fs)
  {
    n < |fs| && received == Stream(fs[..n]) + fs[n].Header()
  }

  /**
   * All requests arrive if and only if none runs into the assertion. The one that does has its header read and no more,
   * and the process has ended; the requests before it are delivered.
   */
  lemma AllRequestsArrive(conn: Conn, fs: seq<Sent>, left: seq<seq<byte>>)
    requires conn.Valid() && conn.Quiet() && Requests(conn.c, fs) && NonEmpty(left)
    requires conn.received + Flatten(left) == Stream(fs) && (left != [] ==> conn.Posted() == [])
    ensures |conn.delivered| <= |fs|
    ensures forall i :: 0 <= i < |conn.delivered| ==> conn.delivered[i] == Arrival(conn.c, fs[i].md)
    ensures |conn.delivered| == |fs| <==> Clear(conn.c, fs)
    ensures Clear(conn.c, fs) ==> left == [] && conn.AtBoundary() && conn.received == Stream(fs)
    ensures !Clear(conn.c, fs) ==> conn.aborted && TrapsAfter(fs, |conn.delivered|)
    ensures !Clear(conn.c, fs) ==> StopsAt(fs, |conn.delivered|, conn.received)
  {
    hide Encode, Sent.Bytes, Sent.Header, Stream, Arrival, Conn.Valid, Conn.Quiet, Requests, Flatten, Clear, TrapsAfter,
      StopsAt;
    RequestsAreOk(conn.c, fs);
    RequestsArrive(conn, fs, Flatten(left));
    WhenFed(conn, fs, left);
    assert fs[..|fs|] == fs;
  }

  lemma RequestsAreOk(c: Config, fs: seq<Sent>)
    requires Requests(c, fs)
    ensures AllOk(fs) && forall known, i :: 0 <= i < |fs| ==> Fits(c, known, fs[i].md)
  {
  }

  lemma WhenFed(conn: Conn, fs: seq<Sent>, left: seq<seq<byte>>)
    requires conn.Valid() && conn.Quiet() && Requests(conn.c, fs) && NonEmpty(left)
    requires conn.received + Flatten(left) == Stream(fs) && (left != [] ==> conn.Posted() == [])
    ensures var n := |conn.entries|;
      n <= |fs|
      && (if n == |fs| then left == [] && conn.AtBoundary() && conn.received == Stream(fs) && Clear(conn.c, fs)
          else conn.aborted && !Clear(conn.c, fs) && TrapsAfter(fs, n)
               && StopsAt(fs, n, conn.received))
  {
    hide Cuts, User, Outputs, Encode, Sent.Bytes, Stream, Arrival, Fits, Conn.Valid, Conn.Quiet, Conn.AtBoundary,
      Requests, Flatten, Clear, TrapsAfter, StopsAt;
    RequestsAreOk(conn.c, fs);
    Reception(conn, fs, Flatten(left));
    WhereItStops(conn.c, conn.entries, fs);
    if |conn.entries| < |fs| {
      MayStop(conn, fs, Flatten(left));
      UnlessStopped(conn, fs, left);
      StoppedAfter(conn, fs, Flatten(left));
    } else {
      NothingLeft(left);
      assert Flatten(left) == [];
      assert conn.received == conn.received + Flatten(left);
    }
  }

  lemma MayStop(conn: Conn, fs: seq<Sent>, rest: seq<byte>)
    requires conn.Valid() && conn.Quiet() && Requests(conn.c, fs) && conn.received + rest == Stream(fs)
    ensures |conn.entries| < |fs| && !conn.aborted ==> |conn.open| < |fs[|conn.entries|].Bytes()|
  {
    hide Encode, Sent.Bytes, Stream, Arrival, Conn.Valid, Conn.Quiet;
    RequestsArrive(conn, fs, rest);
  }

  /** All of them have arrived only if none traps; the assertion has failed only after the first that does. */
  lemma WhereItStops(c: Config, es: seq<Entry>, fs: seq<Sent>)
    requires Cuts(c, es) && Requests(c, fs) && |es| <= |fs|
    requires forall i :: 0 <= i < |es| ==> es[i].bytes == fs[i].Bytes()
    ensures |es| == |fs| ==> Clear(c, fs)
    ensures |es| < |fs| && c.checks && User(c, es) ==> !Clear(c, fs) && TrapsAfter(fs, |es|)
  {
    hide Cuts, User, Requests, Sent.Bytes, Sent.EndsInAttachment;
    if c.checks {
      RequestTraps(c, es, fs);
    }
  }

  lemma NothingLeft(left: seq<seq<byte>>)
    requires NonEmpty(left) && Flatten(left) == []
    ensures left == []
  {
  }

  /** Only the assertion keeps a connection from taking all that there is. */
  lemma UnlessStopped(conn: Conn, fs: seq<Sent>, left: seq<seq<byte>>)
    requires conn.Valid() && conn.Quiet() && Requests(conn.c, fs) && Cuts(conn.c, conn.entries) && NonEmpty(left)
    requires |conn.entries| < |fs| && conn.open + Flatten(left) == Stream(fs[|conn.entries|..])
    requires left != [] ==> conn.Posted() == []
    requires !conn.aborted ==> |conn.open| < |fs[|conn.entries|].Bytes()|
    ensures conn.aborted
  {
    hide Cuts, User, Outputs, Wire, Encode, Sent.Bytes, Stream, Tracks, Reply, Conn.Valid;
    if left == [] {
      StreamStep(fs, |conn.entries|);
      assert conn.open == conn.open + Flatten(left);
    } else {
      NothingPosted(conn, fs, Flatten(left));
    }
  }

  /** Where the assertion ends the process: behind a header that follows an attachment-only request. */
  lemma StoppedAfter(conn: Conn, fs: seq<Sent>, rest: seq<byte>)
    requires conn.Valid() && conn.aborted && AllOk(fs) && Cuts(conn.c, conn.entries)
    requires conn.received + rest == Stream(fs)
    requires |conn.entries| < |fs| && conn.open + rest == Stream(fs[|conn.entries|..])
    ensures conn.c.checks && User(conn.c, conn.entries)
    ensures StopsAt(fs, |conn.entries|, conn.received)
  {
    hide Cuts, User, Outputs, Wire, Stream, Encode, Tracks, Reply;
    var n := |conn.entries|;
    StreamStep(fs, n);
    StreamSplit(fs, n);
    assert |fs[n].Bytes()| >= HDR_LEN;
    SameStart(conn.open, rest, fs[n].Bytes(), Stream(fs[n + 1..]));
    SameEnd(conn.received, Stream(fs[..n]), conn.open, rest);
  }

  lemma SameStart(a: seq<byte>, b: seq<byte>, c: seq<byte>, d: seq<byte>)
    requires a + b == c + d && |a| <= |c|
    ensures a == c[..|a|]
  {
    assert (a + b)[..|a|] == a && (c + d)[..|a|] == c[..|a|];
  }

  lemma SameEnd(a: seq<byte>, b: seq<byte>, c: seq<byte>, rest: seq<byte>)
    requires a + rest == b + (c + rest)
    ensures a == b + c
  {
    assert b + (c + rest) == (b + c) + rest;
    assert a == (a + rest)[..|a|] && b + c == ((b + c) + rest)[..|b + c|];
  }

  /**
   * A fresh connection fed the stream of any requests, in any chunks: it delivers them all, takes every byte and is back
   * at a frame boundary, unless one runs into the assertion; then it has delivered those before.
   */
  method ReceiveAll(c: Config, ghost fs: seq<Sent>, data: seq<seq<byte>>) returns (conn: Conn)
    requires Requests(c, fs) && NonEmpty(data) && Flatten(data) == Stream(fs)
    ensures conn.c == c && |conn.delivered| <= |fs|
    ensures forall i :: 0 <= i < |conn.delivered| ==> conn.delivered[i] == Arrival(c, fs[i].md)
    ensures |conn.delivered| == |fs| <==> Clear(c, fs)
    ensures Clear(c, fs) ==> conn.received == Flatten(data) && conn.AtBoundary()
    ensures !Clear(c, fs) ==> conn.aborted && TrapsAfter(fs, |conn.delivered|)
  {
    hide Cuts, User, Outputs, Wire, Encode, Sent.Bytes, Stream, Tracks, Reply, Arrival, Requests, Sent.EndsInAttachment,
      Flatten, Conn.Valid, Conn.AtBoundary, Clear, TrapsAfter;
    conn := new Conn(c, map[]);
    var left := conn.RecvProgress(data);
    AllRequestsArrive(conn, fs, left);
  }

  /** A small request with one byte of attachment. */
  function OneByteRequest(): (f: Sent)
    ensures f.Ok() && f.md.message.RequestMessage? && f.md.file == [] && f.EndsInAttachment()
  {
    var source := EndPoint.Of([], [], [], 0);
    EndPoint.OfIsValid([], [], [], 0);
    var md := MsgDesc(RequestMessage(Request(1, 1, source, Fixed([], 32))), [[7]], []);
    assert md.Attachment() == [7] + Flatten([]);
    Sent(md, [0, 0, 0, 0])
  }

  /** Two of them in a row, and a build with assertions: the process ends before the second arrives. */
  method SecondAttachmentIsFatal(c: Config) returns (conn: Conn)
    requires c.checks
    ensures conn.aborted && |conn.delivered| == 1 && conn.delivered[0] == Arrival(c, OneByteRequest().md)
  {
    hide OneByteRequest, Stream, Sent.Ok, Sent.EndsInAttachment, Arrival, Flatten;
    var fs := [OneByteRequest(), OneByteRequest()];
    assert fs[0].EndsInAttachment();
    StreamIsOneChunk(fs);
    conn := ReceiveAll(c, fs, [Stream(fs)]);
  }

  lemma StreamIsOneChunk(fs: seq<Sent>)
    requires AllOk(fs) && fs != []
    ensures Stream(fs) != [] && Flatten([Stream(fs)]) == Stream(fs)
  {
    hide Encode;
    assert |fs[0].Bytes()| >= HDR_LEN;
    assert Flatten([Stream(fs)]) == Stream(fs) + Flatten([]);
  }
}
