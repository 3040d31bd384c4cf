/**
 * What the receiver makes of a byte stream (lfutil/src/net/conncb.cpp, lfutil/include/comm/packageinfo.h): where one
 * frame ends and the next begins, and what each frame delivers. Nothing here mentions vectors or callbacks.
 */
module Frames {
  import opened Words
  import opened Sizing
  import opened Messages

  const HDR_LEN := 32
  const RPC: seq<byte> := [114, 112, 99, 0]

  /** The block size and whether the code was built with its assertions. */
  datatype Config = Config(block: Limit, checks: bool)

  /** Buffer sizes posted for the responses still expected, by request id. */
  type Expected = map<u32, seq<nat>>

  /** A frame as it was cut out of the stream, and what was expected when its message was judged. */
  datatype Entry = Entry(bytes: seq<byte>, known: Expected)

  datatype Output =
    | Malformed(message: seq<byte>)
    | Delivered(body: Message, attachments: seq<seq<byte>>, file: seq<byte>)

  // ---------- the header

  predicate IsRpc(h: seq<byte>)
    requires |h| >= HDR_LEN
  {
    h[..4] == RPC
  }

  function MsgLen(h: seq<byte>): u64
    requires |h| >= HDR_LEN
  {
    FromLe64(h[8..16])
  }

  /** The receiver keeps the attachment length in 32 bits. */
  function AttLen(h: seq<byte>): u32
    requires |h| >= HDR_LEN
  {
    Wrap32(FromLe64(h[16..24]))
  }

  function FileLen(h: seq<byte>): u64
    requires |h| >= HDR_LEN
  {
    FromLe64(h[24..32])
  }

  // ---------- judging a message

  datatype Verdict =
    | Refuse(reply: seq<Output>)
    | Take(message: Message, sizes: seq<nat>, left: Expected)

  /** The length of the message is passed on as a signed 32-bit number. */
  function Judge(c: Config, known: Expected, attLen: u32, message: seq<byte>): (v: Verdict)
    ensures v.Take? && attLen > 0 ==> |v.sizes| > 0
    ensures v.Take? && attLen == 0 ==> v.sizes == []
  {
    match Deserialize(message, Signed32(|message|))
    case None => Refuse([Malformed(message)])
    case Some(RequestMessage(r)) =>
      Take(RequestMessage(r), if attLen > 0 then Sizes(attLen, c.block) else [], known)
    case Some(ResponseMessage(r)) =>
      var id := Wrap32(r.id);
      if id !in known then Refuse([])
      else
        ResponseSizesRespectCaller(known[id], if attLen > 0 then attLen else 1, c.block);
        Take(ResponseMessage(r), if attLen > 0 then ResponseSizes(known[id], attLen, c.block) else [], known - {id})
  }

  // ---------- where a frame ends

  predicate HasMessage(s: seq<byte>) { |s| >= HDR_LEN && IsRpc(s) && |s| >= HDR_LEN + MsgLen(s) }

  function MessageOf(s: seq<byte>): seq<byte>
    requires HasMessage(s)
  {
    s[HDR_LEN..HDR_LEN + MsgLen(s)]
  }

  function VerdictOn(c: Config, known: Expected, s: seq<byte>): Verdict
    requires HasMessage(s)
  {
    Judge(c, known, AttLen(s), MessageOf(s))
  }

  /** Bytes a drain takes; nothing is drained when nothing is announced. */
  function Skipped(c: Config, len: nat): nat { if len == 0 then 0 else Drained(len, c.block) }

  /**
   * The length of the frame that starts the stream, once it is known. It never is when the header comes in a
   * caller's vector and assertions are on, nor when a file needs more than one block.
   */
  function FrameLen(c: Config, user: bool, known: Expected, s: seq<byte>): Option<nat> {
    if |s| < HDR_LEN then None
    else if !IsRpc(s) then Some(HDR_LEN + Skipped(c, MsgLen(s) + AttLen(s) + FileLen(s)))
    else if c.checks && user then None
    else if !HasMessage(s) then None
    else match VerdictOn(c, known, s)
      case Refuse(_) => Some(HDR_LEN + MsgLen(s) + Skipped(c, AttLen(s) + FileLen(s)))
      case Take(_, sizes, _) =>
        if FileLen(s) > c.block then None else Some(HDR_LEN + MsgLen(s) + Sum(sizes) + FileLen(s))
  }

  /** The same, case by case: a foreign frame, a refused message, and one that is taken. */
  lemma FrameLengths(c: Config, user: bool, known: Expected, s: seq<byte>)
    requires |s| >= 32
    ensures var m, a, f := FromLe64(s[8..16]), FromLe64(s[16..24]) % TWO32, FromLe64(s[24..32]);
      if s[..4] != RPC then FrameLen(c, user, known, s) == Some(32 + Skipped(c, m + a + f))
      else if (c.checks && user) || |s| < 32 + m then FrameLen(c, user, known, s) == None
      else
        match Deserialize(s[32..32 + m], Signed32(m))
        case None => FrameLen(c, user, known, s) == Some(32 + m + Skipped(c, a + f))
        case Some(RequestMessage(r)) => FrameLen(c, user, known, s) == if f > c.block then None else Some(32 + m + a + f)
        case Some(ResponseMessage(r)) =>
          var id := r.id % TWO32;
          FrameLen(c, user, known, s)
          == if id !in known then Some(32 + m + Skipped(c, a + f))
             else if f > c.block then None
             else Some(32 + m + (if a > 0 then Sum(ResponseSizes(known[id], a, c.block)) else 0) + f)
  {
    hide Deserialize, FromLe64, ResponseSizes, Sizes, Skipped;
  }

  predicate Whole(c: Config, user: bool, e: Entry) { FrameLen(c, user, e.known, e.bytes) == Some(|e.bytes|) }

  /** Later bytes do not change the verdict on a message, nor where a frame ends. */
  lemma VerdictStable(c: Config, known: Expected, s: seq<byte>, t: seq<byte>)
    requires HasMessage(s)
    ensures HasMessage(s + t) && VerdictOn(c, known, s + t) == VerdictOn(c, known, s)
  {
    hide IsRpc, MsgLen, AttLen, Judge;
    HeaderOf(s, t);
    assert MessageOf(s + t) == MessageOf(s);
  }

  lemma FrameLenStable(c: Config, user: bool, known: Expected, s: seq<byte>, t: seq<byte>)
    ensures FrameLen(c, user, known, s).Some? ==> FrameLen(c, user, known, s + t) == FrameLen(c, user, known, s)
  {
    hide IsRpc, MsgLen, AttLen, FileLen, HasMessage, VerdictOn, Skipped;
    if |s| >= HDR_LEN {
      HeaderOf(s, t);
      if HasMessage(s) {
        VerdictStable(c, known, s, t);
      }
    }
  }

  lemma HeaderOf(s: seq<byte>, t: seq<byte>)
    requires |s| >= HDR_LEN
    ensures IsRpc(s + t) == IsRpc(s) && MsgLen(s + t) == MsgLen(s)
    ensures AttLen(s + t) == AttLen(s) && FileLen(s + t) == FileLen(s)
  {
    assert (s + t)[..4] == s[..4] && (s + t)[8..16] == s[8..16];
    assert (s + t)[16..24] == s[16..24] && (s + t)[24..32] == s[24..32];
  }

  // ---------- what a frame delivers

  /** A sequence cut into pieces of the given sizes. */
  function Split(s: seq<byte>, sizes: seq<nat>): (r: seq<seq<byte>>)
    requires |s| == Sum(sizes)
    ensures |r| == |sizes| && Flatten(r) == s
    ensures forall i :: 0 <= i < |r| ==> |r[i]| == sizes[i]
  {
    if sizes == [] then [] else [s[..sizes[0]]] + Split(s[sizes[0]..], sizes[1..])
  }

  lemma {:induction false} SplitUnique(s: seq<byte>, sizes: seq<nat>, pieces: seq<seq<byte>>)
    requires |s| == Sum(sizes) && |pieces| == |sizes| && Flatten(pieces) == s
    requires forall i :: 0 <= i < |pieces| ==> |pieces[i]| == sizes[i]
    ensures pieces == Split(s, sizes)
  {
    if sizes != [] {
      assert s == pieces[0] + Flatten(pieces[1..]) && |pieces[0]| == sizes[0];
      assert s[sizes[0]..] == Flatten(pieces[1..]);
      SplitUnique(s[sizes[0]..], sizes[1..], pieces[1..]);
    }
  }

  function Meaning(c: Config, user: bool, e: Entry): seq<Output>
    requires Whole(c, user, e)
  {
    var s := e.bytes;
    if !IsRpc(s) then [] else
      match VerdictOn(c, e.known, s)
      case Refuse(reply) => reply
      case Take(m, sizes, _) =>
        var att := HDR_LEN + MsgLen(s);
        var file := att + Sum(sizes);
        [Delivered(m, Split(s[att..file], sizes), s[file..])]
  }

  /** A whole message that cannot be read is answered as malformed, and brings nothing else. */
  lemma MalformedAnswered(c: Config, user: bool, e: Entry)
    requires Whole(c, user, e) && IsRpc(e.bytes) && Deserialize(MessageOf(e.bytes), Signed32(|MessageOf(e.bytes)|)).None?
    ensures Meaning(c, user, e) == [Malformed(MessageOf(e.bytes))]
  {
    hide Deserialize, MsgLen, AttLen, FileLen;
  }

  /** Whether the next header will be received in a vector made for a caller's buffer. */
  function UserNext(c: Config, user: bool, e: Entry): bool
    requires Whole(c, user, e)
  {
    var s := e.bytes;
    if !IsRpc(s) || VerdictOn(c, e.known, s).Refuse? then user
    else if FileLen(s) > 0 then false
    else if AttLen(s) > 0 then true
    else user
  }

  // ---------- runs of frames

  predicate Cuts(c: Config, es: seq<Entry>)
    decreases |es|, 0
  {
    es == [] || (Cuts(c, es[..|es| - 1]) && Whole(c, User(c, es[..|es| - 1]), es[|es| - 1]))
  }

  function User(c: Config, es: seq<Entry>): bool
    requires Cuts(c, es)
    decreases |es|, 1
  {
    if es == [] then false else UserNext(c, User(c, es[..|es| - 1]), es[|es| - 1])
  }

  function Outputs(c: Config, es: seq<Entry>): seq<Output>
    requires Cuts(c, es)
  {
    if es == [] then []
    else Outputs(c, es[..|es| - 1]) + Meaning(c, User(c, es[..|es| - 1]), es[|es| - 1])
  }

  function Wire(es: seq<Entry>): seq<byte> {
    if es == [] then [] else Wire(es[..|es| - 1]) + es[|es| - 1].bytes
  }

  lemma Extend(c: Config, es: seq<Entry>, e: Entry)
    requires Cuts(c, es) && Whole(c, User(c, es), e)
    ensures Cuts(c, es + [e]) && User(c, es + [e]) == UserNext(c, User(c, es), e)
    ensures Outputs(c, es + [e]) == Outputs(c, es) + Meaning(c, User(c, es), e)
    ensures Wire(es + [e]) == Wire(es) + e.bytes
  {
    assert (es + [e])[..|es|] == es;
  }
}
