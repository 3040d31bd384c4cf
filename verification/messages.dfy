/**
 * Messages on the wire (lfutil/include/comm/message.h, request.h, response.h, lfutil/src/net/endpoint.cpp) and the
 * dispatching deserializer (lfutil/test/simpledeserializer.cpp).
 */
module Messages {
  import opened Words

  const BASIC_REQUEST: s32 := 1000
  const BASIC_RESPONSE: s32 := -1000

  const MESSAGE_SIZE := 16
  const ENDPOINT_SIZE := 84
  const REQUEST_SIZE := 132
  const RESPONSE_SIZE := 148

  // ---------- C strings in fixed-width fields

  /** The characters before the terminator. */
  function Text(s: seq<byte>): seq<byte> {
    if s == [] || s[0] == 0 then [] else [s[0]] + Text(s[1..])
  }

  /** strncpy: n bytes, zero padded after the text. */
  function Fixed(s: seq<byte>, n: nat): (r: seq<byte>)
    ensures |r| == n
    decreases n
  {
    if n == 0 then [] else if s == [] || s[0] == 0 then [0] + Fixed([], n - 1) else [s[0]] + Fixed(s[1..], n - 1)
  }

  /** A field of n bytes whose last byte is always the terminator. */
  function Terminated(s: seq<byte>, n: nat): (r: seq<byte>)
    requires n > 0
    ensures |r| == n
  {
    Fixed(s, n - 1) + [0]
  }

  lemma {:induction false} FixedAgain(s: seq<byte>, t: seq<byte>, n: nat, m: nat)
    requires n <= m
    ensures Fixed(Fixed(s, m) + t, n) == Fixed(s, n)
    decreases n
  {
    if n > 0 {
      var f := Fixed(s, m);
      assert (f + t)[1..] == f[1..] + t;
      if s == [] || s[0] == 0 {
        PaddingIsFixed(n);
      } else {
        assert f[1..] == Fixed(s[1..], m - 1);
        FixedAgain(s[1..], t, n - 1, m - 1);
      }
    }
  }

  lemma {:induction false} PaddingIsFixed(n: nat)
    ensures forall s: seq<byte> :: s == [] || s[0] == 0 ==> Fixed(s, n) == Fixed([], n)
  {
  }

  lemma {:induction false} FixedKeepsText(s: seq<byte>, n: nat)
    ensures Text(Fixed(s, n)) == if |Text(s)| <= n then Text(s) else Text(s)[..n]
    decreases n
  {
    if n > 0 && !(s == [] || s[0] == 0) {
      FixedKeepsText(s[1..], n - 1);
      assert Fixed(s, n)[1..] == Fixed(s[1..], n - 1);
    }
  }

  /** Storing a field again changes nothing: the field is its own canonical form. */
  lemma TerminatedAgain(s: seq<byte>, t: seq<byte>, n: nat)
    requires n > 0
    ensures Terminated(Terminated(s, n) + t, n) == Terminated(s, n)
    ensures Fixed(Terminated(s, n) + t, n) == Terminated(s, n)
  {
    assert Terminated(s, n) + t == Fixed(s, n - 1) + ([0] + t);
    FixedAgain(s, [0] + t, n - 1, n - 1);
    FixedOfTerminated(s, t, n);
  }

  lemma {:induction false} FixedOfTerminated(s: seq<byte>, t: seq<byte>, n: nat)
    requires n > 0
    ensures Fixed(Terminated(s, n) + t, n) == Terminated(s, n)
    decreases n
  {
    var f := Terminated(s, n) + t;
    if n > 1 {
      var s' := if s == [] || s[0] == 0 then [] else s[1..];
      assert Terminated(s, n)[1..] == Terminated(s', n - 1);
      assert f[1..] == Terminated(s', n - 1) + t;
      FixedOfTerminated(s', t, n - 1);
      if f[0] == 0 {
        PaddingIsFixed(n - 1);
        AllZero(n - 1);
      }
    }
  }

  lemma {:induction false} AllZero(n: nat)
    ensures n > 0 ==> Terminated([], n) == Fixed([], n)
  {
    if n > 1 {
      AllZero(n - 1);
    }
  }

  // ---------- the entities

  type Host = s: seq<byte> | |s| == 32 witness Fixed([], 32)
  type Service = s: seq<byte> | |s| == 16 witness Fixed([], 16)
  type Reason = s: seq<byte> | |s| == 128 witness Fixed([], 128)

  datatype EndPoint = EndPoint(host: Host, location: Host, service: Service, port: s32)
  {
    /** Every setter leaves its field terminated and zero padded. */
    predicate Valid() {
      host == Terminated(host, 32) && location == Terminated(location, 32) && service == Terminated(service, 16)
    }

    /** The four-argument constructor. */
    static function Of(host: seq<byte>, location: seq<byte>, service: seq<byte>, port: s32): EndPoint {
      EndPoint(Terminated(host, 32), Terminated(location, 32), Terminated(service, 16), port)
    }

    static lemma OfIsValid(host: seq<byte>, location: seq<byte>, service: seq<byte>, port: s32)
      ensures Of(host, location, service, port).Valid()
    {
      TerminatedAgain(host, [], 32);
      TerminatedAgain(location, [], 32);
      TerminatedAgain(service, [], 16);
      assert Terminated(host, 32) + [] == Terminated(host, 32);
      assert Terminated(location, 32) + [] == Terminated(location, 32);
      assert Terminated(service, 16) + [] == Terminated(service, 16);
    }
  }

  datatype Request = Request(version: u32, id: u64, source: EndPoint, protocol: Host)
  {
    /** What a peer gets to see: the protocol field cut at its last byte. */
    function Seen(): Request { this.(protocol := Terminated(protocol, 32)) }
  }

  datatype Response = Response(version: u32, id: u64, status: s32, reason: Reason)
  {
    function Seen(): Response { this.(reason := Terminated(reason, 128)) }
  }

  datatype Message = RequestMessage(request: Request) | ResponseMessage(response: Response)
  {
    predicate Valid() { RequestMessage? ==> request.source.Valid() }

    function Seen(): Message {
      if RequestMessage? then RequestMessage(request.Seen()) else ResponseMessage(response.Seen())
    }
  }

  /** What a peer sees differs from what was sent in the last text field only, and not even there if it is terminated. */
  lemma SeenIs(m: Message)
    ensures var t := m.Seen();
      match m
      case RequestMessage(r) =>
        t.RequestMessage? && t.request == Request(r.version, r.id, r.source, Terminated(r.protocol, 32))
        && (r.protocol == Terminated(r.protocol, 32) ==> t == m)
      case ResponseMessage(r) =>
        t.ResponseMessage? && t.response == Response(r.version, r.id, r.status, Terminated(r.reason, 128))
        && (r.reason == Terminated(r.reason, 128) ==> t == m)
  {
  }

  /** The four-argument constructor keeps as much of each text as leaves room for its terminator. */
  lemma OfKeepsTexts(host: seq<byte>, location: seq<byte>, service: seq<byte>, port: s32)
    ensures var e := EndPoint.Of(host, location, service, port);
      e.port == port
      && Text(e.host) == (if |Text(host)| <= 31 then Text(host) else Text(host)[..31])
      && Text(e.location) == (if |Text(location)| <= 31 then Text(location) else Text(location)[..31])
      && Text(e.service) == (if |Text(service)| <= 15 then Text(service) else Text(service)[..15])
  {
    hide Fixed, Terminated;
    FixedKeepsText(host, 31);
    FixedKeepsText(location, 31);
    FixedKeepsText(service, 15);
    TextOfTerminated(host, 32);
    TextOfTerminated(location, 32);
    TextOfTerminated(service, 16);
  }

  // ---------- layout

  function HeadBytes(kind: s32, version: u32, id: u64): (s: seq<byte>)
    ensures |s| == MESSAGE_SIZE
  {
    Le32(Unsigned32(kind)) + Le32(version) + Le64(id)
  }

  function EndPointBytes(e: EndPoint): (s: seq<byte>)
    ensures |s| == ENDPOINT_SIZE
  {
    Fixed(e.host, 32) + Fixed(e.location, 32) + Fixed(e.service, 16) + Le32(Unsigned32(e.port))
  }

  function RequestBytes(r: Request): (s: seq<byte>)
    ensures |s| == REQUEST_SIZE
  {
    HeadBytes(BASIC_REQUEST, r.version, r.id) + EndPointBytes(r.source) + Terminated(r.protocol, 32)
  }

  function ResponseBytes(r: Response): (s: seq<byte>)
    ensures |s| == RESPONSE_SIZE
  {
    HeadBytes(BASIC_RESPONSE, r.version, r.id) + Le32(Unsigned32(r.status)) + Terminated(r.reason, 128)
  }

  function MessageBytes(m: Message): seq<byte> {
    if m.RequestMessage? then RequestBytes(m.request) else ResponseBytes(m.response)
  }

  // ---------- reading

  function ReadEndPoint(b: seq<byte>): EndPoint
    requires |b| >= ENDPOINT_SIZE
  {
    EndPoint(Terminated(b, 32), Terminated(b[32..], 32), Terminated(b[64..], 16), Signed32(FromLe32(b[80..84])))
  }

  function ReadRequest(b: seq<byte>): Option<Request> {
    if |b| < REQUEST_SIZE then None
    else Some(Request(FromLe32(b[4..8]), FromLe64(b[8..16]), ReadEndPoint(b[16..]), Terminated(b[100..], 32)))
  }

  function ReadResponse(b: seq<byte>): Option<Response> {
    if |b| < RESPONSE_SIZE then None
    else Some(Response(FromLe32(b[4..8]), FromLe64(b[8..16]), Signed32(FromLe32(b[16..20])), Terminated(b[20..], 128)))
  }

  /** CSimpleDeserializer: the type word selects the reader; anything else, or too few bytes, is refused. */
  function Deserialize(b: seq<byte>, bufLen: int): Option<Message> {
    if |b| < 4 then None
    else if Signed32(FromLe32(b[..4])) == BASIC_REQUEST && bufLen >= REQUEST_SIZE then
      (match ReadRequest(b) case Some(r) => Some(RequestMessage(r)) case None => None)
    else if Signed32(FromLe32(b[..4])) == BASIC_RESPONSE && bufLen >= RESPONSE_SIZE then
      (match ReadResponse(b) case Some(r) => Some(ResponseMessage(r)) case None => None)
    else None
  }

  lemma SignedUnsigned(n: s32)
    ensures FromLe32(Le32(Unsigned32(n))) == Unsigned32(n) && Signed32(Unsigned32(n)) == n
  {
    Le32RoundTrip(Unsigned32(n));
  }

  lemma HeadRoundTrip(kind: s32, version: u32, id: u64, rest: seq<byte>)
    ensures var b := HeadBytes(kind, version, id) + rest;
      Signed32(FromLe32(b[..4])) == kind && FromLe32(b[4..8]) == version && FromLe64(b[8..16]) == id
  {
    var b := HeadBytes(kind, version, id) + rest;
    assert b[..4] == Le32(Unsigned32(kind)) && b[4..8] == Le32(version) && b[8..16] == Le64(id);
    SignedUnsigned(kind);
    Le32RoundTrip(version);
    Le64RoundTrip(id);
  }

  lemma EndPointRoundTrip(e: EndPoint, rest: seq<byte>)
    requires e.Valid()
    ensures ReadEndPoint(EndPointBytes(e) + rest) == e
  {
    hide Fixed, Terminated, Le32, FromLe32;
    var b := EndPointBytes(e) + rest;
    assert b[0..32] == Fixed(e.host, 32) && b[32..64] == Fixed(e.location, 32) && b[64..80] == Fixed(e.service, 16);
    FieldRoundTrip(e.host, b, 0, 32);
    FieldRoundTrip(e.location, b, 32, 32);
    FieldRoundTrip(e.service, b, 64, 16);
    assert b[0..] == b && b[80..84] == Le32(Unsigned32(e.port));
    SignedUnsigned(e.port);
  }

  lemma FieldRoundTrip(f: seq<byte>, b: seq<byte>, at: nat, n: nat)
    requires n > 0 && at + n <= |b| && f == Terminated(f, n) && b[at..at + n] == Fixed(f, n)
    ensures Terminated(b[at..], n) == f
  {
    TerminatedAgain(f, [], n);
    assert Terminated(f, n) + [] == f;
    assert b[at..] == Terminated(f, n) + b[at + n..];
    TerminatedAgain(f, b[at + n..], n);
  }

  /** The text field a peer reads back, wherever it stands in the buffer. */
  lemma TextRoundTrip(f: seq<byte>, b: seq<byte>, at: nat, n: nat)
    requires n > 0 && at + n <= |b| && b[at..at + n] == Terminated(f, n)
    ensures Terminated(b[at..], n) == Terminated(f, n)
  {
    assert b[at..] == Terminated(f, n) + b[at + n..];
    TerminatedAgain(f, b[at + n..], n);
  }

  lemma RequestRoundTrip(r: Request, rest: seq<byte>)
    requires r.source.Valid()
    ensures ReadRequest(RequestBytes(r) + rest) == Some(r.Seen())
  {
    hide Fixed, Terminated, HeadBytes, EndPointBytes, ReadEndPoint, FromLe32, FromLe64;
    var b := RequestBytes(r) + rest;
    var tail := EndPointBytes(r.source) + Terminated(r.protocol, 32) + rest;
    assert b == HeadBytes(BASIC_REQUEST, r.version, r.id) + tail;
    HeadRoundTrip(BASIC_REQUEST, r.version, r.id, tail);
    assert b[16..] == EndPointBytes(r.source) + (Terminated(r.protocol, 32) + rest);
    EndPointRoundTrip(r.source, Terminated(r.protocol, 32) + rest);
    assert b[100..132] == Terminated(r.protocol, 32);
    TextRoundTrip(r.protocol, b, 100, 32);
  }

  lemma ResponseRoundTrip(r: Response, rest: seq<byte>)
    ensures ReadResponse(ResponseBytes(r) + rest) == Some(r.Seen())
  {
    hide Fixed, Terminated, HeadBytes, Le32, FromLe32, FromLe64;
    var b := ResponseBytes(r) + rest;
    var tail := Le32(Unsigned32(r.status)) + Terminated(r.reason, 128) + rest;
    assert b == HeadBytes(BASIC_RESPONSE, r.version, r.id) + tail;
    HeadRoundTrip(BASIC_RESPONSE, r.version, r.id, tail);
    assert b[16..20] == Le32(Unsigned32(r.status));
    SignedUnsigned(r.status);
    assert b[20..148] == Terminated(r.reason, 128);
    TextRoundTrip(r.reason, b, 20, 128);
  }

  /** The deserializer undoes serialization, whatever follows in the buffer. */
  lemma MessageRoundTrip(m: Message, rest: seq<byte>, bufLen: int)
    requires m.Valid() && bufLen >= |MessageBytes(m)|
    ensures Deserialize(MessageBytes(m) + rest, bufLen) == Some(m.Seen())
  {
    hide Fixed, Terminated, HeadBytes, EndPointBytes, ReadRequest, ReadResponse, FromLe32, Le32;
    var b := MessageBytes(m) + rest;
    match m {
      case RequestMessage(r) =>
        RequestRoundTrip(r, rest);
        var tail := EndPointBytes(r.source) + Terminated(r.protocol, 32) + rest;
        assert b == HeadBytes(BASIC_REQUEST, r.version, r.id) + tail;
        HeadRoundTrip(BASIC_REQUEST, r.version, r.id, tail);
      case ResponseMessage(r) =>
        ResponseRoundTrip(r, rest);
        var tail := Le32(Unsigned32(r.status)) + Terminated(r.reason, 128) + rest;
        assert b == HeadBytes(BASIC_RESPONSE, r.version, r.id) + tail;
        HeadRoundTrip(BASIC_RESPONSE, r.version, r.id, tail);
    }
  }

  /** A text field arrives whole exactly when it leaves room for its terminator. */
  lemma TextSurvives(f: seq<byte>, n: nat)
    requires n > 0
    ensures Text(Terminated(f, n)) == Text(f) <==> |Text(f)| < n
  {
    FixedKeepsText(f, n - 1);
    TextOfTerminated(f, n);
  }

  lemma {:induction false} TextOfTerminated(f: seq<byte>, n: nat)
    requires n > 0
    ensures Text(Terminated(f, n)) == Text(Fixed(f, n - 1))
    decreases n
  {
    if n > 1 && !(f == [] || f[0] == 0) {
      assert Terminated(f, n)[1..] == Terminated(f[1..], n - 1);
      TextOfTerminated(f[1..], n - 1);
      assert Fixed(f, n - 1)[1..] == Fixed(f[1..], n - 2);
    }
  }

  // ---------- the layout, byte by byte

  /** Where everything stands: type, version and id, then the endpoint or the status, then the text. */
  lemma RequestLayout(r: Request)
    ensures var b := RequestBytes(r);
      b[..4] == Le32(1000) && b[4..8] == Le32(r.version) && b[8..16] == Le64(r.id)
      && b[16..48] == Fixed(r.source.host, 32) && b[48..80] == Fixed(r.source.location, 32)
      && b[80..96] == Fixed(r.source.service, 16) && b[96..100] == Le32(Unsigned32(r.source.port))
      && b[100..131] == Fixed(r.protocol, 31) && b[131] == 0
  {
    hide Fixed, Le32, Le64;
    var b := RequestBytes(r);
    var head, source := HeadBytes(BASIC_REQUEST, r.version, r.id), EndPointBytes(r.source);
    assert b[..16] == head && b[16..100] == source && b[100..132] == Terminated(r.protocol, 32);
    assert b[..4] == head[..4] && b[4..8] == head[4..8] && b[8..16] == head[8..16];
    assert b[16..48] == source[..32] && b[48..80] == source[32..64] && b[80..96] == source[64..80];
    assert b[96..100] == source[80..84];
    assert b[100..131] == b[100..132][..31] && b[131] == b[100..132][31];
  }

  lemma ResponseLayout(r: Response)
    ensures var b := ResponseBytes(r);
      b[..4] == Le32(TWO32 - 1000) && b[4..8] == Le32(r.version) && b[8..16] == Le64(r.id)
      && b[16..20] == Le32(Unsigned32(r.status)) && b[20..147] == Fixed(r.reason, 127) && b[147] == 0
  {
    hide Fixed, Le32, Le64;
    var b := ResponseBytes(r);
    var head := HeadBytes(BASIC_RESPONSE, r.version, r.id);
    assert b[..16] == head && b[20..148] == Terminated(r.reason, 128);
    assert b[..4] == head[..4] && b[4..8] == head[4..8] && b[8..16] == head[8..16];
    assert b[20..147] == b[20..148][..127] && b[147] == b[20..148][127];
  }

  /** A field holds the text up to its length, and zeros after it. */
  lemma FieldBytes(s: seq<byte>, n: nat, k: nat)
    requires k < n
    ensures |Text(s)| <= |s| && (forall i :: 0 <= i < |Text(s)| ==> Text(s)[i] == s[i] != 0)
    ensures Fixed(s, n)[k] == if k < |Text(s)| then s[k] else 0
  {
    FixedAt(s, n, k);
    TextIsPrefix(s);
  }

  lemma {:induction false} TextIsPrefix(s: seq<byte>)
    ensures Text(s) <= s && forall i :: 0 <= i < |Text(s)| ==> s[i] != 0
    ensures |Text(s)| < |s| ==> s[|Text(s)|] == 0
  {
    if s != [] && s[0] != 0 {
      TextIsPrefix(s[1..]);
      assert s == [s[0]] + s[1..];
    }
  }

  /** What the deserializer takes: the two types it knows, each with all its bytes. */
  lemma Deserializes(b: seq<byte>, bufLen: int)
    requires |b| >= bufLen
    ensures Deserialize(b, bufLen).Some?
       <==> || (bufLen >= 132 && Signed32(FromLe32(b[..4])) == 1000)
            || (bufLen >= 148 && Signed32(FromLe32(b[..4])) == -1000)
    ensures Deserialize(b, bufLen).Some? ==>
              var m := Deserialize(b, bufLen).value;
              m.RequestMessage? == (Signed32(FromLe32(b[..4])) == 1000)
              && (if m.RequestMessage? then m.request.version == FromLe32(b[4..8]) && m.request.id == FromLe64(b[8..16])
                  else m.response.version == FromLe32(b[4..8]) && m.response.id == FromLe64(b[8..16]))
  {
    hide Signed32, FromLe32, FromLe64, ReadEndPoint, Terminated;
  }

  // ---------- the buffer code

  /** A buffer with some bytes overwritten. */
  function Splice(b: seq<byte>, at: nat, s: seq<byte>): (r: seq<byte>)
    requires at + |s| <= |b|
    ensures |r| == |b|
  {
    b[..at] + s + b[at + |s|..]
  }

  lemma SpliceTwice(b: seq<byte>, at: nat, s: seq<byte>, t: seq<byte>)
    requires at + |s| + |t| <= |b|
    ensures Splice(Splice(b, at, s), at + |s|, t) == Splice(b, at, s + t)
  {
  }

  lemma {:induction false} FixedAt(s: seq<byte>, n: nat, k: nat)
    requires k < n
    ensures |Text(s)| <= |s| && Fixed(s, n)[k] == if |Text(s)| <= k then 0 else s[k]
    decreases n
  {
    if s == [] || s[0] == 0 {
      if k > 0 {
        FixedAt([], n - 1, k - 1);
      }
    } else {
      if k > 0 {
        FixedAt(s[1..], n - 1, k - 1);
      } else {
        TextLength(s[1..]);
      }
    }
  }

  lemma {:induction false} TextLength(s: seq<byte>)
    ensures |Text(s)| <= |s| && (|Text(s)| < |s| ==> s[|Text(s)|] == 0)
    ensures forall k :: 0 <= k < |Text(s)| ==> s[k] != 0
  {
    if !(s == [] || s[0] == 0) {
      TextLength(s[1..]);
      assert Text(s) == [s[0]] + Text(s[1..]);
      forall k | 0 <= k < |Text(s)|
        ensures s[k] != 0
      {
        assert k > 0 ==> s[k] == s[1..][k - 1];
      }
    }
  }

  method StrNCpy(buffer: array<byte>, at: nat, src: seq<byte>, n: nat)
    requires at + n <= buffer.Length
    modifies buffer
    ensures buffer[..] == Splice(old(buffer[..]), at, Fixed(src, n))
  {
    ghost var was := buffer[..];
    var i := 0;
    while i < n && i < |src| && src[i] != 0
      invariant 0 <= i <= n && i <= |src|
      invariant forall k :: 0 <= k < i ==> src[k] != 0
      invariant forall k :: at <= k < at + i ==> buffer[k] == src[k - at]
      invariant forall k :: 0 <= k < at || at + i <= k < buffer.Length ==> buffer[k] == was[k]
    {
      buffer[at + i] := src[i];
      i := i + 1;
    }
    TextLength(src);
    ghost var end := i;
    assert end < n ==> end == |Text(src)|;
    while i < n
      invariant end <= i <= n
      invariant forall k :: at <= k < at + end ==> buffer[k] == src[k - at]
      invariant forall k :: at + end <= k < at + i ==> buffer[k] == 0
      invariant forall k :: 0 <= k < at || at + i <= k < buffer.Length ==> buffer[k] == was[k]
    {
      buffer[at + i] := 0;
      i := i + 1;
    }
    forall k | 0 <= k < n
      ensures buffer[at + k] == Fixed(src, n)[k]
    {
      FixedAt(src, n, k);
    }
    assert buffer[..] == Splice(was, at, Fixed(src, n));
  }

  method Store(buffer: array<byte>, at: nat, bytes: seq<byte>)
    requires at + |bytes| <= buffer.Length
    modifies buffer
    ensures buffer[..] == Splice(old(buffer[..]), at, bytes)
  {
    forall i | 0 <= i < |bytes| {
      buffer[at + i] := bytes[i];
    }
  }

  /** Message::serialize. */
  method SerializeHead(kind: s32, version: u32, id: u64, buffer: array<byte>, at: nat)
    requires at + MESSAGE_SIZE <= buffer.Length
    modifies buffer
    ensures buffer[..] == Splice(old(buffer[..]), at, HeadBytes(kind, version, id))
  {
    hide Le32, Le64;
    ghost var was := buffer[..];
    var temp := at;
    Store(buffer, temp, Le32(Unsigned32(kind)));
    temp := temp + 4;
    Store(buffer, temp, Le32(version));
    SpliceTwice(was, at, Le32(Unsigned32(kind)), Le32(version));
    temp := temp + 4;
    Store(buffer, temp, Le64(id));
    SpliceTwice(was, at, Le32(Unsigned32(kind)) + Le32(version), Le64(id));
  }

  /** EndPoint::serialize, at a place in the buffer. */
  method SerializeEndPoint(e: EndPoint, buffer: array<byte>, at: nat, bufferLen: int) returns (used: int)
    requires bufferLen >= ENDPOINT_SIZE ==> at + ENDPOINT_SIZE <= buffer.Length
    modifies buffer
    ensures used == if bufferLen < ENDPOINT_SIZE then -1 else ENDPOINT_SIZE
    ensures buffer[..] == if used < 0 then old(buffer[..]) else Splice(old(buffer[..]), at, EndPointBytes(e))
  {
    hide Fixed;
    if bufferLen < ENDPOINT_SIZE {
      return -1;
    }
    ghost var was := buffer[..];
    StrNCpy(buffer, at, e.host, 32);
    StrNCpy(buffer, at + 32, e.location, 32);
    SpliceTwice(was, at, Fixed(e.host, 32), Fixed(e.location, 32));
    StrNCpy(buffer, at + 64, e.service, 16);
    SpliceTwice(was, at, Fixed(e.host, 32) + Fixed(e.location, 32), Fixed(e.service, 16));
    Store(buffer, at + 80, Le32(Unsigned32(e.port)));
    SpliceTwice(was, at, Fixed(e.host, 32) + Fixed(e.location, 32) + Fixed(e.service, 16), Le32(Unsigned32(e.port)));
    return ENDPOINT_SIZE;
  }

  /** strncpy over the whole field, then the terminator on top of its last byte. */
  method CopyText(buffer: array<byte>, at: nat, src: seq<byte>, n: nat)
    requires n > 0 && at + n <= buffer.Length
    modifies buffer
    ensures buffer[..] == Splice(old(buffer[..]), at, Terminated(src, n))
  {
    hide Fixed;
    ghost var was := buffer[..];
    StrNCpy(buffer, at, src, n);
    buffer[at + n - 1] := 0;
    forall k | 0 <= k < n - 1
      ensures Fixed(src, n)[k] == Fixed(src, n - 1)[k]
    {
      FixedAt(src, n, k);
      FixedAt(src, n - 1, k);
    }
    assert Terminated(src, n) == Fixed(src, n)[n - 1 := 0];
    assert buffer[..] == Splice(was, at, Terminated(src, n));
  }

  /** Request::serialize. */
  method SerializeRequest(r: Request, buffer: array<byte>, at: nat, bufferLen: int) returns (rc: int)
    requires at + bufferLen <= buffer.Length
    modifies buffer
    ensures rc == if bufferLen < REQUEST_SIZE then -1 else 0
    ensures buffer[..] == if rc < 0 then old(buffer[..]) else Splice(old(buffer[..]), at, RequestBytes(r))
  {
    hide HeadBytes, EndPointBytes, Terminated;
    if bufferLen < REQUEST_SIZE {
      return -1;
    }
    ghost var was := buffer[..];
    SerializeHead(BASIC_REQUEST, r.version, r.id, buffer, at);
    var temp := at + MESSAGE_SIZE;
    var used := SerializeEndPoint(r.source, buffer, temp, bufferLen - MESSAGE_SIZE);
    ghost var head := HeadBytes(BASIC_REQUEST, r.version, r.id);
    SpliceTwice(was, at, head, EndPointBytes(r.source));
    temp := temp + used;
    CopyText(buffer, temp, r.protocol, 32);
    SpliceTwice(was, at, head + EndPointBytes(r.source), Terminated(r.protocol, 32));
    return 0;
  }

  /** Response::serialize. */
  method SerializeResponse(r: Response, buffer: array<byte>, at: nat, bufferLen: int) returns (rc: int)
    requires at + bufferLen <= buffer.Length
    modifies buffer
    ensures rc == if bufferLen < RESPONSE_SIZE then -1 else 0
    ensures buffer[..] == if rc < 0 then old(buffer[..]) else Splice(old(buffer[..]), at, ResponseBytes(r))
  {
    hide HeadBytes, Terminated, Le32;
    if bufferLen < RESPONSE_SIZE {
      return -1;
    }
    ghost var was := buffer[..];
    SerializeHead(BASIC_RESPONSE, r.version, r.id, buffer, at);
    ghost var head := HeadBytes(BASIC_RESPONSE, r.version, r.id);
    Store(buffer, at + MESSAGE_SIZE, Le32(Unsigned32(r.status)));
    SpliceTwice(was, at, head, Le32(Unsigned32(r.status)));
    CopyText(buffer, at + MESSAGE_SIZE + 4, r.reason, 128);
    SpliceTwice(was, at, head + Le32(Unsigned32(r.status)), Terminated(r.reason, 128));
    return 0;
  }
}
