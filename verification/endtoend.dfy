/** From the sender's queue to the receiver's events: the two halves of a connection put together. */
module EndToEnd {
  import opened Words
  import opened Messages
  import opened Frames
  import opened Receiver
  import opened Framing
  import SendPath

  /** prepareIovecs: header and message in the first vector, then one vector for each attachment buffer. */
  function Vectors(f: Sent): (v: seq<seq<byte>>)
    requires f.Ok()
  {
    var md := f.md;
    [HeaderBytes(f.pad, |MessageBytes(md.message)|, |md.Attachment()|, |md.file|) + MessageBytes(md.message)]
    + md.attachMems
  }

  function AllVectors(fs: seq<Sent>): seq<seq<byte>>
    requires AllOk(fs)
  {
    if fs == [] then [] else Vectors(fs[0]) + AllVectors(fs[1..])
  }

  predicate NoFiles(fs: seq<Sent>) { forall i :: 0 <= i < |fs| ==> fs[i].md.file == [] }

  lemma VectorsAreFrame(f: Sent)
    requires f.Ok() && f.md.file == []
    ensures Flatten(Vectors(f)) == f.Bytes()
  {
    hide HeaderBytes, MessageBytes, Flatten;
    var head := Vectors(f)[0];
    FlattenAppend([head], f.md.attachMems);
    FlattenOne(head);
  }

  lemma FlattenOne(s: seq<byte>)
    ensures Flatten([s]) == s
  {
    assert Flatten([s]) == s + Flatten([]);
  }

  lemma {:induction false} VectorsAreStream(fs: seq<Sent>)
    requires AllOk(fs) && NoFiles(fs)
    ensures Flatten(AllVectors(fs)) == Stream(fs)
  {
    hide Vectors, Sent.Bytes, Sent.Ok;
    if fs != [] {
      VectorsAreFrame(fs[0]);
      FlattenAppend(Vectors(fs[0]), AllVectors(fs[1..]));
      VectorsAreStream(fs[1..]);
    }
  }

  /**
   * Requests without files, posted vector by vector, sent in arbitrary pieces, stopped by the first failure and cut
   * into arbitrary chunks on arrival, some of which may be left unread: the receiver has the first of them, complete and
   * in order, and once everything has arrived it has them all unless one ran into the assertion.
   */
  lemma RequestsCrossTheWire(s: SendPath.SendSide, conn: Conn, fs: seq<Sent>, left: seq<seq<byte>>)
    requires s.Valid() && conn.Valid() && conn.Quiet() && NonEmpty(left) && (left != [] ==> conn.Posted() == [])
    requires Requests(conn.c, fs) && NoFiles(fs) && s.posted == AllVectors(fs)
    requires conn.received + Flatten(left) <= s.early
    ensures |conn.delivered| <= |fs|
    ensures forall i :: 0 <= i < |conn.delivered| ==> conn.delivered[i] == Arrival(conn.c, fs[i].md)
    ensures s.firstError.None? && s.Pending() == [] && conn.received + Flatten(left) == s.early
        ==> (|conn.delivered| == |fs| <==> Clear(conn.c, fs))
  {
    hide Arrival, Requests, Clear, TrapsAfter, Stream, Flatten, Conn.Valid, Conn.Quiet, SendPath.SendSide.Valid;
    AllRequestsOk(conn.c, fs);
    VectorsAreStream(fs);
    s.AcceptedIsPrefix();
    var rest := BytesUnderWay(conn.received, s.early, Stream(fs));
    RequestsArrive(conn, fs, rest);
    if conn.received + Flatten(left) == Stream(fs) {
      AllRequestsArrive(conn, fs, left);
    }
  }

  /** What is still under way: the bytes posted but not yet received. */
  lemma BytesUnderWay(received: seq<byte>, early: seq<byte>, all: seq<byte>) returns (rest: seq<byte>)
    requires received <= early <= all
    ensures received + rest == all
  {
    rest := all[|received|..];
  }

  /** The same for requests and responses: what is delivered is what the frames received so far bring. */
  lemma FramesCrossTheWire(s: SendPath.SendSide, conn: Conn, fs: seq<Sent>)
    requires s.Valid() && conn.Valid() && conn.Quiet()
    requires AllOk(fs) && NoFiles(fs) && s.posted == AllVectors(fs) && conn.received <= s.early
    requires forall i :: 0 <= i < |conn.entries| && i < |fs| ==> Fits(conn.c, conn.entries[i].known, fs[i].md)
    requires |conn.entries| < |fs| ==> Fits(conn.c, conn.known, fs[|conn.entries|].md)
    ensures |conn.entries| <= |fs| && conn.delivered == Deliveries(conn.c, conn.entries, fs)
    ensures forall i :: 0 <= i < |conn.entries| ==> conn.entries[i].bytes == fs[i].Bytes()
  {
    hide Stream, Deliveries, Fits, Conn.Valid, Conn.Quiet, SendPath.SendSide.Valid;
    VectorsAreStream(fs);
    s.AcceptedIsPrefix();
    var rest := BytesUnderWay(conn.received, s.early, Stream(fs));
    FramesDelivered(conn, fs, rest);
    Reception(conn, fs, rest);
  }

  lemma AllRequestsOk(c: Config, fs: seq<Sent>)
    requires Requests(c, fs)
    ensures AllOk(fs)
  {
  }
}
