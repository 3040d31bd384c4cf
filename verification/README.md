# A verified model of lfutil

`lfutil` is the C++ utility library of the repository: an RPC connection layer over TCP, a staged event scheduler with
thread pools and a timer, an MD5 implementation, calendar arithmetic and string routines. This project models these
parts in Dafny and proves what their code promises. Where a promise does not hold on every input, the project proves
exactly when it does and shows an input on which it does not.

`dafny verify dfyconfig.toml` checks everything.

## What is modelled

**From the sender's queue to the receiver's events** (`messages`, `sizing`, `frames`, `receiver`, `framing`, `sendpath`,
`endtoend`). A frame is a 32-byte header (type, three lengths), a message, attachment bytes and file bytes. `Frames` says
what a byte stream means without mentioning vectors or callbacks: where a frame ends and what it delivers.
`Receiver.Conn` is the callback-driven state machine with its posted vectors; its invariant ties the vectors to the bytes
since the last frame boundary, for every way of cutting the stream into chunks. `SendPath.SendSide` is the other half,
with arbitrary short writes and failures. `EndToEnd` puts the two together.

**Ends of things** (`completion`, `lifetime`, `connmgr`). How often a client request is completed; when a
reference-counted connection is destroyed; that the two indexes of the connection manager stay inverse.

**Scheduling** (`threadpool`, `stages`, `timer`). Transition systems over thread positions, queues and counters: no lost
wake-up, token accounting for a stage, a timer thread that never oversleeps.

**Algorithms** (`md5spec`, `md5`, `calendar`, `datetime`, `xmldatetime`, `lstring`). The unrolled streaming MD5 against
sections 3.1 to 3.5 of RFC 1321; Julian day numbers against counting calendar days; durations against Appendix E of XML
Schema Part 2; splitting, replacing and hexadecimal against declarative specifications.

`words` holds machine integers, little-endian encodings and sequence helpers.

Classes model objects that the source updates in place; a method is one critical section under the mutex the source
takes, so a class invariant kept by every method holds over every interleaving of those sections. Thread pools and
connection lifetimes, where the positions of the threads matter, are state machines with a `Step` relation and theorems
over runs. Sockets are adversaries: a parameter says how many bytes each call moves.

## Where the code does less than one would expect

- A header that follows an attachment-only frame is received in a vector marked as the caller's, and
  `recvHeaderCb` asserts that it is not (conncb.cpp:348): with assertions compiled in, the process ends there. Without
  them nothing is lost (`Framing.AllRequestsArrive`, `Framing.SecondAttachmentIsFatal`).
- Draining several full blocks stops one block early (`Sizing.DrainedExactly`); a file longer than one block stalls the
  connection after its first block (`Receiver.Conn.RecvFileCb`).
- Response buffers add up to the attachment exactly when no 32-bit sum and no signed length wraps
  (`Sizing.ResponseSizesConserve`).
- A request is completed once more than it should be when its response overtakes its last vector and that vector is then
  not sent, and once less when its response stops with no receive vector posted, as a file of several blocks does. Each
  is completed exactly once if and only if both apply to it or neither does (`Completion.Client.AllBalanced`,
  `Completion.ResponseOvertakesSend`, `Completion.StalledResponseIsLost`).
- A remover that finds a connection in use names its peer in a log line after giving its mutex back (conn.cpp:225-229);
  by then the last holder may have destroyed it. No other use of a destroyed connection is possible
  (`Lifetime.UseAfterDestroy`, `Lifetime.RemoverTouchesDestroyed`).
- `removeInactive` removes the oldest idle connections if and only if their activity numbers differ (only the last of
  them may share its number with others). Otherwise it leaves out all but one of those that share a number, and may even
  let an older one with a number of its own stay and remove a younger one (`ConnMgrs.ConnMgr.RemoveInactive`,
  `ConnMgrs.SharedNumberSparesOlder`).
- While a service thread waits inside `killThreads` on its own pool, its kill event can be left with nobody awake to take
  it; one thread is missing at most, and none at any other time (`Threadpools.EnoughAwake`,
  `Threadpools.KillFromInsideLosesWakeUp`). `killThreads(0)` is never woken (`Threadpools.KillNothingWaitsForever`), and a
  spurious return from its wait, which is not in a loop, deadlocks with the threads still to retire
  (`Threadpools.EarlyReturnDeadlocks`).
- A timer event whose time has a second or more in its fraction keeps the timer thread checking without sleep until it
  is due (`Timer.TimerStage.CheckTimer`).
- The block loop of `MD5Update` ends if and only if buffered bytes and input together stay below 2^32
  (`Md5.UpdateLoopEnds`).
- `operator+=` leaves a time of day of a whole day when the sum lands on midnight exactly.
- `addDurationDateTime` with a day offset that reaches back past 1 January is at least three days off, because month 0 is
  given 28 days (`DateTimes.DayBeforeNewYear`). So are all months that a month offset counts back past January:
  three months before 31 March is 28 December (`DateTimes.DecemberFromMarch`). `DateTimes.DateTime.AddDuration` says
  exactly when the result is right.
- `toXmlDateTime` prints years the constructor from a string cannot read (`XmlDateTimes.XmlRoundTrip`).

## Model

| member | source | states |
|---|---|---|
| Messages.MessageRoundTrip | lfutil/test/simpledeserializer.cpp:37-84 | whatever follows it in the buffer, a serialized request or response is read back as the same message, text fields cut at their last byte |
| Messages.RequestRoundTrip | lfutil/include/comm/request.h:44-84 | reading a request's bytes gives the request a peer is meant to see |
| Messages.ResponseRoundTrip | lfutil/include/comm/response.h:58-98 | the same for responses, with a signed status |
| Messages.EndPointRoundTrip | lfutil/src/net/endpoint.cpp:137-191 | an endpoint made by its setters survives serialization unchanged |
| Messages.HeadRoundTrip | lfutil/include/comm/message.h:36-78 | type, version and id stand where the reader looks for them, little-endian |
| Messages.TextSurvives | lfutil/include/comm/request.h:44-84 | a text field arrives whole if and only if it leaves room for its terminator |
| Messages.EndPoint.OfIsValid | lfutil/src/net/endpoint.cpp:72-135 | the setters leave fields that are terminated and zero padded, so setting them again changes nothing |
| Messages.OfKeepsTexts | lfutil/src/net/endpoint.cpp:72-135 | each field keeps as much of its text as leaves room for the terminator |
| Messages.SeenIs | lfutil/include/comm/request.h:64-84 | a peer sees what was sent, but for the last text field if that is not terminated |
| Messages.RequestLayout | lfutil/include/comm/request.h:44-63 | the place of every field in the 132 bytes |
| Messages.ResponseLayout | lfutil/include/comm/response.h:58-77 | the place of every field in the 148 bytes |
| Messages.FieldBytes | lfutil/src/net/endpoint.cpp:137-164 | a field holds its text and zeros after it |
| Messages.Deserializes | lfutil/test/simpledeserializer.cpp:37-84 | exactly the two known types are read, each only with all its bytes, and the head fields are those in the buffer |
| Messages.StrNCpy | lfutil/src/net/endpoint.cpp:137-164 | the copying loop overwrites exactly n bytes of the buffer: the text, then zeros |
| Messages.SerializeEndPoint | lfutil/src/net/endpoint.cpp:137-164 | writes exactly the 84 bytes of the layout at its place in the buffer, or nothing and -1 if the buffer is short |
| Messages.SerializeRequest | lfutil/include/comm/request.h:44-63 | writes exactly the 132 bytes of the layout through the advancing pointer, or nothing and -1 |
| Messages.SerializeResponse | lfutil/include/comm/response.h:58-77 | writes exactly the 148 bytes of the layout, or nothing and -1 |
| Sizing.AllocAttachIoVecs | lfutil/src/net/conncb.cpp:451-506 | appends the blocks of the recursive definition to the buffers already there |
| Sizing.Sizes | lfutil/src/net/conncb.cpp:451-506 | blocks are positive, no larger than the limit, and add up to the length |
| Sizing.SizesAreFull | lfutil/src/net/conncb.cpp:451-506 | all blocks but the last have the full size |
| Sizing.PrepareRspAttach | lfutil/src/net/conncb.cpp:604-694 | the equal, truncating and extending branches, with their 32-bit sum and signed length, compute ResponseSizes |
| Sizing.ResponseSizesConserve | lfutil/src/net/conncb.cpp:604-694 | the buffers add up to the attachment if and only if the length stays below 2^31 when truncating and the caller's sizes below 2^32 otherwise |
| Sizing.ResponseSizesRespectCaller | lfutil/src/net/conncb.cpp:604-694 | no buffer of the caller is enlarged or moved, and every added one is a positive block |
| Sizing.TruncateFills | lfutil/src/net/conncb.cpp:636-660 | each buffer keeps what the ones before it leave over of the length, no more than its own size |
| Sizing.HugeResponseLosesAll | lfutil/src/net/conncb.cpp:636-660 | 2^31 bytes into slightly larger buffers: all sizes become 0 |
| Sizing.DrainedExactly | lfutil/src/net/conncb.cpp:1017-1048 | a drain takes exactly its length if and only if it fits one block or is no multiple of the block, and is one block short otherwise |
| Sizing.TwoBlocksLoseOne | lfutil/src/net/conncb.cpp:1017-1048 | draining two full blocks takes one |
| Frames.FrameLenStable | lfutil/src/net/conncb.cpp:305-366 | bytes that come later never change where a frame ends |
| Frames.VerdictStable | lfutil/src/net/conncb.cpp:1086-1150 | nor whether its message is taken or refused |
| Frames.FrameLengths | lfutil/src/net/conncb.cpp:305-397 | the length of a foreign frame, of a refused one and of one that is taken, from the three lengths of its header |
| Frames.MalformedAnswered | lfutil/src/net/conncb.cpp:1086-1150 | a message that cannot be read is answered as malformed and brings nothing else |
| Frames.SplitUnique | lfutil/src/net/conncb.cpp:399-439 | the contents of the buffers are the only pieces of those sizes that make up the attachment |
| Receiver.Arrive | lfutil/src/net/conn.cpp:633-655 | bytes stored in the current vector keep the relation between posted vectors and stream, in each of the five states |
| Receiver.Conn.constructor | lfutil/src/net/iovutil.cpp:233-265 | a connection starts at a frame boundary with one empty header vector |
| Receiver.Conn.AddEventEntry | lfutil/src/net/conn.cpp:1132-1145 | adds a request to the map, never replacing one, and counts it as entered; posted vectors and the relation to the stream are as before |
| Receiver.Conn.AnsweredOnce | lfutil/src/net/conncb.cpp:728-752 | each time a request is entered it is still expected, being answered or answered, only one of these, so no more responses to it are delivered than it was entered |
| Receiver.AnsweredCounts | lfutil/src/net/conn.cpp:1147-1174 | a response counts for the request with the low 32 bits of its id |
| Receiver.Conn.RecvHeaderCb | lfutil/src/net/conncb.cpp:305-366 | keeps the relation for an RPC header, another type (drained) and a failed assertion (stopped) |
| Receiver.Conn.Prepare2Drain | lfutil/src/net/conncb.cpp:368-397 | starts a drain of the announced length, or ends the frame when nothing is left of it |
| Receiver.Conn.RecvMessageCb | lfutil/src/net/conncb.cpp:1084-1150 | keeps the relation and the balance of requests; a message is judged by the requests known at that moment; a response removes the entry of its id, and nothing else does |
| Receiver.Conn.RecvReqMsg | lfutil/src/net/conncb.cpp:540-602 | a request is always taken, and its attachment, file or the next header is awaited |
| Receiver.Conn.RecvRspMsg | lfutil/src/net/conncb.cpp:728-826 | a response is taken if its request is known and drained otherwise, and the entry of its id is gone afterwards |
| Receiver.Conn.RecvAttachmentCb | lfutil/src/net/conncb.cpp:1153-1182 | the buffers fill one after the other; the last one leads to the file or completes the frame |
| Receiver.Conn.RecvFileCb | lfutil/src/net/conncb.cpp:960-1015 | a file of one block completes the frame; after the first block of a longer one nothing is posted |
| Receiver.Conn.RecvDrainCb | lfutil/src/net/conncb.cpp:1017-1048 | keeps the relation while the blocks of a drain go by |
| Receiver.Conn.RecvCallback | lfutil/src/net/conncb.cpp:1050-1231 | every full vector keeps the relation, and a vector without bytes brings the machine forward |
| Receiver.Conn.RecvvecProgress | lfutil/src/net/conn.cpp:616-703 | bytes are neither lost nor read twice while the current vector fills |
| Receiver.Conn.RecvProgress | lfutil/src/net/conn.cpp:705-757 | ends for every sequence of chunks; every byte is consumed unless no vector is posted |
| Receiver.Conn.QuietMeansOpen | lfutil/src/net/conn.cpp:705-757 | when no more can be done, the bytes past the last boundary are not a whole frame, and the state is HEADER exactly if they are fewer than a header |
| Receiver.Conn.BoundaryIsOpenEmpty | lfutil/src/net/conncb.cpp:696-726 | an empty header vector is posted exactly at a frame boundary |
| Framing.FillHeader | lfutil/src/net/iovutil.cpp:107-119 | the header fields land in their places, and the four bytes after the type string keep whatever was there |
| Framing.MakeRpcMessage | lfutil/src/net/iovutil.cpp:71-140 | header and message in one buffer; with the attachments and the file behind it, it is the frame |
| Framing.HeaderLayout | lfutil/src/net/iovutil.cpp:107-119 | type string, unwritten bytes, the three lengths, message, attachment and file, each in its place |
| Framing.HeaderRoundTrip | lfutil/src/net/conncb.cpp:305-345 | the receiver reads back type, lengths and message of a frame, whatever follows it |
| Framing.JudgeEncoded | lfutil/src/net/conncb.cpp:1086-1150 | which message and which buffers the receiver settles on for a sent frame |
| Framing.FitsIs | lfutil/src/net/conncb.cpp:604-694 | what it takes for a frame to be taken as sent: a file of one block and buffer sizes that do not wrap, or a drain that does not stop early |
| Framing.BuffersAre | lfutil/src/net/conncb.cpp:604-694 | a request goes into full blocks, a response into the buffers given for its request, each filled as far as the ones before leave it, and then into full blocks |
| Framing.CutAsSent | lfutil/src/net/conncb.cpp:305-366 | a frame is cut where its sender ended it if and only if the header vector passes the assertion and the receiver takes exactly the bytes sent |
| Framing.FrameMeaning | lfutil/src/net/conncb.cpp:540-602 | a frame cut as sent delivers its message, its attachment in the receiver's buffers and its file, or nothing if refused |
| Framing.FramesMatch | lfutil/src/net/conncb.cpp:1050-1231 | two ways to cut a stream agree: every received frame is the one sent in its place |
| Framing.Reception | lfutil/src/net/conncb.cpp:1050-1231 | for requests and responses, at any point of any chunking: the frames received are the first sent, and what is left is a proper part of the next |
| Framing.FramesDelivered | lfutil/src/net/conncb.cpp:540-867 | everything delivered, at any point of any chunking: requests, and responses whose request was known, each with its whole attachment, in order; no accepted frame is dropped, and no request is answered more often than it was entered |
| Framing.DeliveryIs | lfutil/src/net/conncb.cpp:540-867 | an accepted frame brings its message, all its attachment bytes in its buffers and its file; any other brings nothing |
| Framing.RequestsArrive | lfutil/src/net/conncb.cpp:540-602 | requests arrive complete, in order and as soon as they can, and the HEADER state is at rest exactly at their boundaries |
| Framing.ArrivalIs | lfutil/src/net/conncb.cpp:540-602 | a request arrives with its message, all its attachment bytes in order, in blocks, and its file |
| Framing.AllRequestsArrive | lfutil/src/net/conncb.cpp:305-366 | all requests of a stream fed to a connection arrive if and only if assertions are off or no attachment-only request precedes another; otherwise the process ends behind the header of the one after the first such request, with those before it delivered |
| Framing.ReceiveAll | lfutil/src/net/conn.cpp:705-757 | a fresh connection fed such a stream in any chunks delivers the requests in order, and all of them, taking every byte and ending at a boundary, if and only if none runs into the assertion |
| Framing.SecondAttachmentIsFatal | lfutil/src/net/conncb.cpp:348 | a run with assertions and two one-byte attachments in a row: it ends in the assertion with one request delivered |
| SendPath.SendSide.PostSend | lfutil/src/net/conn.cpp:382-409 | vectors join the queue in order, keeping the invariant |
| SendPath.SendSide.SetReadyToSend | lfutil/src/net/conn.cpp:558-562 | the flag alone changes, and with it the send loop may run |
| SendPath.SendSide.Push | lfutil/src/net/conn.cpp:468-496 | the current vector advances by exactly what the send calls accept; it is done if and only if results fill it, and otherwise the turn ends with a wait if and only if the first result that takes nothing asks for one or is missing |
| SendPath.EveryOutcome | lfutil/src/net/conn.cpp:468-530 | the same three conditions for any results and any room, with the number of bytes accepted |
| SendPath.SendSide.MarkForCleanup | lfutil/src/net/conn.cpp:205-232 | the mark alone changes; a sender that finds it sends nothing more and calls back with an error |
| SendPath.SendSide.SendvecProgress | lfutil/src/net/conn.cpp:452-556 | SUCCESS if and only if the results fill the vector; else at the first result that takes nothing: UNAVAIL, keeping the vector, if it is EAGAIN or missing, and BROKEN, with an ERROR callback, if it fails or takes zero bytes; on a connection marked for cleanup nothing is sent and an unfinished vector ends in ERROR |
| SendPath.SendSide.SendTurn | lfutil/src/net/conn.cpp:564-614 | one turn under the send mutex keeps order and content |
| SendPath.SendSide.SendProgress | lfutil/src/net/conn.cpp:564-614 | ends with nothing left to send, a full socket or a failure, and only adds callbacks and accepted bytes |
| SendPath.SendSide.Cleanup | lfutil/src/net/conn.cpp:205-283 | afterwards every vector ever posted has had exactly one callback |
| SendPath.SendSide.AcceptedIsPrefix | lfutil/src/net/conn.cpp:452-556 | the bytes accepted before the first error are a prefix of everything posted, and contain every vector reported done before it |
| SendPath.CleanedOnce | lfutil/src/net/conn.cpp:236-263 | calling back the queue first and the current vector last still reaches each once |
| EndToEnd.VectorsAreFrame | lfutil/src/net/iovutil.cpp:142-179 | the vectors of a message concatenate to its frame |
| EndToEnd.RequestsCrossTheWire | lfutil/src/comm/commstage.cpp:237-314 | posted requests, sent in pieces up to the first failure and received in chunks, are delivered as the first of those posted; when nothing fails and everything arrives, all of them if and only if none runs into the assertion |
| EndToEnd.FramesCrossTheWire | lfutil/src/comm/commstage.cpp:237-314 | the same for requests and responses together |
| Completion.Client.Enter | lfutil/src/comm/commstage.cpp:262-283 | a new request enters the map, owed one completion |
| Completion.Client.CleanupFailedReq | lfutil/src/comm/commstage.cpp:224-235 | a request that cannot be prepared leaves the map and is completed |
| Completion.Client.Post | lfutil/src/comm/commstage.cpp:285-313 | its last vector now carries it |
| Completion.Client.LastVectorSent | lfutil/src/net/conncb.cpp:1240-1245 | a sent vector completes nothing: the response will |
| Completion.Client.LastVectorFailed | lfutil/src/net/conncb.cpp:1233-1273 | completes the request of the failed vector and keeps the balance, counting it as unsent |
| Completion.Client.ResponseArrives | lfutil/src/net/conncb.cpp:728-752 | a known request leaves the map for the receiver; the response overtakes it if its vector is still queued |
| Completion.Client.EventDone | lfutil/src/net/conncb.cpp:828-867 | the response completes its request |
| Completion.Client.Stall | lfutil/src/net/conncb.cpp:960-1015 | after the first block of a longer file, or a failed write, no receive vector is posted and the request is still owed |
| Completion.Client.RecvErrCb | lfutil/src/net/conncb.cpp:105-158 | an error in the middle of a response completes its request, once |
| Completion.Client.Sweep | lfutil/src/net/conncb.cpp:67-82 | everything left in the map is completed and the map is empty |
| Completion.Client.DropRecvCb | lfutil/src/net/conncb.cpp:84-89 | the request being received is lost with the callback parameter that holds it |
| Completion.Client.Cleanup | lfutil/src/net/conn.cpp:205-283 | afterwards every request ever entered has been completed once, and once more if overtaken and then unsent, and once less if its response had stopped with nothing posted |
| Completion.Client.AllBalanced | lfutil/src/net/conncb.cpp:1233-1273 | once nothing is outstanding, a request has been completed exactly once if and only if it was lost exactly when it was overtaken and then unsent |
| Completion.ResponseOvertakesSend | lfutil/src/net/conncb.cpp:751-759 | a run in which a request is completed twice |
| Completion.StalledResponseIsLost | lfutil/src/net/conncb.cpp:1005-1010 | a run at whose end a request has not been completed |
| Lifetime.StepKeepsInv | lfutil/src/net/conn.cpp:205-341 | finding, releasing, removing and deferred cleanup keep the count of those who hold and those who will destroy |
| Lifetime.UseAfterDestroy | lfutil/src/net/conn.cpp:205-326 | in every run a thread touches a destroyed connection if and only if it is a remover between the unlock and the end of cleanup; a connection that can be found is not marked |
| Lifetime.RemoverTouchesDestroyed | lfutil/src/net/conn.cpp:220-232 | a run that ends with a remover in that place after the destruction |
| Lifetime.DestroyedOnce | lfutil/src/net/conn.cpp:205-326 | at most one destruction, after marking, with no reference left, no way to find it and no thread touching it but such a remover |
| Lifetime.SettledIsDestroyed | lfutil/src/net/connmgr.cpp:153-192 | when all threads are done it has been destroyed exactly once if it was removed and not at all otherwise |
| Lifetime.SomeoneWillDestroy | lfutil/src/net/conn.cpp:295-326 | a connection marked and not yet destroyed has a thread with a step enabled that brings its destruction nearer |
| Lifetime.MarkedIsDestroyed | lfutil/src/net/conn.cpp:295-326 | once marked, the steps left to destruction never become more, each release, deferred cleanup and destruction makes them fewer, and at none the connection has been destroyed |
| ConnMgrs.ConnMgr.Find | lfutil/src/net/connmgr.cpp:80-94 | the connection found has one more reference; nothing else changes |
| ConnMgrs.ConnMgr.FindEndPoint | lfutil/src/net/connmgr.cpp:96-108 | finds the smallest socket inserted under the endpoint, if any |
| ConnMgrs.ConnMgr.Insert | lfutil/src/net/connmgr.cpp:110-150 | keeps the two maps inverse; a socket already there is refused and nothing changes |
| ConnMgrs.ConnMgr.Remove | lfutil/src/net/connmgr.cpp:153-192 | removes the socket from both maps, cleaning it up once, or reports that it is not there |
| ConnMgrs.ConnMgr.SelectInactive | lfutil/src/net/connmgr.cpp:194-221 | the selection loop computes Selection, the sockets in ascending order |
| ConnMgrs.NextKeepsBest | lfutil/src/net/connmgr.cpp:210-220 | a connection considered never drives out a number of the oldest, and its own is taken in if it is one of those |
| ConnMgrs.BestExists | lfutil/src/net/connmgr.cpp:194-223 | if the old numbers differ there is a set of the oldest idle connections with different numbers |
| ConnMgrs.BestDiffers | lfutil/src/net/connmgr.cpp:194-223 | and only then |
| ConnMgrs.ConnMgr.RemoveInactive | lfutil/src/net/connmgr.cpp:194-235 | at most the limit go, the oldest of those chosen first, none of them in use; for every limit they are the oldest idle ones if and only if no idle connection with fewer than limit - 1 older ones shares its number, and strictly older than all others if and only if none with fewer than limit does |
| ConnMgrs.OldestSelected | lfutil/src/net/connmgr.cpp:194-223 | the same two conditions for the selection, and within the limit all idle connections are selected if and only if their numbers differ |
| ConnMgrs.SharedNumberSparesOlder | lfutil/src/net/connmgr.cpp:205-220 | a run in which a connection with a number of its own stays and a younger one goes |
| Threadpools.ScheduleKeeps | lfutil/src/seda/threadpool.cpp:243-260 | pushing an entry without a signal loses no wake-up when the caller is awake in the pool |
| Threadpools.StepKeepsInv | lfutil/src/seda/threadpool.cpp:274-337 | every step of every thread keeps the counters, the place of the one thread inside killThreads, and the wake-up property with it counted in |
| Threadpools.EnoughAwake | lfutil/src/seda/threadpool.cpp:243-337 | in every reachable state at least min(live, queued) threads that are not retiring are awake, unless a service thread waits inside killThreads, and then at most one is missing |
| Threadpools.KillFromInsideLosesWakeUp | lfutil/src/seda/threadpool.cpp:143-176 | a run in which a service thread calls killThreads and its kill event wakes nobody |
| Threadpools.RetirementsAreCounted | lfutil/src/seda/killthread.cpp:33-40 | nthreads counts the threads left, threadsToKill the retirements not yet reported, never more than there are threads |
| Threadpools.KillNothingWaitsForever | lfutil/src/seda/threadpool.cpp:143-176 | only a spurious return ends a wait for zero retirements |
| Threadpools.KillNothingHappens | lfutil/src/seda/threadpool.cpp:143-176 | a run that reaches such a wait |
| Threadpools.SomeoneWillRetire | lfutil/src/seda/threadpool.cpp:143-198 | while killThreads waits for retirements a service thread can take a step that brings its end nearer, unless a service thread called it and all others are asleep |
| Threadpools.OthersAreAsleep | lfutil/src/seda/threadpool.cpp:143-198 | in that case the pool has no step left but the exit of threads already retired |
| Threadpools.PoolStepIsNearer | lfutil/src/seda/threadpool.cpp:274-337 | every step of a service thread, other than a spurious wake-up, uses up one of finitely many steps left |
| Threadpools.DisconnectEnds | lfutil/src/seda/threadpool.cpp:143-176 | after the last retirement a step is enabled that completes the disconnect or lets a retired thread leave |
| Threadpools.DisconnectIsNotDelayed | lfutil/src/seda/threadpool.cpp:143-176 | and no step of anybody sets it back |
| Threadpools.KillRetires | lfutil/src/seda/threadpool.cpp:143-198 | a transaction begun with n retires n threads, or all there are if those are fewer: at any point those retired since and those still owed are so many, and at its end none is owed |
| Threadpools.EntriesInOrder | lfutil/src/seda/threadpool.cpp:243-307 | entries leave the run queue in the order in which they entered, each to one awake thread that works on it or retires |
| Threadpools.PhasesFollow | lfutil/src/seda/threadpool.cpp:274-337 | in a step at most one thread moves, along the arcs of the service loop; one inside killThreads goes on where it was |
| Threadpools.EarlyReturnDeadlocks | lfutil/src/seda/threadpool.cpp:143-176 | after a return before the last retirement, the disconnect never completes and no thread retires |
| Threadpools.EarlyReturnHappens | lfutil/src/seda/threadpool.cpp:143-176 | a run that gets there |
| Stages.Stage.Connect | lfutil/src/seda/stage.cpp:99-128 | every queued event is counted and owed a schedule call |
| Stages.Stage.AddEvent | lfutil/src/seda/stage.cpp:171-192 | appends the event, counting it if the stage is connected |
| Stages.Stage.Schedule | lfutil/src/seda/threadpool.cpp:243-260 | the queue is never empty and the pool never gone when schedule is called |
| Stages.Stage.RemoveEvent | lfutil/src/seda/stage.cpp:234-247 | there is always an event to remove, and it is the oldest |
| Stages.Stage.ReleaseEvent | lfutil/src/seda/stage.cpp:255-264 | gives one reference back, and the last one of a stage being disconnected signals |
| Stages.Stage.DisconnectBegin | lfutil/src/seda/stage.cpp:143-155 | waits only while references are left |
| Stages.Stage.DisconnectWake | lfutil/src/seda/stage.cpp:143-161 | when disconnect completes, no entry, outstanding schedule call or running handler remains |
| Stages.Stage.NothingLeft | lfutil/src/seda/stage.cpp:143-161 | a reference count of zero means that nothing of the stage is left anywhere |
| Stages.Stage.FirstInFirstOut | lfutil/src/seda/stage.cpp:171-264 | removed events are a prefix of those added; each is queued, being handled or handled, once |
| Stages.Stage.DisconnectIsSignalled | lfutil/src/seda/stage.cpp:255-264 | a waiting disconnect that has not been signalled has somebody left who will release |
| Timer.SubTimeval | lfutil/src/seda/timerstage.cpp:33-44 | the exact difference; normalized exactly when the microseconds differ by less than a second |
| Timer.AddTimeval | lfutil/src/seda/timerstage.cpp:46-57 | the exact sum; normalized exactly when the microseconds do not add up below zero |
| Timer.NormalTimes | lfutil/src/seda/timerstage.cpp:25-29 | on normalized times comparing fields is comparing instants |
| Timer.TokenOrder | lfutil/src/seda/timerstage.cpp:134-142 | tokens are strictly and totally ordered |
| Timer.TimerStage.MakeToken | lfutil/src/seda/timerstage.cpp:79-106 | a new token differs from every one issued or registered, and comes after them among equal times |
| Timer.TimerStage.RegisterTimer | lfutil/src/seda/timerstage.cpp:395-426 | the insertion always succeeds, in order, and a new head is known to need a signal |
| Timer.TimerStage.CancelTimer | lfutil/src/seda/timerstage.cpp:428-453 | reports success if and only if the event was pending, and then removes exactly that one |
| Timer.TimerStage.CheckTimer | lfutil/src/seda/timerstage.cpp:476-557 | fires exactly the events due, in order, equal times in the order of their tokens; then sleeps until the time of the next event, for good if there is none, or checks again at once if that time is not normalized; woken by its deadline it fires at least one event unless that one was cancelled |
| Timer.TimerStage.TriggerTimerCheck | lfutil/src/seda/timerstage.cpp:455-465 | pays the signal that a new head owes |
| Timer.TimerStage.Shutdown | lfutil/src/seda/timerstage.cpp:341-348 | a sleeping thread is signalled, so shutdown is not slept through |
| Timer.TimerStage.FateOf | lfutil/src/seda/timerstage.cpp:395-557 | a registered event is pending, fired or cancelled, never two of these, and its token is its own |
| Timer.TimerStage.NoEventOversleeps | lfutil/src/seda/timerstage.cpp:521-551 | while the thread sleeps undisturbed and no signal is owed, it wakes no later than any pending event |
| Timer.TimerStage.EqualTimesInOrder | lfutil/src/seda/timerstage.cpp:134-142 | of events with the same time the one whose token was made first stands first |
| Timer.PutInOrder | lfutil/src/seda/timerstage.cpp:405-418 | inserting before the first token that is not less keeps the queue ordered, and makes a new head only at the front |
| Md5.RotationIsShifts | lfutil/src/math/md5.cpp:45-48 | shifting left and right and joining is s single-bit rotations, for every word and distance |
| Md5Spec.MixingBits | lfutil/src/math/md5.cpp:40-43 | F and G choose each bit by one of the words, H is the parity, I compares y with x or not z |
| Md5Spec.RotationBits | lfutil/src/math/md5.cpp:48 | a rotation moves every bit n places up and round |
| Md5Spec.InitialBytes | lfutil/src/math/md5.cpp:78-89 | the registers begin with the bytes 01 23 .. ef fe dc .. 10 |
| Md5Spec.RoundTables | lfutil/src/math/md5.cpp:174-243 | the mixing function of each round, and its message words in steps of 1, 5, 3 and 7 |
| Md5Spec.Rotations | lfutil/src/math/md5.cpp:174-243 | the four rotations of each round |
| Md5Spec.SineOfOne | lfutil/src/math/md5.cpp:174-243 | the table begins with the integer part of 2^32 sin 1, computed from the series |
| Md5Spec.Sines1 | lfutil/src/math/md5.cpp:174-190 | entries 1 to 17, with signs, obey sin(k + 1) + sin(k - 1) = 2 cos 1 sin k up to rounding |
| Md5Spec.Sines2 | lfutil/src/math/md5.cpp:191-208 | entries 16 to 33 do |
| Md5Spec.Sines3 | lfutil/src/math/md5.cpp:209-226 | entries 32 to 49 do |
| Md5Spec.Sines4 | lfutil/src/math/md5.cpp:227-243 | entries 48 to 64 do |
| Md5Spec.OperationIs | lfutil/src/math/md5.cpp:54-73 | an operation adds mixing function, word and table entry, rotates and adds b, modulo 2^32, and the registers take turns |
| Md5Spec.InTurn | lfutil/src/math/md5.cpp:165-256 | operations and blocks follow one another; words come low byte first |
| Md5Spec.DigestIs | lfutil/src/math/md5.cpp:135-160 | a block adds its outcome to the registers, and the digest is their bytes, low byte first |
| Md5Spec.PadIs | lfutil/src/math/md5.cpp:141-155 | a one bit, zeros and the 64-bit length, no longer than needed |
| Md5.Round1 | lfutil/src/math/md5.cpp:174-190 | sixteen unrolled steps with rotating registers are sixteen indexed operations of RFC 1321 section 3.4 |
| Md5.AllRounds | lfutil/src/math/md5.cpp:165-246 | the 64 unrolled steps are the 64 indexed ones, for every state and block |
| Md5.Encode | lfutil/src/math/md5.cpp:258-271 | words as little-endian bytes |
| Md5.Decode | lfutil/src/math/md5.cpp:273-287 | bytes as little-endian words |
| Md5Spec.BytesOfWordsOf | lfutil/src/math/md5.cpp:258-287 | encoding undoes decoding |
| Md5Spec.WordsOfBytesOf | lfutil/src/math/md5.cpp:258-287 | decoding undoes encoding |
| Md5.Context.Transform | lfutil/src/math/md5.cpp:165-256 | one call is one application of the compression function |
| Md5.UpdateLoopEnds | lfutil/src/math/md5.cpp:118-119 | the block loop ends if and only if buffered bytes and input together stay below 2^32 |
| Md5.UpdateLoopCanDiverge | lfutil/src/math/md5.cpp:118-119 | after one buffered byte, 2^32 - 1 more are never absorbed |
| Md5.CountStep | lfutil/src/math/md5.cpp:103-106 | the two 32-bit words with their carry count 8 times the length modulo 2^64 |
| Md5.Context.Update | lfutil/src/math/md5.cpp:95-129 | the context stays the fold of the compression function over the whole blocks, with the rest buffered and the length counted |
| Md5.Context.Final | lfutil/src/math/md5.cpp:135-160 | returns the one-shot digest of everything absorbed, and clears the context |
| Md5.DigestChunks | lfutil/src/math/md5.cpp:337-357 | however a file is cut into reads, the digest is that of the whole |
| Md5.DigestBuffer | lfutil/src/math/md5.cpp:316-335 | one call digests any buffer an unsigned length can describe |
| Md5Spec.FoldTail | lfutil/src/math/md5.cpp:95-129 | folding is determined by the blocks so far and the buffered rest, wherever the message is split |
| Md5Spec.PadFillsBlocks | lfutil/src/math/md5.cpp:145-152 | padding and length end on a block boundary |
| Calendar.JulianDateCounts | lfutil/include/time/datetime.h:256-264 | the formula is the number of days counted from 1 March -4800, for every valid date from then on |
| Calendar.JulianDateIncreases | lfutil/include/time/datetime.h:256-264 | it is strictly increasing in year, month and day |
| Calendar.JulianDateStep | lfutil/include/time/datetime.h:256-264 | the next day has the next number |
| Calendar.KnownDays | lfutil/include/time/datetime.h:256-277 | 1 January 2000 is day 2451545, and other well-known days |
| Calendar.KnownLeapDays | lfutil/include/time/datetime.h:256-264 | 2000 and 2024 have a leap day, 1900 and 2023 do not |
| Calendar.GetYMDSound | lfutil/include/time/datetime.h:266-277 | every day number yields a valid date with that number |
| Calendar.GetYMDUndoesJulianDate | lfutil/include/time/datetime.h:256-277 | every valid date is recovered from its number |
| Calendar.NoOverflow | lfutil/include/time/datetime.h:266-277 | every intermediate value of getYMD and its three results fit 32 bits if and only if the day number is at most 536838867 |
| Calendar.JulianDateFits | lfutil/include/time/datetime.h:256-264 | so does every intermediate value of julianDate for dates up to the year 1465102, where that day lies |
| Calendar.MaxDayIsMonthLength | lfutil/src/time/datetime.cpp:228-256 | the month lengths agree with the calendar for months 1 to 12 |
| DateTimes.DateTime.AddSeconds | lfutil/include/time/datetime.h:187-203 | the instant moves by exactly the seconds, and the time of day stays below a day if and only if the sum is not exactly midnight |
| DateTimes.MidnightIsMissed | lfutil/include/time/datetime.h:187-203 | a run of the operator whose sum is exactly midnight, left as a time of a whole day |
| DateTimes.DateTime.AddDuration | lfutil/src/time/datetime.cpp:141-226 | for every duration the result is exact if and only if Exact: the day offset stays in the shifted year, or, for months counted back past January, no day is lost to their 28 days; non-negative durations always meet this. Years and months alone move the month by their number and keep the day or the last one of a shorter month; without them the instant moves by exactly the rest, under the same condition |
| DateTimes.MonthsShifted | lfutil/src/time/datetime.cpp:157-196 | the shifted date is 12 * years + months months away, on the same day or the last of a shorter month |
| DateTimes.ExactMeans | lfutil/src/time/datetime.cpp:141-226 | the exact result is the day number of that date and the time of day, plus days, hours, minutes and seconds |
| DateTimes.CarryDays | lfutil/src/time/datetime.cpp:198-222 | the carry loop ends, for every day offset, where the single steps of Carry lead |
| DateTimes.Carry.ForwardConserves | lfutil/src/time/datetime.cpp:207-221 | a step forward denotes the same day |
| DateTimes.Carry.BackConserves | lfutil/src/time/datetime.cpp:200-221 | a step back within the year denotes the same day |
| DateTimes.Carry.BackLoses | lfutil/src/time/datetime.cpp:200-221 | a step back from January or before loses what the month has beyond 28 days, except that from February to January |
| DateTimes.Carry.ForwardGains | lfutil/src/time/datetime.cpp:198-222 | a step forward out of a month counted back gains what it has beyond 28 days |
| DateTimes.Carry.SettledForward | lfutil/src/time/datetime.cpp:198-222 | a day that is too large is carried without loss |
| DateTimes.Carry.SettledBack | lfutil/src/time/datetime.cpp:198-222 | a day below 1 is exact within its year, and at least three days early past 1 January |
| DateTimes.SettledBackMonth | lfutil/src/time/datetime.cpp:198-222 | from a month counted back: how many days the loop is late or early, and exactly when none |
| DateTimes.TimeIsCarried | lfutil/src/time/datetime.cpp:164-178 | days and time of day carried out of the seconds, minutes and hours add up exactly |
| DateTimes.DayBeforeNewYear | lfutil/src/time/datetime.cpp:200-205 | one day before any 1 January the loop is at 28 December |
| DateTimes.DecemberFromMarch | lfutil/src/time/datetime.cpp:179-196 | three months before 31 March are not exact, and with one more day they are |
| XmlDateTimes.ToXmlDateTime | lfutil/src/time/datetime.cpp:107-133 | the year, then each two-digit number and each literal in its place up to the final Z, from the date and the time; readable if and only if the year has at most four characters |
| XmlDateTimes.PrintedAt | lfutil/src/time/datetime.cpp:107-133 | where everything stands in the printed string, and its length |
| XmlDateTimes.DecimalDigits | lfutil/src/time/datetime.cpp:107-133 | the year is its digits without a zero in front, after a minus sign if negative |
| XmlDateTimes.PrintAndRead | lfutil/src/time/datetime.cpp:27-133 | a date printed by toXmlDateTime and read by the constructor is the same date and time to the whole second, if and only if its year is from -999 to 9999 |
| XmlDateTimes.PrintScan | lfutil/src/time/datetime.cpp:27-34 | printed fields are read back as they were exactly for years from -999 to 9999 |
| XmlDateTimes.ScanYear | lfutil/src/time/datetime.cpp:27-34 | a year printed without padding is read through a width of four, sign included |
| XmlDateTimes.ScanDigits | lfutil/src/time/datetime.cpp:27-34 | a number of no more digits than its width is read as it stands, padded or not |
| XmlDateTimes.ScanDigitsThen | lfutil/src/time/datetime.cpp:27-34 | so is one with its literal behind it |
| XmlDateTimes.ScanParts | lfutil/src/time/datetime.cpp:27-34 | six numbers of widths 4, 2, 2, 2, 2 and 2 with their literals between make a value |
| XmlDateTimes.XmlRoundTrip | lfutil/src/time/datetime.cpp:107-133 | printing and reading restores the date and the time to the second, exactly for those years |
| XmlDateTimes.YearTenThousand | lfutil/src/time/datetime.cpp:27-34 | the year 10000 is not read back |
| LStrings.SplitString | lfutil/src/lang/lstring.cpp:104-122 | appends the non-empty fields between delimiters, in order |
| LStrings.SplitStringSet | lfutil/src/lang/lstring.cpp:84-102 | adds exactly the non-empty fields |
| LStrings.FieldsWeave | lfutil/src/lang/lstring.cpp:104-122 | fields contain no delimiter, and with the delimiters between them give the input again |
| LStrings.FieldsUnique | lfutil/src/lang/lstring.cpp:104-122 | no other strings do |
| LStrings.NonEmptyParts | lfutil/src/lang/lstring.cpp:104-122 | dropping the empty fields keeps all others in their order |
| LStrings.SplitInPlace | lfutil/src/lang/lstring.cpp:124-144 | the C strings at the places returned, in the array as the loop leaves it, are the fields of the copying splitter, the empty ones kept or dropped; kept, they rejoin with the delimiter to the original text |
| LStrings.Replace | lfutil/src/lang/lstring.cpp:147-181 | rejoins the gaps between occurrences with the new string; the early returns make no difference |
| LStrings.GapsFactor | lfutil/src/lang/lstring.cpp:147-181 | the gaps are the leftmost non-overlapping factorization of the input |
| LStrings.GapsUnique | lfutil/src/lang/lstring.cpp:147-181 | there is no other |
| LStrings.Bin2Hex | lfutil/src/lang/lstring.cpp:185-196 | the buffer holds the terminated hexadecimal text of the bytes |
| LStrings.Hex2Bin | lfutil/src/lang/lstring.cpp:198-228 | the buffer holds the bytes of the pairs, as strtol reads them, and a terminator |
| LStrings.HexAt | lfutil/src/lang/lstring.cpp:185-196 | each byte becomes its two lower-case digits, the higher first |
| LStrings.UnhexReads | lfutil/src/lang/lstring.cpp:198-228 | any text of digits for some bytes, upper or lower case, is read as those bytes |
| LStrings.SignsRead | lfutil/src/lang/lstring.cpp:198-228 | a blank or a sign in place of the first digit is taken as strtol does, and what is no digit ends the number |
| LStrings.UnhexUndoesHex | lfutil/src/lang/lstring.cpp:185-228 | hex2bin undoes bin2hex for every byte string |
| LStrings.HexUndoesUnhex | lfutil/src/lang/lstring.cpp:185-228 | the other way round exactly for an even number of lower-case digits |

## Left out

- epoll, pipes, DNS, `sendfile`, thread creation, signals and the file system: their results are parameters, or the part
  that uses them is not modelled.
- Allocation failures and heap layout; freeing and aliasing of buffers: vectors are values with their bytes, so a use of
  freed memory inside one callback would not show.
- Receiver.Conn.RecvProgress: a receive error or a closed peer is not a step of this class; what it does to the request being received is in `Completion`.
- Receiver.Conn.RecvFileCb: only what follows the first block of a longer file is modelled (nothing); file names and writing are left out.
- Frames.FrameLenStable: announced lengths of 2^31 blocks or sums of 2^64 would overflow the source's block count and drain length; lengths are unbounded here.
- Sizing.AllocAttachIoVecs: the product of block count and block size overflows an `int` for attachments of 2^31 bytes and more; integers are unbounded here.
- Framing.MakeRpcMessage: attachments of 2^31 bytes in all would overflow the sender's `int` sum; they are excluded as not sendable.
- Framing.Reception: the entries of the request map may change between frames, so the lemma asks that each response fits what was known when it was judged.
- SendPath.SendSide.SendvecProgress: an attached file, sent by the callback of the last vector, is not among the bytes counted.
- Completion.Client.ResponseArrives: asks that the request has been posted, since its bytes cannot have been answered before; request ids are assumed not to repeat.
- Completion.Client.Enter: a request refused before it enters the map (no request message, no connection) is completed at once and not modelled.
- Server-side completion of responses (`sendRspCallback`) and receive errors on requests.
- Lifetime.StepKeepsInv: one connection and one map mutex; the socket-number key and connections that are cleaned up before they are ever inserted are left out.
- ConnMgrs.ConnMgr.RemoveInactive: the limit is a parameter with the source's 64 as its default; no reference is taken between the selection and the removal, since both happen under the map mutex.
- Threadpools.StepKeepsInv: a second killThreads while one waits for nobody, which would fail an assertion of the kill stage, is not a step.
- Stages.Stage.Connect: asks that no disconnect is under way; `connect` reads its flag again outside the mutex, which only matters when the two overlap.
- Stages.Stage.RemoveEvent: event history, callbacks and timeouts inside an event are an opaque step of the handling thread.
- Timer.TimerStage.MakeToken: asks that the 64-bit counter of nonces does not wrap.
- DateTimes.DateTime.AddDuration: years before -4799, 32-bit overflow and the parsing of duration strings are left out.
- Calendar.JulianDateCounts: years before -4800 and arithmetic beyond the bounds of `Calendar.NoOverflow` and `Calendar.JulianDateFits` are left out.
- XmlDateTimes.PrintAndRead: the values the source reads from unset fields after a failed scan are not determined, so there is no result.
- Messages.SerializeRequest: the reader side is modelled on values (`ReadRequest`), not on the fields of an existing object.
- Md5.Encode: output arrays are built as sequences; the context's buffer is an array.
- `toTimeT`, local time formatting, `allocIoVecs`/`repostIoVecs`, lock tracing, object pools, logging, configuration, statistics and directory walking: easy or not used by the parts above.
