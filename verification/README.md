# RUSS in Dafny

A Dafny 4.11 model of the cores of RUSS, an RPC framework over Unix sockets: a
client dials a service, sends one framed request, receives descriptors, and
later one exit status. The C library and its Python task runner are modelled
with the operating system at the edges: polls, reads, writes, and the passing
of descriptors have arbitrary outcomes, given either by a script or by an
arbitrary choice.

`dafny verify dfyconfig.toml` checks everything.

## The parts

| files | what they model |
|---|---|
| `ThreadPool.dfy`, `PoolResults.dfy` | the task pool of `rurun.py` as interleaved atomic steps: no lost wake-up, the bound on running tasks, conservation of tasks, completion, and that every task's value comes back |
| `Buf.dfy`, `Relay.dfy`, `RelayRounds.dfy` | the relay engine: conservation of bytes, the active count, the early-exit scan, termination, and what each round moves and ends |
| `Codec.dfy`, `EncDec.dfy`, `Wire.dfy`, `Request.dfy` | the wire format, the encoder that patches the size last, and framing on a stream that arrives in any pieces |
| `Fds.dfy`, `Conn.dfy`, `Splice.dfy` | answering, splicing and dialing, with the process's descriptor table as a ledger of who owns what |
| `Exit.dfy`, `Trace.dfy`, `Svr.dfy`, `Wait.dfy` | exit statuses: the request handler with all its branches as a plan and a trace, which status the client learns, and its resumable wait |
| `Conf.dfy`, `ConfFile.dfy`, `ConfLines.dfy` | the configuration store as a map of maps, and its text format |
| `SvcTree.dfy`, `TreeSearch.dfy`, `SvcNodes.dfy` | the service tree: sorted siblings, what names lead to, the short-circuiting search, the matched path, option stripping |
| `Str.dfy`, `SArray.dfy`, `Template.dfy` | splitting, NULL-terminated string arrays, template expansion |
| `Targets.dfy` | target indices and the replication of targets |

## How it is laid out

- Objects that the source updates in place are classes: `Buf.RussBuf`,
  `Relay.RussRelay`, `Request.Socket`, `Conn.Process`, `Conn.SConn`,
  `Splice.CConn`, `Conf.Conf`, `SvcNodes.SvcNode`. Their methods are proved
  against functions on values (`Relay.Run`, `Wait.Waited`, `ConfFile.ReadText`,
  `SvcTree.Find`, `Codec.DecReq`, ...), and what the source promises is proved
  about those functions.
- The pool is a state machine. Its methods run in many threads at once, so what
  matters is not one call but every interleaving: each access to shared state is
  one step (`ThreadPool.Step`), and the lemmas are about every reachable state.
- A descriptor is a key of the table of `Conn.Process`; its value says which end
  of which channel it is. `badcloses` counts closes of a descriptor that is not
  open. That a method keeps it and states the table exactly is the absence of
  leaks and of double closes. `Splice.Gained` and `Exit.Ledger` say that beyond
  a base table exactly the listed descriptors are open.
- A relay round, a wait and a guaranteed read take their outcomes from a script,
  so that a run is a function of its script and every theorem is for all scripts.
  The calls of a process and of a connection take theirs from `outcomes`, so that
  it can be said exactly when making pipes, sending, answering and dialing
  succeed; how much a failing write gets out is arbitrary.
- A server's run is a trace of answers and statuses. `Trace` says what a client
  learns from any trace, `Svr.Logged` is the invariant that ties the trace to the
  process, and `Svr.Plan` is what the server does when nothing fails. What the
  trace says is tied to what the client finds: `Svr.Handler` promises a status on
  the dialed exit descriptor, not only in the trace.

## Where the code differs from what is said of it

For each of these a lemma says exactly when the property holds, and another gives
an input on which it does not; the failsafe status is never sent at all.

- The early exit of the search (svcnode.c:181-186) can hide a wildcard that
  sorts after a greater name: `SvcTree.FindLosesHidden`, `LaterWildcardIsLost`.
- The matched path (svcnode.c:171-205) is reset at every level at its first
  character only, so that it becomes the matched components without the slashes
  between them, and can outgrow its buffer: `SvcTree.MatchedPathExactly`,
  `MatchedPathLosesSlash`, `MatchedPathOutgrows`.
- A path and its stripped form need not find the same node when a component
  starts with `?`: an empty component ends the search or is dropped, an option is
  not. `SvcTree.WhenStrippingIsHarmless` is the condition on the text of the path,
  `BareOptionsFindOtherwise` an input.
- A second answer fails but overwrites the exit descriptor (sconn.c:210-213), and
  with it the client's status: `Trace.TellsExactly`, `Svr.TellsEveryClient`,
  `Svr.ServiceTells`, `SecondAnswerLosesStatus`.
- The failsafe status of svr-fork.c:74-75 is never sent when the handler
  returns: the handler always closes the exit descriptor first
  (`Svr.ServeChild`).
- `russ_sconn_await_req` accepts short reads (sconn.c:309-312), decoding what the
  buffer held: `Request.FramedExactly`, `SilentConnection`.
- A negative count of descriptors is taken as none, not refused
  (cconn.c:102-106): `Fds.NoneIsNotRefused`, `MinusOneIsNone`.
- Streams of a relay that share both descriptors are served by each other's
  events (relay.c:333-343), and streams that close on exit and share a descriptor
  close it twice (relay.c:361-364): `Relay.StreamsActAlone`, `WrongOneRemoved`,
  `ClosedAtMostOnce`, `BothDirectionsCloseTwice`.
- A wrapping index below -n does not loop around, unless it is a multiple of n
  (russpnet_server.c:341-350): `Targets.AcceptedIndex`, `WrappingStops`.
- A conf line with white space before it keeps what it has at its end
  (conf.c:800-803): a setting gets a newline at the end of its value, and a
  section line fails the read. `ConfFile.TrimmedExactly`, `IndentedItemExactly`,
  `IndentedHeader`, `IndentedLines`. What was written is not read back when a name
  or value cannot be told from its line: `ConfFile.PrintParseRoundTrip`.

## Model

| member | source | states |
|---|---|---|
| ThreadPool.NoLostWakeUp | tools/static/usr/lib/russng/tools/rurun.py:89-133 | in every reachable interleaving, while the pool is enabled, a task waits and fewer than `nworkers` tasks are registered, some thread has been triggered and has not yet evaluated the scheduling condition |
| ThreadPool.GetNeverBlocks | tools/static/usr/lib/russng/tools/rurun.py:113-117 | the blocking `waitq.get()` made under the lock never blocks, although the emptiness test and the get are separate steps |
| ThreadPool.MutualExclusion | tools/static/usr/lib/russng/tools/rurun.py:113-124 | at most one thread is inside the scheduling pass |
| ThreadPool.AtMostNWorkersExecute | tools/static/usr/lib/russng/tools/rurun.py:113-122 | with `nworkers` never changed, at most `nworkers` task bodies run at once, in every interleaving |
| ThreadPool.AtMostPeakExecute | tools/static/usr/lib/russng/tools/rurun.py:214-220 | with any changes of `nworkers`, never more task bodies run than the largest value it has had |
| ThreadPool.StartedBelowLimit | tools/static/usr/lib/russng/tools/rurun.py:116-122 | a task is let through only when the registered tasks are fewer than the value of `nworkers` just read |
| ThreadPool.EachTaskInOnePlace | tools/static/usr/lib/russng/tools/rurun.py:96-133 | every task added under a fresh key is in exactly one place: waiting, held by a thread, done, or reaped |
| ThreadPool.ReapsReturnTheAddedKeys | tools/static/usr/lib/russng/tools/rurun.py:205-212 | when there have been as many reaps as adds, the reaped keys are the added keys, each as often as it was added, and both queues are empty; for the values see `PoolResults` |
| ThreadPool.QuietPoolIsEmptyOrFull | tools/static/usr/lib/russng/tools/rurun.py:89-133 | when only task bodies can move, the pool is disabled, has nothing waiting, or is full; the lock is free and exactly the running bodies are registered |
| ThreadPool.StuckPoolIsDone | tools/static/usr/lib/russng/tools/rurun.py:96-124 | when nothing can move, no task is registered or in hand, and an enabled pool with a worker has nothing waiting |
| ThreadPool.StepsUseUpRank | tools/static/usr/lib/russng/tools/rurun.py:89-124 | every step that is not a call from outside makes the rank smaller |
| ThreadPool.OwnStepsAreBounded | tools/static/usr/lib/russng/tools/rurun.py:89-124 | between two calls the pool makes at most `Rank` steps and does not touch `enabled`, `nworkers` or the history |
| ThreadPool.EveryTaskCompletes | tools/static/usr/lib/russng/tools/rurun.py:599-637 | left alone, an enabled pool with a worker stops after boundedly many steps whatever the interleaving, and then each task ever added has its result queued or reaped, which `PoolResults.EveryValueComesBack` gives with its value |
| ThreadPool.ReapsNeverBlockForGood | tools/static/usr/lib/russng/tools/rurun.py:627-628 | in every state in which an enabled pool with a worker can do nothing more on its own, results queued and reaps made together are as many as the adds: fewer reaps than adds find a result |
| ThreadPool.StepKeepsInv | tools/static/usr/lib/russng/tools/rurun.py:89-220 | every atomic step, of a worker, of the scheduler or of a caller, keeps the whole invariant |
| ThreadPool.ReachableInv | tools/static/usr/lib/russng/tools/rurun.py:72-86 | the invariant holds in every reachable state |
| PoolResults.RunGivesResults | tools/static/usr/lib/russng/tools/rurun.py:96-133 | after any run, told from its calls and returns alone: thread by thread in the order in which they reported, the results reaped and on the queue are the key of the task that the thread took, tasks being taken in the order of the adds, and the value that its body returned |
| PoolResults.EveryValueComesBack | tools/static/usr/lib/russng/tools/rurun.py:599-637 | when an enabled pool with a worker can do nothing more, the results reaped and queued are, as a multiset, each added key with the value that its body returned |
| PoolResults.HistoryKept | tools/static/usr/lib/russng/tools/rurun.py:96-124 | in every reachable state: which thread runs which task, which bodies have returned what, and where the results are |
| PoolResults.SettingsFollow | tools/static/usr/lib/russng/tools/rurun.py:147-220 | after any run `enabled` and `nworkers` are what the last call that set them asked for, a negative number being none |
| PoolResults.DisabledStartsNothing | tools/static/usr/lib/russng/tools/rurun.py:113-124 | while it is not enabled again the pool registers no thread and takes no task, once the pass that was under way is over |
| Buf.RussBuf.AdjustLength | library/src/usr/lib/buf.c:108-119 | the length moves by delta, clamped to 0 and the capacity, and the room left is returned; offset and data stay |
| Buf.RussBuf.GetPosition | library/src/usr/lib/buf.c:129-138 | the position, the length less the offset, which is the number of pending bytes from there unless it is negative, and the capacity beyond the position |
| Buf.RussBuf.Reposition | library/src/usr/lib/buf.c:147-158 | the offset moves by delta, clamped to 0 and the length; the length less the offset is returned, what is still pending unless it is negative |
| Buf.RussBuf.ResetState | library/src/usr/lib/buf.c:165-169 | nothing is pending afterwards; the data stay |
| Buf.RussBuf.Resize | library/src/usr/lib/buf.c:179-192 | length and offset are cut to the new capacity and nothing that stays below it is lost: growing keeps all pending bytes, shrinking those that still fit |
| Buf.RussBuf.Set | library/src/usr/lib/buf.c:202-211 | the given bytes become the pending bytes, or nothing changes if they do not fit |
| Relay.RunConserves | library/src/usr/lib/relay.c:142-188 | for every run and slot: read = written + pending (+ dropped once disabled), the counters agree, the slot polls for input exactly when its reset buffer is empty, and read plus unread never changes |
| Relay.OkMeansAllDisabled | library/src/usr/lib/relay.c:404-479 | OK is returned if and only if no stream and no exit descriptor is left |
| Relay.WholeInputDelivered | library/src/usr/lib/relay.c:427-463 | what is delivered is a prefix of the input, and the whole of it if the input was exhausted and nothing dropped |
| Relay.RoundsThatMoveUseUpMeasure | library/src/usr/lib/relay.c:416-478 | every round that changes anything makes 2*unread + pending + 1 per live stream, plus 1 for the exit descriptor, smaller |
| Relay.RunsAreBounded | library/src/usr/lib/relay.c:404-479 | with finite input any run has at most `Measure` rounds that do anything |
| Relay.StreamsActAlone | library/src/usr/lib/relay.c:353-459 | in every round every stream is served by its own events only, if and only if no two streams carry the same pair of descriptors: removal goes by pair |
| Relay.WrongOneRemoved | library/src/usr/lib/relay.c:333-343 | an input: with its pair in an earlier slot, an error on a stream removes the other one and leaves it in place |
| Relay.ClosedAtMostOnce | library/src/usr/lib/relay.c:361-364 | no run closes a descriptor twice if and only if no descriptor is used twice by the streams that close on exit |
| Relay.BothDirectionsCloseTwice | library/src/usr/lib/relay.c:302-318 | an input: both directions of a pair that closes on exit, as the two-way add makes them, close a descriptor twice |
| Relay.NoEventsLeft | library/src/usr/lib/relay.c:427-431 | when the count of reported events is used up, no later slot has an event |
| Relay.ScanFinishes | library/src/usr/lib/relay.c:427-463 | stopping the scan early leaves the same state as scanning every slot |
| Relay.RussRelay.constructor | library/src/usr/lib/relay.c:219-262 | n empty slots, none polled |
| Relay.RussRelay.Add | library/src/usr/lib/relay.c:263-284 | the first free slot is taken and armed for input; refused exactly for a bad descriptor or size or when all slots are taken |
| Relay.RussRelay.Find | library/src/usr/lib/relay.c:333-343 | the first stream with the pair, or -1 if there is none |
| Relay.RussRelay.Remove | library/src/usr/lib/relay.c:353-368 | the first stream with the pair is disabled and its slot freed, and nothing else changes |
| Relay.RussRelay.ReadStream | library/src/usr/lib/relay.c:142-160 | at most the room in the buffer is read and appended; nothing changes at the end of input or on an error |
| Relay.RussRelay.WriteStream | library/src/usr/lib/relay.c:169-188 | at most the pending bytes are written, from the front |
| Relay.RussRelay.ServeSlot | library/src/usr/lib/relay.c:427-463 | an event on a slot has the effect of `Served`: the slot takes its step, or the first slot with its pair is removed, as it is when there is neither input nor output; the active count is kept |
| Relay.RussRelay.ScanStreams | library/src/usr/lib/relay.c:427-463 | the early-exit scan has the effect of serving every slot in order, also when streams share a pair, and the active count is kept |
| Relay.RussRelay.HangUp | library/src/usr/lib/relay.c:465-477 | the exit descriptor is disabled, and for each stream that closes on exit, in order, the first with its pair is removed; the active count is kept |
| Relay.RussRelay.ServeRound | library/src/usr/lib/relay.c:416-478 | one round refines `DoRound`; it stops when poll reports nothing |
| Relay.RussRelay.Serve | library/src/usr/lib/relay.c:389-480 | the loop refines `Run` for every script; at each round the counter is the number of polled descriptors, the exit descriptor included |
| Relay.RussRelay.CountActive | library/src/usr/lib/relay.c:407-413 | the number of non-negative poll entries |
| RelayRounds.RoundMovesBytes | library/src/usr/lib/relay.c:427-463 | in every round, whatever the other streams do, a stream takes exactly the bytes that a reported read gets and gives exactly those that a reported write lets through |
| RelayRounds.EndedIsRemoved | library/src/usr/lib/relay.c:433-460 | a hang-up or an error with nothing to read or write, input at its end, or a failing write: after the round the first slot with the pair has no stream, whatever else is reported |
| RelayRounds.EndsExactly | library/src/usr/lib/relay.c:433-477 | with distinct pairs a stream is removed in a round if and only if one of these holds, or the exit descriptor hangs up and the stream closes on exit; the exit descriptor is disabled exactly when it hangs up |
| RelayRounds.NothingReported | library/src/usr/lib/relay.c:419-425 | the count of events is zero if and only if poll reports nothing, on the exit descriptor included |
| RelayRounds.RunByRounds | library/src/usr/lib/relay.c:416-425 | serving takes the rounds one by one, and ends with -3 and everything as it is when poll reports nothing |
| RelayRounds.LastRoundEndsWell | library/src/usr/lib/relay.c:457-479 | a round in which every stream ends, such as a hang-up alone on each, or the exit descriptor takes the streams with it, is the last one: serving returns 0 |
| Codec.Int32RoundTrip | library/src/usr/lib/encdec.c:84-91 | every int32, negative ones included, is decoded from its four bytes |
| Codec.Int32Onto | library/src/usr/lib/encdec.c:348-358 | every four bytes are the encoding of the int32 they decode to |
| Codec.ReqRoundTrip | library/src/usr/lib/encdec.c:254-280 | decoding a request followed by any bytes gives it back, empty arrays as NULL and the operation number looked up again, and consumes exactly the message; which numbers these are is `Wire.RequestComesBack` |
| Codec.ReqDecodes | library/src/usr/lib/encdec.c:138-280 | the same wherever the message lies at the start of a larger buffer |
| Codec.OtherProtocolRefused | library/src/usr/lib/encdec.c:265-266 | a request with any other protocol string is refused |
| Codec.ReqPrefixFree | library/src/usr/lib/encdec.c:518-536 | if one encoding followed by anything equals another followed by anything, the messages are as long, the requests as received are equal, and so is what follows |
| Codec.DecodesString | library/src/usr/lib/encdec.c:138-161 | a string encoding decodes to the string and ends where the encoding ends |
| Codec.DecodesArray | library/src/usr/lib/encdec.c:172-221 | an array encoding decodes to the array, NULL if it is empty, and ends where the encoding ends |
| Wire.OpnumsAreInverse | library/src/usr/lib/optable.c:29-86 | the two lookups are inverse on the five operations and their numbers 2 to 6; every other name is an extension, 1 |
| Wire.NamesAreAscii | library/src/usr/lib/optable.c:29-36 | the names as text |
| Wire.RequestComesBack | library/src/usr/lib/encdec.c:254-280 | from bytes to what the receiver has: path and operation as sent, the number 2 for execute, 6 for list, 3 for help, 4 for id, 5 for info and 1 for anything else, and arrays as they were, or NULL if empty |
| Wire.RequestBytes | library/src/usr/lib/encdec.c:518-536 | one request byte by byte |
| Wire.StatusBytes | library/src/usr/lib/encdec.c:348-358 | statuses byte by byte, a negative one included |
| Wire.FdMsgItems | library/src/usr/lib/sconn.c:158-180 | a message of descriptors with a hole, item by item |
| EncDec.EncInt32 | library/src/usr/lib/encdec.c:348-358 | exactly when four bytes fit they are written, least significant first, and nothing else |
| EncDec.EncBytes | library/src/usr/lib/encdec.c:419-429 | exactly when length and bytes fit they are written; nothing outside the range is touched |
| EncDec.EncString | library/src/usr/lib/encdec.c:441-444 | the string with its NUL, under the same conditions |
| EncDec.EncStrings | library/src/usr/lib/encdec.c:457-470 | a count and that many strings; on failure nothing beyond the range is touched |
| EncDec.EncArray | library/src/usr/lib/encdec.c:482-495 | a NULL array as an empty one; 16384 items or more are refused before anything is written |
| EncDec.EncReq | library/src/usr/lib/encdec.c:518-536 | succeeds if and only if the message fits and both arrays have fewer than 16384 items; writes the message with its size patched in, and never outside the range |
| EncDec.DecodeStrings | library/src/usr/lib/encdec.c:187-193 | the loop over the items computes the recursive decoding |
| EncDec.DecodeReq | library/src/usr/lib/encdec.c:255-280 | the decoder computes `DecReq`, which the round trip is about |
| Request.ReadN | library/src/usr/lib/fd.c:170-199 | however the stream is cut up, a prefix of it is taken and never more than asked for |
| Request.ReadNGets | library/src/usr/lib/fd.c:170-199 | a guaranteed read gets all it asks for, all there is, or all that the script lets through, whichever is least |
| Request.Socket.ReadInto | library/src/usr/lib/fd.c:170-199 | the read loop takes what `ReadN` says into the buffer and leaves the rest of the stream and of the buffer |
| Request.Socket.WriteN | library/src/usr/lib/fd.c:279-309 | exactly the prefix that `Put` says is written |
| Request.PutAll | library/src/usr/lib/fd.c:279-309 | a guaranteed write writes all the bytes, or as many as the script lets through before its first failure |
| Request.Socket.SendReq | library/src/usr/lib/cconn.c:206-217 | success exactly when the message fits and all of it is written; what is written is always the prefix of the message that the script lets through, and nothing if it does not fit |
| Request.Socket.AwaitReq | library/src/usr/lib/sconn.c:301-317 | header, then body, then decoding, exactly as `Awaited` says, short reads included |
| Request.RequestArrives | library/src/usr/lib/sconn.c:301-317 | whatever the chunks and whatever follows, once both reads get what they ask for the receiver has the request and the bytes after it are untouched |
| Request.FramedExactly | library/src/usr/lib/sconn.c:309-312 | the receiver has the request and leaves what follows, whatever its buffer held before, if and only if both reads get all they ask for |
| Request.SilentConnection | library/src/usr/lib/sconn.c:309-312 | an input: on a connection on which nothing arrives, the request that the buffer still holds is returned |
| Request.EnoughReadsArrive | library/src/usr/lib/sconn.c:301-317 | as many reads that get something as the message has bytes are enough for both |
| Request.NewReqArrives | library/src/usr/lib/req.c:44-80 | what could be built and fits is sent whole and received whole in any pieces: operation, path and arrays are the caller's, empty arrays as NULL, and the number is the one of the operation's name |
| Fds.FdMsgRoundTrip | library/src/usr/lib/cconn.c:95-116 | receiving a message of descriptors gives the sender's channel ends in their slots and leaves what follows |
| Fds.NoneIsNotRefused | library/src/usr/lib/cconn.c:102-106 | a message of descriptors is taken as one without any if and only if its count is not positive |
| Fds.MinusOneIsNone | library/src/usr/lib/cconn.c:102-106 | an input: a count of -1 |
| Fds.TrimIsPrefix | library/src/usr/lib/sconn.c:158-161 | trimming drops exactly the trailing empty entries |
| Fds.SparseTransfer | library/src/usr/lib/sconn.c:151-186 | what was sent arrives in arrays initialised to -1 as it was, although trailing slots are not sent |
| Fds.SpliceChain | library/src/usr/lib/sconn.c:271-289 | through any number of splices the client gets exactly the origin's descriptors in the origin's slots |
| Conn.FdsInit | library/src/usr/lib/fd.c:318-325 | the first entries get the value, the others stay |
| Conn.FdsClose | library/src/usr/lib/fd.c:333-343 | every open entry is closed once and cleared, no other descriptor is closed, and no close is of a descriptor that is not open |
| Conn.MakePipes | library/src/usr/lib/fd.c:356-383 | all channels with their two ends in matching slots and all old descriptors untouched, exactly if that many calls succeed; otherwise none: the table is what it was |
| Conn.SendFds | library/src/usr/lib/sconn.c:151-186 | the message is sent and all sent descriptors are closed and cleared, exactly if there is a socket, the count fits and all its writes and sends succeed; on failure exactly the first m were given away and the message is cut in its header or at a descriptor; without a socket nothing is sent |
| Conn.CountReal | library/src/usr/lib/sconn.c:158-161 | the count sent is the length up to the last descriptor |
| Conn.Answer | library/src/usr/lib/sconn.c:200-226 | it succeeds exactly if the connection is open, the exit pipe can be made and both messages go out; then the client is sent the exit descriptor's other end and its descriptors, and only the exit descriptor is left; on failure nothing made here is left and what was sent is cut short; a failure that leaves the connection open has sent nothing |
| Conn.CutShortUndialable | library/src/usr/lib/cconn.c:95-116 | what a failed answer has sent, wherever it was cut, cannot be dialed |
| Conn.MissingEndFails | library/src/usr/lib/cconn.c:108-115 | a message of descriptors in which one that its flags announce does not come is refused |
| Conn.OpenStd | library/src/usr/lib/sconn.c:235-251 | exactly if all three calls succeed: three channels with client entry k and server entry k as the two ends of one, standard input the other way round |
| Conn.AnswerHandler | library/src/usr/lib/sconn.c:235-257 | it succeeds exactly if the connection is open, all four pipes can be made and all six writes and sends succeed; then the server keeps the ends of four new channels and the client is sent the other ends, slot by slot; failure anywhere: the table is as before, the socket possibly closed, no descriptor was closed twice, and what was sent cannot be dialed; the exit descriptor is cleared exactly if the three standard pipes could be made |
| Splice.RecvFds | library/src/usr/lib/cconn.c:95-116 | success exactly if there is a socket, the message parses into the array and every read and receipt succeeds: then the array holds the sent ends in their slots; in any case exactly the array's descriptors were gained |
| Splice.RecvEnds | library/src/usr/lib/cconn.c:108-115 | the loop over the flags receives one descriptor per set flag, into that slot, exactly if they are there and no receipt fails |
| Splice.Dial | library/src/usr/lib/cconn.c:292-309 | from the first receipt on: success exactly if both messages parse and every read and receipt succeeds: both arrays hold what the server sent and the socket is closed; failure: everything received is closed again |
| Splice.Splice | library/src/usr/lib/sconn.c:271-289 | both messages are sent exactly if there is a socket and all writes and sends succeed, and then nothing of either connection is left open; on failure only the unsent descriptors are left, in their slots of the dialed connection |
| Splice.AnswerIsDialed | library/src/usr/lib/sconn.c:235-257 | what a client dials after an answer is the other end of each of the server's descriptors |
| Splice.SpliceIsDialed | library/src/usr/lib/sconn.c:271-289 | what a client dials through a splice is what the splicing server dialed |
| Exit.SendExit | library/src/usr/lib/sconn.c:347-368 | all but the exit descriptor are closed; the status is written on the exit descriptor's channel and the exit descriptor closed, exactly if it was open and the write succeeds |
| Exit.CloseSConn | library/src/usr/lib/sconn.c:327-332 | everything the connection holds is closed, and nothing else |
| Wait.ResumableWait | library/src/usr/lib/cconn.c:147-194 | for any chunking, timeouts and number of calls: what has arrived is a prefix of the encoded status, every success gives the status, and after one success all calls succeed |
| Wait.WaitsKeep | library/src/usr/lib/cconn.c:147-194 | over any calls no byte is lost or read twice, and a success means four bytes have arrived |
| Wait.HangUpMeansNoStatus | library/src/usr/lib/cconn.c:169-183 | a hang-up is reported only when fewer than four bytes were written |
| Wait.EnoughReadsSucceed | library/src/usr/lib/cconn.c:161-186 | with the status written and enough reads a call without timeouts succeeds |
| Wait.WaitExactly | library/src/usr/lib/cconn.c:147-194 | one call on any outcomes: 0 with exactly the missing bytes when the reads get them; otherwise -3 for a timeout, -4 for a hang-up, -1 for an error, with all that has arrived kept; -2 when closed without a status |
| Wait.Take | library/src/usr/lib/cconn.c:171-177 | one read appends at most what is missing |
| Wait.WaitExit | library/src/usr/lib/cconn.c:147-194 | the call refines `Waited`, and closes the exit descriptor exactly on the first success |
| Trace.DoneExactly | library/src/usr/lib/sconn.c:200-226 | of any answers and statuses, in any order, the client learns exactly the first status after the answer that got through, and learns it if and only if no answer between the two clears the exit descriptor |
| Trace.WaitingExactly | library/src/usr/lib/sconn.c:210-213 | the client still waits if and only if after the answer that got through there were only answers that left the exit descriptor |
| Trace.TellsExactly | library/src/usr/lib/sconn.c:210-213 | a sequence of answers and statuses always tells an answered client a status, however the answers come out, if and only if each answer is followed at once by a status |
| Trace.StatusNext | library/src/usr/lib/sconn.c:347-368 | when a status follows the answer that gets through, the client learns that one |
| Svr.Handler | library/src/usr/lib/svr.c:301-439 | it does what its plan says, or the automatic answer fails; whoever can dial a fresh connection finds exactly one status on its exit descriptor, if all writes went through and the plan tells every client: 1 for an unknown service or a rejected user, the service's own status, and without one 0 for LIST of a node that can be listed, HELP with a help text and INFO, and 1 otherwise; a server that answers first can be dialed exactly if no call of the answer fails, and with no failing call any server exactly for the requests it has to answer; without an answer nothing is written and what was sent does not dial; nothing stays open but what another answer overwrites, and something does exactly if one overwrites |
| Svr.ServeChild | library/src/usr/lib/svr-fork.c:63-76 | all of this, and the failsafe after the handler writes nothing more, whatever the handler did |
| Svr.Give | library/src/usr/lib/sconn.c:347-383 | an exit or a fatal is one status in the trace: it is written exactly if the client waits, and the ledger is kept |
| Svr.AnswerConn | library/src/usr/lib/svr.c:336-339 | an answer, the first or another one, is one answer in the trace: it gets through exactly if the connection is open and none of its calls fails; what it overwrites leaves the connection's ledger |
| Svr.AnswerMsgDialed | library/src/usr/lib/cconn.c:291-303 | who dials an answered connection has the read end of the status channel as its exit descriptor, and the standard descriptors in their slots |
| Svr.RunActs | library/src/usr/lib/svr.c:371-378 | whatever the service does, answering again included, is recorded in order after what was done before, and keeps the invariant |
| Svr.FallBack | library/src/usr/lib/svr.c:386-427 | the fallback per operation, at most one status, recorded after what was done before |
| Svr.ServeNode | library/src/usr/lib/svr.c:336-427 | a rejected user gets one status, 1; otherwise the handler's actions come before the fallback's, and all after what was done before |
| Svr.DialedIsServed | library/src/usr/lib/svr.c:301-439 | in every outcome with unbroken writes of a plan that tells every client, a client that can dial has exactly one status waiting for it |
| Svr.AnswerDials | library/src/usr/lib/svr.c:301-439 | with no failing call, a fresh connection can be dialed if and only if the request is valid and the service unknown, automatically answered with a handler for that, or answers itself for a user who is let through |
| Svr.DialedFinds | library/src/usr/lib/svr.c:331-433 | the status that a client which can dial finds, by the case alone |
| Svr.OwnStatusByName | library/src/usr/lib/svr.c:386-433 | the server's own status for a request decoded from its bytes is 0 exactly for list of a node that can be listed, help with a help text, and info |
| Svr.TellsEveryClient | library/src/usr/lib/svr.c:301-439 | every outcome leaves an answered client with a status if and only if a status follows the automatic answer, or, when there is none, each answer of the plan |
| Svr.ServiceTells | library/src/usr/lib/svr.c:336-438 | the same on the service's own actions: with an automatic answer its first action must not be another one, and it must not leave without any; without one, each answer must be followed at once by a status, the server's own included; a rejected user and an unknown service are always told |
| Svr.HandlersStatusWins | library/src/usr/lib/svr.c:294-296 | after an automatic answer the status that the service gives first is the one the client learns |
| Svr.SecondAnswerLosesStatus | library/src/usr/lib/sconn.c:210-213 | an input: a service that answers what was answered for it can leave its client without a status |
| Svr.ClientLearnsStatus | library/src/usr/lib/svr.c:301-439 | a served client has the read end of the status channel as its exit descriptor, and however it waits the status it learns there is the one that was written for it |
| Conf.MapReplace | library/src/usr/lib/conf.c:240-244 | replacing the value in place replaces the value of the key |
| Conf.MapRemove | library/src/usr/lib/conf.c:599-606 | removal by moving the last entry into the gap removes the key, keeps names unique and nothing else changes |
| Conf.FindPos | library/src/usr/lib/conf.c:182-192 | the entry with the name, or -1 when there is none |
| Conf.SectionSet | library/src/usr/lib/conf.c:217-248 | sets one option and leaves the others, names stay unique |
| Conf.Conf.AddSection | library/src/usr/lib/conf.c:457-478 | one more, empty, section; refused exactly if it exists |
| Conf.Conf.Dup | library/src/usr/lib/conf.c:486-516 | a new store with the same contents in the same order |
| Conf.Conf.DupSection | library/src/usr/lib/conf.c:529-551 | the source's options are put over the target's, also when source and target are the same section |
| Conf.Conf.HasOption | library/src/usr/lib/conf.c:574-580 | whether the map of maps has the option |
| Conf.Conf.GetValue | library/src/usr/lib/conf.c:645-658 | the option's value, or the default |
| Conf.Conf.RemoveOption | library/src/usr/lib/conf.c:590-609 | removes the option and nothing else; fails exactly if it is not there |
| Conf.Conf.RemoveSection | library/src/usr/lib/conf.c:617-632 | removes the section and nothing else; fails exactly if it is not there |
| Conf.Conf.Set | library/src/usr/lib/conf.c:909-918 | sets the option; fails exactly if the section does not exist |
| Conf.Conf.Set2 | library/src/usr/lib/conf.c:929-942 | sets the option, in a new section if need be |
| Conf.Conf.Update | library/src/usr/lib/conf.c:951-977 | the right-biased union of the two maps of maps, also for a store and itself |
| Conf.Conf.UpdateSection | library/src/usr/lib/conf.c:988-1017 | the other section's options are put over this one's; nothing changes if there is no such section |
| Conf.MergedOption | library/src/usr/lib/conf.c:951-977 | option by option: the merged map has exactly the options of both, with the other store's value where both have one |
| ConfFile.PrintParseRoundTrip | library/src/usr/lib/conf.c:1045-1082 | reading what was written gives the same sections, options and values, and a DEFAULT section, if and only if no name or value holds a newline or the delimiter that ends it, no option starts with white space, `#` or `[`, no value starts or ends with white space, and every line fits the buffer |
| ConfFile.HeaderParsed | library/src/usr/lib/conf.c:809-830 | a written section line is read as that section |
| ConfFile.ItemParsed | library/src/usr/lib/conf.c:831-846 | a written option line is read as that option and value |
| ConfFile.LineRead | library/src/usr/lib/conf.c:798 | a line that fits the buffer is read whole and alone |
| ConfFile.TrimmedExactly | library/src/usr/lib/conf.c:799-803 | a line loses the white space at both its ends if and only if it does not have it at both, or has nothing or one character between |
| ConfFile.IndentedItemExactly | library/src/usr/lib/conf.c:799-803 | a setting with white space before it is read as it was written if and only if there is none or its value is empty |
| ConfFile.IndentedItem | library/src/usr/lib/conf.c:799-846 | otherwise its value has a newline at its end |
| ConfFile.IndentedHeader | library/src/usr/lib/conf.c:799-830 | a section line is accepted if and only if there is no white space before it |
| ConfFile.IndentedHeaderFails | library/src/usr/lib/conf.c:817-818 | one section line with white space before it fails the whole read |
| ConfFile.IndentedLines | library/src/usr/lib/conf.c:799-846 | two inputs |
| ConfFile.ParseLine | library/src/usr/lib/conf.c:799-846 | trimming and the search for the delimiters compute `ParsedLine` |
| ConfFile.ReadFd | library/src/usr/lib/conf.c:777-854 | the loop over the lines computes `ReadText` on the map of maps; refused if there is a DEFAULT section; on a bad line what came before it stays |
| ConfFile.WriteFd | library/src/usr/lib/conf.c:1045-1082 | the text is the sections in order, each with its options in order and a blank line |
| ConfFile.WriteThenRead | library/src/usr/lib/conf.c:1045-1082 | writing and reading into a new store succeeds and gives an equal store with a DEFAULT section, if and only if the store is such a one |
| ConfLines.CommentSkipped | library/src/usr/lib/conf.c:806-808 | a comment is skipped, with or without white space before it |
| ConfLines.SpaceSkipped | library/src/usr/lib/conf.c:806-808 | a line of white space is skipped |
| ConfLines.SettingRead | library/src/usr/lib/conf.c:831-846 | a setting sets the option, with `:` as with `=`, and without the white space after the delimiter and the value |
| ConfLines.SectionRead | library/src/usr/lib/conf.c:809-830 | a section line opens the section, whatever white space follows it |
| ConfLines.NoDelimiterFails | library/src/usr/lib/conf.c:833-841 | text without a delimiter ends the reading with failure, and what was read before it stays |
| ConfLines.OpenSectionFails | library/src/usr/lib/conf.c:819-823 | so does a section line that is not closed |
| ConfLines.SectionTailFails | library/src/usr/lib/conf.c:812-818 | and one with anything but white space behind it |
| ConfLines.CommentedText | library/src/usr/lib/conf.c:777-854 | a text that starts with a comment, as a whole |
| ConfLines.WrittenText | library/src/usr/lib/conf.c:1045-1082 | a written text, to the letter |
| SvcTree.PickLosesHidden | library/src/usr/lib/svcnode.c:175-209 | among sorted siblings giving up early loses exactly the wildcards that come after a greater name, and otherwise picks the first match |
| SvcTree.FindLosesHidden | library/src/usr/lib/svcnode.c:143-215 | the search fails on a node hidden at any level of its way, and otherwise finds what a full scan of every sibling list finds |
| SvcTree.ShortCircuitIsFullScan | library/src/usr/lib/svcnode.c:129-137 | with every wildcard the first of its siblings the early exit changes nothing |
| SvcTree.LaterWildcardIsLost | library/src/usr/lib/svcnode.c:181-186 | an input on which the early exit hides a wildcard that matches |
| SvcTree.MatchedPathExactly | library/src/usr/lib/svcnode.c:171-205 | the matched path is nothing without a node, and otherwise, unless the last matched component does not fit, the matched components that fit, without the slashes between them: it is the path of the node if and only if that is at most one component, which fits |
| SvcTree.MatchedPathLosesSlash | library/src/usr/lib/svcnode.c:171-205 | an input: for `a/b` the search leaves `/ab` |
| SvcTree.MatchedPathOutgrows | library/src/usr/lib/svcnode.c:187-205 | for every capacity above 3, an input whose matched path is longer than that |
| SvcTree.StrippingFindsTheSame | library/src/usr/lib/spath.c:391-411 | when no component starts with `?`, a path and its stripped form find the same node in every tree |
| SvcTree.FindFollowsWalk | library/src/usr/lib/svcnode.c:154-205 | what a path finds depends only on the sequence of names it makes the search look for |
| SvcTree.SameNodesSameWalks | library/src/usr/lib/svcnode.c:143-215 | two paths find the same node in every tree if and only if they look for the same names |
| SvcTree.WhenStrippingIsHarmless | library/src/usr/lib/spath.c:391-411 | stripping changes nothing, in any tree, if and only if a scan of the path's components accepts it; it does so when no component starts with `?` |
| SvcTree.ScanIsExact | library/src/usr/lib/svcnode.c:154-205 | in each state of the scan, the rest is accepted if and only if the search drops as much of the stripped path as of the path |
| SvcTree.RepaidOptionsAreHarmless | library/src/usr/lib/spath.c:391-411 | an input, `a/?x//b`, that is harmless although a component starts with `?` |
| SvcTree.BareOptionsFindOtherwise | library/src/usr/lib/spath.c:391-411 | an input, with a component that starts with `?`, on which they do not |
| SvcTree.StrippedFirst | library/src/usr/lib/spath.c:391-411 | stripping keeps the name of the first component and strips the rest of the path |
| SvcTree.SmallerPrefix | library/src/usr/lib/svcnode.c:179 | a name that sorts first compares smaller on the other's length |
| SvcTree.FullMatch | library/src/usr/lib/svcnode.c:187 | equal on its length and no longer is the component itself |
| TreeSearch.WalkOfPath | library/src/usr/lib/svcnode.c:154-169 | the names that the search looks for are those of the path's components, options left out, with or without a `/` at the start |
| TreeSearch.FoundByNames | library/src/usr/lib/svcnode.c:143-215 | in an ordered tree the search finds a node if and only if the names lead to it, a wildcard standing for any name and a virtual node ending the way, and it is not hidden |
| TreeSearch.FoundWithoutWildcards | library/src/usr/lib/svcnode.c:143-215 | without wildcards, if and only if the names lead to it |
| TreeSearch.StrippedPath | library/src/usr/lib/spath.c:391-411 | stripping the options leaves the path of the names |
| SvcNodes.SvcNode.Add | library/src/usr/lib/svcnode.c:96-128 | the new node is linked in where it belongs: siblings stay strictly sorted and linked, a name that exists is refused and nothing changes |
| SvcNodes.SvcNode.AddIn | library/src/usr/lib/svcnode.c:96-128 | anywhere in a tree: afterwards the linked nodes form the same tree with the new leaf in its place, and every list of siblings is sorted |
| SvcNodes.SvcNode.RootedIs | library/src/usr/lib/svcnode.c:96-128 | what adding keeps is what the search needs: the linked nodes are the tree |
| SvcNodes.SvcNode.constructor | library/src/usr/lib/svcnode.c:47-67 | a new node is such a tree by itself, so that every tree built by adding is one |
| SvcNodes.SvcNode.FindPlace | library/src/usr/lib/svcnode.c:104-115 | finds the name, or the place before which all are smaller and after which all are greater |
| SvcNodes.SvcNode.FindNode | library/src/usr/lib/svcnode.c:143-215 | the search on the linked nodes gives the node that `Find` says and the matched path that `MatchBelow` says, for every tree they form; with sorted siblings it fails on hidden nodes and otherwise finds what the full scan finds |
| SvcNodes.SvcNode.SortedIsOrdered | library/src/usr/lib/svcnode.c:96-128 | linked nodes whose siblings are sorted, as adding keeps them, form an ordered tree |
| SvcNodes.SvcNode.SearchOfLinked | library/src/usr/lib/svcnode.c:129-137 | on sorted linked nodes the search loses exactly the hidden nodes, and none when wildcards come first |
| SvcNodes.SvcNode.PickChild | library/src/usr/lib/svcnode.c:175-209 | the loop over the siblings with strncmp computes `Pick` |
| SvcNodes.Lengths | library/src/usr/lib/svcnode.c:161-169 | the lengths of the first component with and without its options |
| SvcNodes.StripOptions | library/src/usr/lib/spath.c:391-411 | the loop computes the stripped path, or refuses a path over the limit |
| Str.JoinOfSplit | library/src/usr/lib/sarray0.c:165-198 | joining the parts gives the string back, and no part holds the separator |
| Str.SplitOfJoin | library/src/usr/lib/sarray0.c:165-198 | with a one-character separator splitting gives back any parts that were joined |
| Str.FindIsFirst | library/src/usr/lib/str.c:46-49 | the occurrence found is the first one |
| Str.CountSub | library/src/usr/lib/str.c:40-53 | one less than the number of parts |
| Str.NewSplit | library/src/usr/lib/sarray0.c:165-198 | the parts from the index on; none for a bad index |
| Str.DupComp | library/src/usr/lib/str.c:67-83 | the idx-th part, the first for a negative index, or NULL |
| Str.GetComp | library/src/usr/lib/str.c:97-116 | the same into the buffer with its NUL, exactly if it fits; otherwise the buffer is unchanged |
| SArray.FindPrefix | library/src/usr/lib/sarray0.c:383-397 | the first element with the prefix, or -1 when none has it |
| SArray.GetSuffix | library/src/usr/lib/sarray0.c:409-417 | the rest of the first element with the prefix |
| SArray.Insert | library/src/usr/lib/sarray0.c:42-91 | the new items at the index, the others around them in order; refused exactly for a bad index |
| SArray.Remove | library/src/usr/lib/sarray0.c:494-512 | the item at the index is gone and the others keep their order; nothing changes at the end, and beyond it the call is refused |
| Template.TokensAreTheTemplate | library/src/usr/lib/str.c:168-212 | the text and references found are the template itself, no text holds a reference and names are 1 to 255 characters long |
| Template.Resolve | library/src/usr/lib/str.c:154-222 | single-pass substitution, values not expanded again; it succeeds if and only if every reference is ended, names are short and the result with its NUL fits in 16000 |
| Template.PutReference | library/src/usr/lib/str.c:175-210 | text and value are appended, or they do not fit |
| Template.PlainExpands | library/src/usr/lib/str.c:154-222 | text without a reference stands for itself |
| Template.ReferenceExpands | library/src/usr/lib/str.c:168-212 | a reference stands for its value between the text before it and what the rest stands for; a name of more than 255 characters fails the template |
| Template.UnendedFails | library/src/usr/lib/str.c:183-187 | a reference that is not ended fails the template |
| Template.ValueOfName | library/src/usr/lib/str.c:195-203 | a value is what follows the name and `=` in the first entry that starts so, and nothing without one |
| Targets.AcceptedIndex | servers/src/usr/lib/russng/russpnet/russpnet_server.c:335-350 | exactly which indices are accepted, plain and wrapped, and an accepted one is the target id modulo the number of targets as rurun reports it |
| Targets.WrappingStops | servers/src/usr/lib/russng/russpnet/russpnet_server.c:341-350 | an input: among two targets a wrapping -3 does not loop around, though -4 does |
| Targets.GetValidIdIndex | servers/src/usr/lib/russng/russpnet/russpnet_server.c:317-353 | it succeeds if and only if the third path component fits the buffer, is a number and is accepted, and then returns the index, the number and whether it wraps |
| Targets.PathScanned | tools/static/usr/lib/russng/tools/rurun.py:607 | the server reads from the path that rurun builds, within its 64 bytes, the index and the wrapping that rurun meant, whatever the method's name |
| Targets.TargetResolved | tools/static/usr/lib/russng/tools/rurun.py:607-625 | end to end: on the path that rurun builds for a target id the server succeeds if and only if the id is at least -n or a multiple of n when it wraps, and within -n and n otherwise; then it takes the id modulo n, which rurun reports |
| Targets.DecimalScanned | servers/src/usr/lib/russng/russpnet/russpnet_server.c:331-335 | a printed integer, negative ones included, is scanned back |
| Targets.NumberScanned | servers/src/usr/lib/russng/russpnet/russpnet_server.c:331-335 | white space, a sign or none, and decimal digits are a number, whatever follows |
| Targets.NoNumberScanned | servers/src/usr/lib/russng/russpnet/russpnet_server.c:331-335 | anything else is none |
| Targets.RangeItems | tools/static/usr/lib/russng/tools/rurun.py:261-284 | a range is a, a+c, a+2c, ... exactly as long as b is not reached, for either sign of c |
| Targets.SingleTarget | tools/static/usr/lib/russng/tools/rurun.py:276-278 | an element without a colon is that one target |
| Targets.NumberRead | tools/static/usr/lib/russng/tools/rurun.py:276-282 | int() reads back any printed integer |
| Targets.NumberOfText | tools/static/usr/lib/russng/tools/rurun.py:276-282 | int() takes white space around a sign or none and decimal digits, among which an underscore may stand |
| Targets.NoNumber | tools/static/usr/lib/russng/tools/rurun.py:276-282 | it refuses text with any other character, and white space alone |
| Targets.ElementForms | tools/static/usr/lib/russng/tools/rurun.py:270-284 | every form of an element: an empty first field is 0, an empty second one the number of targets, the step is 1 unless given, an empty or zero step and a fourth field fail |
| Targets.TargetSpecRead | tools/static/usr/lib/russng/tools/rurun.py:261-284 | any ranges written out as a:b:c with commas between them are the ranges that the text stands for, a step of 0 being refused |
| Targets.GetTargetIds | tools/static/usr/lib/russng/tools/rurun.py:261-284 | one range per element of the text, as documented, an empty field being 0 or the number of targets; it fails exactly if an element has more than three fields, a field that is no number, or a third one that is empty or 0 |
| Targets.PairsAreTheTargets | tools/static/usr/lib/russng/tools/rurun.py:587 | the pairs are exactly the ids of every range with the number of their range |
| Targets.PairsInOrder | tools/static/usr/lib/russng/tools/rurun.py:587 | the pairs come range by range, and within a range in its order, each once |
| Targets.ReplicationCovers | tools/static/usr/lib/russng/tools/rurun.py:596-597 | replication gives exactly `ntasks` entries, entry i being the given target i modulo their number |

## Left out

- Real system calls, processes, signals, users, limits, ssh and PAM; allocation failures; logging and messages written to a connection's stderr or stdout.
- ThreadPool.Step: the pool is a state machine, not a class; `drain`, failures to start a thread, `get_n*` and exceptions of a reap without results are not steps.
- ThreadPool.EveryTaskCompletes: assumes that every task body returns, and states the outcome of runs in which nothing can move any more, not that a scheduler is fair.
- Relay.RussRelay.Serve: streams are values in the relay, so aliasing of buffers is not modelled; callbacks, timestamps and the wrap-around of the byte counters are not modelled.
- Relay.RussRelay.Add: one buffer per stream and no allocation failure; `russ_relay_add2` is two adds, and removes the first by its pair if the second is refused.
- Buf.RussBuf.Resize: failure to reallocate is not modelled.
- Codec.DecReq: reading past the buffer, and a string without NUL, are failures here, where the C code reads on; negative lengths are refused.
- Codec.FindOpnum: the operation table is the built-in one.
- Wire.FindOp: a number that is not in the table, for which the C loop runs beyond its end, has no name here.
- EncDec.EncReq: int overflow of `4+alen` for strings near 2^31 bytes is not modelled.
- Request.Socket.AwaitReq: a size beyond the buffer is a failure here, where the C code writes beyond it.
- Conn.SendFds: a descriptor sent is one item of the stream; what a read of plain bytes does at such an item is a failure.
- Conn.MakePipes: socket pairs and pipes are both channels with two ends.
- Conn.Process.Write: how much a failing write gets out is arbitrary.
- Splice.Dial: begins after the connection is made and the request sent; spawning a server for a conf file and the clean-up after a failed connect are not modelled.
- Splice.Splice: `russ_sconn_redialandsplice` around it is not modelled.
- Wait.WaitExit: a script that runs out counts as a timeout; an endless stream of empty reads is not a run.
- Svr.Handler: the outcome of the search, the settings and the handler's actions are inputs; only the default answer handler and NULL are modelled; statuses whose write comes up short are covered only as `broken`. The thread loop is not modelled.
- Exit.SendExit: `russ_sconn_fatal` is this after a message, which is left out.
- Conf.Conf.GetValue: `getint`, `getfloat`, `getref`, `options` and `sections` only read and are left out; so are `russ_conf_load`, whose `-d <section>` branch writes through NULL, and the capacities of the arrays.
- ConfFile.ReadFd: texts with NUL characters and non-ASCII `isspace`; read errors. On a line with so much white space before it that conf.c:801 starts beyond the 4096 bytes of the buffer, what the C code reads and writes there is not modelled.
- ConfFile.WriteFd: write errors.
- SvcNodes.SvcNode.FindNode: the buffer of the matched path is the text behind its first character, and what is appended beyond its capacity, which is compared with one component at a time, is kept.
- SvcNodes.StripOptions: a path of exactly the limit without options, which makes the C code write one byte beyond its buffer, is accepted.
- Str.Split: an empty separator, on which the C loops do not end.
- SArray.Insert: the variable argument list is a sequence; `append`, `dup`, `extend`, `find`, `replace`, `update` are easier members of the same kind, and `russ_sarray0_move` does not shift as documented.
- Template.Resolve: a name of 255 characters, for which the C code writes one byte beyond `prefix`, and a template that ends in `${`, beyond which it searches, are taken as the arithmetic says: accepted and refused. A value that does not fit is freed there although it is not an allocation.
- Targets.GetValidIdIndex: `sscanf` of numbers beyond an int.
- Targets.ReplicationCovers: the float division is taken as exact, and a missing target (division by zero) is excluded.
- Targets.Number: digits and white space beyond ASCII, and the limit that newer Pythons put on the number of digits.
- Targets.RunPath: joins its parts with slashes; a method that starts with a slash, for which `os.path.join` drops everything before it, goes to another path.
- `russ_str_replace_char`, `russ_spath_getname`, `russ_spath_getoptions`, `russ_spath_split`, symbolic links, the 64-bit and 16-bit codecs, the other servers, the command-line tools and the Python bindings.
