# Verified models of netdata internals

This project models the parts of netdata that hold real state and proves what they keep over every input, every
interleaving and every run:

* the streaming HTTP/1.1 response parser of the cloud link, with the ring buffer under it;
* the locking of daemon commands, and the reply protocol between the daemon and its command line tool;
* the life of the agent-cloud link: sessions, hold-offs, backoff, graceful shutdown;
* shared statistics and indexes: a lock-free maximum, the worker thread index, worker utilization figures, the list of
  pending cloud requests, the topic cache;
* ordering and de-duplication of integrations.

Where the source works on values the model is functions and lemmas; where it changes memory the model is classes with
`modifies` clauses, each method proved against a function on values, and the laws are proved about that function.
`dafny verify dfyconfig.toml` checks everything.

| files | what they model |
|---|---|
| `Bytes`, `CLib`, `Options` | byte search as the ring buffer performs it, the C library conversions in use, optional values |
| `RingBuffer` | the ring buffer in an array |
| `HttpResponse` | the parser as a state machine on values |
| `HttpParser`, `HttpClient` | the parser in memory, on the ring buffer and a growing heap buffer, and the loop that receives bytes for it |
| `HttpReception` | the receiving loop on values, with the room in the ring |
| `HttpMessages`, `HttpHead` | encoders for bodies and heads, and round trips |
| `HttpResume`, `HttpDelivery` | parsing in fragments compared with parsing at once, for any bytes |
| `HttpCuts`, `HttpTears` | responses in fragments: which cuts lose them |
| `HttpReceived` | which responses the receiving loop delivers |
| `HttpFaults` | which header lines make the parser leave the defined behaviour of C |
| `CommandLocks`, `CommandReply` | command locking; replies |
| `Link`, `Backoff` | the link thread |
| `PeakStatistic`, `WorkerIndex`, `ThreadList`, `WorkerGroups`, `WorkerStatistics` | statistics |
| `PendingRequests`, `TopicCache`, `TopicCacheStore` | cloud requests and topics |
| `Integrations` | sort and de-duplication |

## Where the code differs from what one expects

* `rbuf_memcmp` reports equality as soon as the data run out, so a search for CRLF is satisfied by a lone CR at the end
  of the buffer. Parsing in fragments is therefore not always the same as parsing at once. For any bytes the exact
  condition is `HttpResume.ResumeExactlyWhenClean`. A complete response is delivered if and only if no cut falls between
  CR and LF of its status line, a header line, the blank line or the size line of a chunk with data
  (`HttpTears.FragmentsDeliverExactly`); cut inside the blank line, every chunked response is reported as a success
  with an empty body (`HttpTears.TornBlankLineLosesBody`).
* Content that is not chunked is not taken out of the ring while the parser waits for the rest of it. A response whose
  Content-Length exceeds the ring, which has 16384 bytes, is never received: the ring fills up and the next read fails.
  The exact condition is in `HttpReceived.ReceivedExactly`; `HttpReceived.LongResponse` is such a response. A line of
  the head that is longer than the ring has the same effect.
* The separator search in a header line is not limited to the line. When the first separator lies behind the line, a
  length becomes negative and the value is copied past its buffer. The model calls this outcome `Undefined`; it is
  characterised by `HttpResponse.UndefinedExactly`, on bytes by `HttpFaults.MissingSeparator`, and
  `HttpFaults.FaultyResponse` is an input that does it.
* `rbuf_bump_tail` does nothing when asked to skip more bytes than there are. Asked to skip none on a full ring it fails
  its assertion, or flushes the ring in a build without assertions, which is the default. A header line with an empty
  name at the start of a read that fills the ring gets there; that is the other `Undefined` outcome
  (`HttpFaults.EmptyName`, with an input in `HttpFaults.EmptyNameResponse`).
* A second Content-Length is not rejected; the first one counts (`HttpHead.FramingExact`).
* `aclk_tbeb_delay` is documented to return milliseconds but returns its limits in seconds, unscaled
  (`Backoff.LimitKeepsPromiseExactly`), so the default backoff drops from over 512 seconds to about one second
  (`Backoff.DefaultBackoffCollapses`).
* A reason to restart the connection that arrives together with the loss of the connection stays pending and ends the
  next session (`Link.StaleCauseEndsSession`).
* The loop that raises the maximum goes round once more after a successful exchange. When a reader resets the maximum
  in between, the same peak can be published again and reported twice (`PeakStatistic.PeakReportedTwice`); without such
  a reset it cannot (`PeakStatistic.ReportedOnce`, `PeakStatistic.PublishesAgainExactly`).
* A worker thread that moves to a group earlier in the order drops out of the index for one pass
  (`WorkerIndex.MoverMissesOnePass`). Exactly which threads do is `WorkerIndex.IndexedAfterPass`; the next pass settles
  it (`WorkerIndex.SecondPassSettles`).
* The command line tool steps over one digit of the exit status only (`CommandReply.OnlyOneDigit`). The daemon's
  statuses have one digit.

## Model

| member | source | states |
|---|---|---|
| `RingBuffers.RingBuffer.constructor` | src/libnetdata/ringbuffer/ringbuffer.c:6-19 | a new ring of the given size is empty |
| `RingBuffers.RingBuffer.Flush` | src/libnetdata/ringbuffer/ringbuffer.c:26-31 | the ring is empty afterwards |
| `RingBuffers.RingBuffer.LinearInsertRange` | src/libnetdata/ringbuffer/ringbuffer.c:33-41 | the contiguous room lies inside the array and inside the free bytes, and is zero exactly for a full ring |
| `RingBuffers.RingBuffer.LinearReadRange` | src/libnetdata/ringbuffer/ringbuffer.c:43-52 | the contiguous run lies inside the array and inside the stored bytes, and is zero exactly for an empty ring |
| `RingBuffers.RingBuffer.BumpHead` | src/libnetdata/ringbuffer/ringbuffer.c:54-63 | refused exactly beyond the free bytes; stored bytes keep their place in front |
| `RingBuffers.RingBuffer.BumpTailNoopt` | src/libnetdata/ringbuffer/ringbuffer.c:65-74 | drops exactly the oldest bytes, or refuses and changes nothing when there are fewer |
| `RingBuffers.RingBuffer.BumpTail` | src/libnetdata/ringbuffer/ringbuffer.c:76-92 | drops exactly the oldest bytes or refuses; a move by nothing on a full ring, and nothing else, fails the assertion and flushes the ring |
| `RingBuffers.RingBuffer.Push` | src/libnetdata/ringbuffer/ringbuffer.c:109-122 | appends as many bytes as fit, across the wrap-around, and reports their number |
| `RingBuffers.RingBuffer.Pop` | src/libnetdata/ringbuffer/ringbuffer.c:124-137 | removes and returns the oldest bytes in order, across the wrap-around; taking none from a full ring flushes it |
| `RingBuffers.RingBuffer.Memcmp` | src/libnetdata/ringbuffer/ringbuffer.c:146-165 | reports equality exactly if no byte differs before the data or the needle end |
| `RingBuffers.RingBuffer.FindBytes` | src/libnetdata/ringbuffer/ringbuffer.c:172-195 | finds the least offset at which the data agree with the needle as far as they go |
| `Bytes.FindSpec` | src/libnetdata/ringbuffer/ringbuffer.c:172-195 | the search result is the first agreeing offset, and there is none before it |
| `Bytes.HitIsOccurrence` | src/libnetdata/ringbuffer/ringbuffer.c:146-195 | a search that stops with room for the needle stops at its first whole occurrence |
| `Bytes.TornIsTrailingCr` | src/libnetdata/ringbuffer/ringbuffer.c:146-195 | the only false hit of a CRLF search is a lone CR at the end |
| `HttpParser.Parser.ProcessHttpHdr` | src/aclk/https_client.c:59-92 | the in-place update agrees with the header law on values, and the stored fields |
| `HttpParser.Parser.SplitHttpHdr` | src/aclk/https_client.c:103-136 | takes name and value off the ring as the split on values does, with its errors and both undefined cases |
| `HttpParser.Parser.ParseHttpHdr` | src/aclk/https_client.c:103-145 | one header line in memory does what the state machine does |
| `HttpParser.Parser.GrowBy` | src/aclk/https_client.c:147-156 | the buffer grows by the given size and keeps the bytes written |
| `HttpParser.Parser.ReadChunkSize` | src/aclk/https_client.c:165-200 | the chunk size line in memory does what the state machine does |
| `HttpParser.Parser.CopyChunkData` | src/aclk/https_client.c:201-212 | the copy stays inside the buffer and appends exactly the bytes available or missing |
| `HttpParser.Parser.ReadChunkCrlf` | src/aclk/https_client.c:213-236 | the line end after a chunk or the body, with its error cases and the terminator |
| `HttpParser.Parser.ProcessChunkedContent` | src/aclk/https_client.c:158-238 | the chunk loop in memory ends with the result and the state of the run on values |
| `HttpParser.Parser.ParseStatus` | src/aclk/https_client.c:249-285 | the status line in memory does what the state machine does |
| `HttpParser.Parser.ParseHttpResponse` | src/aclk/https_client.c:240-313 | result code, unread bytes, context and body of the in-memory parser equal those of the run on values, for every ring content and context, the undefined outcomes included |
| `HttpClient.ReadParseResponse` | src/aclk/https_client.c:439-502 | the loop in memory ends with the answer, the ring, the context and the bytes left in the socket of the loop on values |
| `HttpReception.ReceiveFeeds` | src/aclk/https_client.c:439-502 | every byte that arrives is read once and in order, or left; the loop ends as feeding the reads to the parser does, a read error only on a full ring and a timeout only with nothing left |
| `HttpReception.ReceiveInRing` | src/aclk/https_client.c:463-494 | the ring never holds more than its capacity |
| `HttpReception.ReceiveWhole` | src/aclk/https_client.c:439-502 | if all cuts between reads are clean and there was room, the loop ends as one call on all bytes, wherever that call is defined |
| `HttpReceived.ReceivedExactly` | src/aclk/https_client.c:439-502 | whatever arrives when, the loop delivers a response if and only if no read ends between CR and LF of its status line, a header line, the blank line or the size line of a chunk with data, every line of the head fits into the ring, and an announced length fits into it and comes; what is complete, not torn and does not fit ends in a read error |
| `HttpReceived.RoomLeft` | src/aclk/https_client.c:463-494 | as long as a response that fits is not torn, a parser that waits for more leaves room in the ring |
| `HttpReceived.MisfitFails` | src/aclk/https_client.c:463-494 | a line of the head longer than the ring ends in a read error |
| `HttpReceived.IncompleteTimesOut` | src/aclk/https_client.c:450-457 | a response that fits and is not torn is waited for until it is complete |
| `HttpReceived.LongContentFails` | src/aclk/https_client.c:297-310 | a response with a length above the capacity, head and content in one read each, ends in a read error |
| `HttpReceived.LongResponse` | src/aclk/https_client.c:297-310 | one of 16385 bytes on the ring of 16384 bytes |
| `HttpResponse.Step` | src/aclk/https_client.c:240-313 | every loop iteration keeps the buffer accounting (room left is exactly what the chunk still lacks), and asking for more data changes nothing |
| `HttpResponse.StepProgress` | src/aclk/https_client.c:163-312 | every iteration consumes bytes or moves the state forward, so both loops end |
| `HttpResponse.BufferExact` | src/aclk/https_client.c:223-228 | on success the chunk buffer is the body and one terminator, so the size mismatch never occurs |
| `HttpResponse.StepFaultsExactly` | src/aclk/https_client.c:115-136 | an iteration is undefined if and only if a header line is at hand whose first separator within reach lies behind the line, or has no name in front of it on a full ring |
| `HttpResponse.UndefinedExactly` | src/aclk/https_client.c:240-313 | a call is undefined if and only if it comes to such a line |
| `HttpResume.CleanResumes` | src/aclk/https_client.c:103-313 | at a clean cut, going on after more bytes equals one call on all bytes, wherever that call is defined |
| `HttpResume.ResumeExactlyWhenClean` | src/aclk/https_client.c:103-313 | a call may be followed by any further bytes without changing a defined outcome if and only if the cut is clean; otherwise one byte shows the difference |
| `HttpResume.SplitInvariance` | src/aclk/https_client.c:103-313 | feeding fragments with clean cuts, in any number, ends as one call on their concatenation; with the room in the ring it is `HttpReception.ReceiveWhole` |
| `HttpResume.StateOnlyAdvances` | src/aclk/https_client.c:240-313 | no run moves back from content to headers or from headers to the status line |
| `HttpMessages.ChunkedRoundTrip` | src/aclk/https_client.c:158-238 | decoding any list of non-empty chunks yields their concatenation, consumes exactly the encoding and leaves what follows |
| `HttpMessages.AnyDataRoundTrip` | src/aclk/https_client.c:158-238 | any data in any non-empty pieces, with hexadecimal sizes and a last chunk of size zero, are decoded to their concatenation |
| `HttpMessages.ChunkedSound` | src/aclk/https_client.c:158-238 | every body the decoder accepts is the encoding of some chunks, and their concatenation is what it delivers |
| `HttpMessages.TornNeverSucceeds` | src/aclk/https_client.c:165-173 | a body without a whole line end is never accepted |
| `CLib.StrtolReadsHex` | src/aclk/https_client.c:182-187 | hexadecimal notation of any size below the limit is read back as that size |
| `CLib.StrtolOtherForms` | src/aclk/https_client.c:182-187 | a sign and the 0x prefix are read as C reads them, and a number out of range becomes the greatest one |
| `CLib.HexUpToCase` | src/aclk/https_client.c:182-187 | upper and lower case hexadecimal digits mean the same |
| `CLib.LowerMeans` | src/aclk/https_client.c:138-139 | lowering two names makes them equal if and only if they are equal up to ASCII case |
| `CLib.Str2uReadsDecimal` | src/aclk/https_client.c:59-92 | the decimal text of a number is read back modulo 2^32 |
| `CLib.AtoiReadsDecimal` | src/aclk/https_client.c:270-276 | the decimal text of a number is read back, with its sign |
| `HttpHead.FramingExact` | src/aclk/https_client.c:59-92 | a header block is accepted exactly if it has no chunked coding beside a length, at most one chunked coding and a readable first length; the framing is then none, chunked or the first length; names count up to case |
| `HttpHead.CaseDoesNotMatter` | src/aclk/https_client.c:138-142 | fields whose names are equal up to case are processed alike |
| `HttpHead.LengthRecognised` | src/aclk/https_client.c:59-80 | every casing of Content-Length sets the length to the decimal number it holds modulo 2^32, and is refused exactly if that is 2^31 or more |
| `HttpHead.TableExact` | src/aclk/https_client.c:85-92 | the header table holds, for every name without a part in the framing, the last value sent under it in any case, and nothing for other names |
| `HttpHead.HeaderExactly` | src/aclk/https_client.c:103-145 | a header line is taken if and only if its first separator is inside it, name and value fit their buffers, no empty name starts a full ring, and the field is accepted; then exactly the line is consumed |
| `HttpHead.HeaderBlock` | src/aclk/https_client.c:286-296 | a block of well-formed fields is processed field by field up to the blank line, or rejected |
| `HttpHead.StatusStep` | src/aclk/https_client.c:249-285 | every well-formed status line yields its code and is consumed with its line end |
| `HttpHead.StatusExactly` | src/aclk/https_client.c:249-285 | a status line is taken if and only if it starts with HTTP/1.1, or HTTP/1.0 for a proxy, and a code from 100 to 599 before a space; every other line is an error |
| `HttpHead.HeadParses` | src/aclk/https_client.c:240-296 | a well-formed head ends in the context its fields define, or in an error |
| `HttpHead.ChunkedResponseParses` | src/aclk/https_client.c:240-313 | a whole chunked response is delivered: its payload is the body and what follows is left |
| `HttpHead.PlainResponseParses` | src/aclk/https_client.c:297-310 | a response with a length succeeds exactly when that many bytes are there |
| `HttpDelivery.PrefixClean` | src/aclk/https_client.c:240-313 | a prefix of a well-separated response that does not end in CR is a clean cut |
| `HttpDelivery.FragmentsDeliver` | src/aclk/https_client.c:240-313 | a response of any kind, bare CRs in its lines allowed, is delivered whole if no cut comes right after a CR and the announced content is there |
| `HttpCuts.BodySeamless` | src/aclk/https_client.c:158-238 | a cut anywhere in a chunked body, except inside the size line end of a chunk with data, changes nothing |
| `HttpTears.UntornSeamless` | src/aclk/https_client.c:240-313 | a cut in a response that tears no line changes neither result nor context nor buffer, whatever part of the response comes next |
| `HttpTears.FragmentsDeliverExactly` | src/aclk/https_client.c:240-313 | a response of any kind in any number of fragments is delivered whole if and only if the announced content is there and no cut falls between CR and LF of the status line, a header line, the blank line or the size line of a chunk with data |
| `HttpTears.TornBlankLineLosesBody` | src/aclk/https_client.c:286-291 | every chunked response cut inside its blank line ends in success with an empty body and the whole body unread |
| `HttpFaults.SeparatedNeverFaults` | src/aclk/https_client.c:103-145 | a buffer that does not end in CR and whose header lines all show a name and a separator is read without leaving the defined behaviour |
| `HttpFaults.MissingSeparator` | src/aclk/https_client.c:115-136 | a header line without separator, behind any accepted head: undefined if and only if a separator follows within reach of the name buffer, else an error |
| `HttpFaults.EmptyName` | src/aclk/https_client.c:125-128 | a header line with an empty name at the start of a read, behind any accepted head: the loop comes to it with an empty ring, and the call is undefined at it if and only if the read fills the ring |
| `HttpFaults.EmptyNameResponse` | src/aclk/https_client.c:125-128 | two reads on the ring of 16384 bytes that leave the defined behaviour |
| `HttpFaults.FaultyResponse` | src/aclk/https_client.c:115-136 | a response of four lines that leaves the defined behaviour |
| `CommandLocks.AdvanceKeepsInv` | src/daemon/commands.c:446-494 | every lock operation of every thread keeps the agreement of locks and program counters |
| `CommandLocks.ReachableInv` | src/daemon/commands.c:558-568 | it holds in every reachable state, for any number of threads and either lock policy |
| `CommandLocks.BodiesCompatible` | src/daemon/commands.h:37-55 | two bodies that run at the same time are compatible by the rules of the command types |
| `CommandLocks.OverlapExactlyWhenCompatible` | src/daemon/commands.h:37-55 | commands can all be in their bodies at once if and only if they are pairwise compatible |
| `CommandLocks.OverlapByName` | src/daemon/commands.c:52-67 | which two commands may overlap, by name |
| `CommandLocks.UnlocksOwnLocks` | src/daemon/commands.c:471-494 | whoever unlocks holds what is unlocked |
| `CommandLocks.NoDeadlock` | src/daemon/commands.c:446-494 | while a command is unfinished some thread can go on |
| `CommandLocks.NoCommandLost` | src/daemon/commands.c:558-568 | every run without new arrivals ends, and it ends with all commands finished and all locks free |
| `CommandLocks.MutexOutlivesReadLock` | src/daemon/commands.c:478-482 | an exclusive command can hold the lock while an orthogonal one still holds its mutex |
| `CommandReply.SendCommandReply` | src/daemon/commands.c:528-556 | the bytes and the size sent are those of the reply format |
| `CommandReply.ReplyBytes` | src/daemon/commands.h:34-36 | the bytes of a reply, prefix letters included |
| `CommandReply.Cli.ParseCommandReply` | src/cli/cli.c:25-63 | the cursor loop shows what the reply means, for every buffer, without reading past its terminator |
| `CommandReply.ReplyRoundTrip` | src/daemon/commands.c:513-556 | the tool recovers every status and prints exactly the message, on the stream the status calls for, without syntax error |
| `CommandReply.PartsRoundTrip` | src/cli/cli.c:25-63 | every sequence of parts is shown in full and in order |
| `CommandReply.OnlyOneDigit` | src/cli/cli.c:31-45 | an exit status is understood without syntax error if and only if it has a single digit |
| `Link.AclkLink.PubackCallback` | src/aclk/aclk.c:267-284 | the third acknowledgement of a connection resets the backoff; only the shutdown message id sets the shutdown flag |
| `Link.AclkLink.MsgCallback` | src/aclk/aclk.c:229-265 | a link that is shutting down ignores messages; otherwise a disconnect request stores its ban, the second until which it holds the agent off, and the reason to restart, and other messages change nothing |
| `Link.AclkLink.BanAndHold` | src/aclk/aclk_rx_msgs.c:394-414 | a ban and a hold-off are stored as the cloud asked for |
| `Link.AclkLink.ApplyAnswer` | src/aclk/aclk_otp.c:176-180 | the answer to a login stores its ban and hold-off, and the backoff limits of the cloud |
| `Link.AclkLink.Service` | src/aclk/aclk.c:300-306 | one service handles all callbacks of the answer, in order; all globals are then what the answers so far call for |
| `Link.AclkLink.ReconnectDelay` | src/aclk/aclk.c:392-417 | a minute for a banned agent, the rest of the hold-off if it is not over, and else the backoff with the limits of the cloud or the default ones; a hold-off is used up |
| `Link.AclkLink.BlockTillReconAllowed` | src/aclk/aclk.c:424-447 | the slices slept add up to the delay unless the agent stops, and the hold-off is over then |
| `Link.AclkLink.MqttConnectedActions` | src/aclk/aclk.c:333-358 | online, one more connection, no acknowledgement counted |
| `Link.AclkLink.AttemptToConnect` | src/aclk/aclk.c:546-745 | called offline with no shutdown in flight; every attempt inside starts after the hold-off; it ends in a session, with the agent told to stop, or without URL |
| `Link.AclkLink.SendShutdown` | src/aclk/aclk_tx_msgs.c:199-233 | the id of the shutdown message is the one the library gave, zero if it could not be sent |
| `Link.AclkLink.GracefulDisconnect` | src/aclk/aclk.c:360-390 | announces the shutdown, serves at least once and ends offline |
| `Link.AclkLink.HandleConnection` | src/aclk/aclk.c:294-331 | a restart leaves no shutdown in flight and no reason pending; otherwise the agent stops |
| `Link.AclkLink.Run` | src/aclk/aclk.c:800-811 | whatever happens outside, the trace of the run, which names the answers it rests on, keeps hold-offs and the order of events; the run ends offline, and only if the agent is told to stop or has no URL |
| `Link.AttemptsRespectRequests` | src/aclk/aclk.c:392-447 | in such a run no attempt of an agent that was not banned starts before the second that the latest request of the cloud named, in a message or in the answer to a login |
| `Link.RequestsHeard` | src/aclk/aclk_rx_msgs.c:394-414 | which requests those are: every disconnect request served while no shutdown message is out, and every failed login, with their seconds and times |
| `Link.SessionsFollowConnects` | src/aclk/aclk.c:716-735 | every attempt is answered, and the link goes online exactly after an answer that connects |
| `Link.SessionEnds` | src/aclk/aclk.c:294-331 | a session goes offline exactly when the connection is lost, and announces its shutdown right after a disconnect request, a ping timeout or a new claim |
| `Link.ClosingEnds` | src/aclk/aclk.c:366-377 | a link that is closing goes offline exactly when the shutdown is acknowledged, the link is lost or two seconds are over |
| `Link.StaleCauseEndsSession` | src/aclk/aclk.c:304-328 | a reason to restart that came with the loss of a connection ends the next session |
| `Link.SessionsEndBeforeAttempts` | src/aclk/aclk.c:800-811 | between going online and the next attempt the link goes offline |
| `Link.AcksFollowShutdown` | src/aclk/aclk.c:267-284 | a shutdown that counts as acknowledged was sent before, in the same session, and its own id was acknowledged |
| `Link.OneResetPerConnection` | src/aclk/aclk.c:267-273 | acknowledgements make a connection stable, and so reset the backoff, at most once |
| `Backoff.Tbeb.Delay` | src/aclk/aclk_util.c:335-362 | the first attempt waits for nothing; later ones for the raw delay or an unscaled limit |
| `Backoff.RawIsPowerPlusRandom` | src/aclk/aclk_util.c:350-353 | the raw delay is the power of the base in seconds plus a random number below half of it or one second, whichever is more, and every such number can occur |
| `Backoff.RawRange` | src/aclk/aclk_util.c:350-353 | the raw delay of an attempt lies in a range of its own |
| `Backoff.RawDelaysIncrease` | src/aclk/aclk_util.c:350-353 | raw delays grow strictly with the attempt, whatever the random numbers are |
| `Backoff.LimitKeepsPromiseExactly` | src/aclk/aclk_util.c:355-361 | the returned value is the raw delay limited to min and max seconds if and only if no limit applies or the limit is zero; a limit that applies is returned a thousand times too small |
| `Backoff.DefaultBackoffCollapses` | src/aclk/aclk_util.c:355-361 | with the default limits the eleventh delay is about a second after one of more than 512 |
| `PeakStatistic.StepKeepsInv` | src/daemon/global_statistics.c:177-179 | every load and exchange of every thread keeps completed times covered and values genuine |
| `PeakStatistic.NoPeakLost` | src/daemon/global_statistics.c:243-246 | in every interleaving a completed time is at most the maximum or a value reported by a reader that reset it |
| `PeakStatistic.NoPeakInvented` | src/daemon/global_statistics.c:202 | every value shown is zero or the time of some request |
| `PeakStatistic.ReportsTheMaximum` | src/daemon/global_statistics.c:236-248 | whatever a reader reports, with or without a reset, is the maximum at that moment |
| `PeakStatistic.QuiescentPeakExact` | src/daemon/global_statistics.c:177-179 | when all requests have completed, the maximum and the reset values together give exactly the largest time |
| `PeakStatistic.SoloCompletes` | src/daemon/global_statistics.c:177-179 | from any state a request left alone completes in five steps |
| `PeakStatistic.PeakReportedTwice` | src/daemon/global_statistics.c:243-246 | with a reset during the loop, one peak can be reported by two readers that reset the maximum |
| `PeakStatistic.PublishesAgainExactly` | src/daemon/global_statistics.c:177-179 | a request that has published its time publishes it again with its next exchange if and only if the maximum is back at what it was before and the exchange does not fail; a reset lies in between |
| `PeakStatistic.PublishesAgainMeansReset` | src/daemon/global_statistics.c:177-179 | the same need of a reset with any number of failed exchanges in between |
| `PeakStatistic.LowerMeansReset` | src/daemon/global_statistics.c:243-246 | a maximum that is lower at the end of a run was reset in it |
| `PeakStatistic.PublishedOncePerReset` | src/daemon/global_statistics.c:177-179 | in every run a request publishes its time at most once more often than the maximum is reset |
| `PeakStatistic.ReportedOncePerStore` | src/daemon/global_statistics.c:243-246 | readers that reset the maximum report a value at most as often as it was stored |
| `PeakStatistic.ReportedOnce` | src/daemon/global_statistics.c:177-179 | a peak is reported at most once by them unless one resets the maximum while the request is in its loop |
| `WorkerIndex.RunConsistent` | src/daemon/global_statistics.c:3997-4042 | after any sequence of resets, reports and cleanups over all groups the index holds exactly the listed threads, each in one list |
| `WorkerIndex.CleanupLeavesEnabled` | src/daemon/global_statistics.c:3997-4009 | a cleanup leaves exactly the enabled threads of its group and the other groups alone |
| `WorkerIndex.RoundSpec` | src/daemon/global_statistics.c:4144-4154 | after its round a group lists exactly the threads reported in it that no other group lists |
| `WorkerIndex.PassExact` | src/daemon/global_statistics.c:4140-4154 | after a pass a group lists a thread if and only if it is the first group that reports the thread and has no group behind it that listed the thread before; threads may be reported in several groups |
| `WorkerIndex.IndexedAfterPass` | src/daemon/global_statistics.c:4140-4154 | a thread is indexed after a pass if and only if some group reports it behind which no group listed it before |
| `WorkerIndex.MoverMissesOnePass` | src/daemon/global_statistics.c:4140-4154 | two passes from the empty table after which a reported thread is missing |
| `WorkerIndex.SecondPassSettles` | src/daemon/global_statistics.c:4140-4154 | after two passes over the same registrations the index holds exactly the reported threads, each listed in a group that reports it |
| `WorkerIndex.UnlistThenCleanup` | src/daemon/global_statistics.c:3997-4009 | removing disabled threads one at a time is the cleanup |
| `WorkerGroups.Workers.ResetThreads` | src/daemon/global_statistics.c:3948-3952 | the walk along the links disables the records of the group, seen through the index as well |
| `WorkerGroups.Workers.Find` | src/daemon/global_statistics.c:4011-4019 | there is a record if and only if some group lists the thread; it is the record in that list, with that thread id |
| `WorkerGroups.Workers.Create` | src/daemon/global_statistics.c:4021-4034 | a new record at the end of the linked list of the group and in the index; all other links stay |
| `WorkerGroups.Workers.FindOrCreate` | src/daemon/global_statistics.c:4036-4042 | the record of the thread, new only if no group lists it |
| `WorkerGroups.Workers.Callback` | src/daemon/global_statistics.c:4062-4067 | the record found or created is enabled, wherever it is listed |
| `WorkerGroups.Workers.Link` | src/libnetdata/linked-lists.h:24-39 | appending to the list of one group keeps the links of all groups |
| `WorkerGroups.Workers.Unlink` | src/libnetdata/linked-lists.h:41-68 | removing from the list of one group keeps the links of all groups |
| `WorkerGroups.Workers.CleanupStep` | src/daemon/global_statistics.c:3999-4008 | a disabled thread leaves index and list; the thread remembered before is the next one in the list |
| `WorkerGroups.Workers.Cleanup` | src/daemon/global_statistics.c:3997-4009 | the walk that unlinks while it goes leaves exactly the table of the cleanup on values |
| `WorkerGroups.Workers.Charts` | src/daemon/global_statistics.c:4140-4154 | a whole pass over the linked lists and the index is the pass on values |
| `ThreadLists.ThreadList.Append` | src/libnetdata/linked-lists.h:24-39 | appends at the end and keeps all links, the last one found through the first |
| `ThreadLists.ThreadList.Remove` | src/libnetdata/linked-lists.h:41-68 | removes exactly that item, keeps the others in order and all links |
| `ThreadLists.ThreadList.DisableAll` | src/daemon/global_statistics.c:3948-3952 | the walk along the links reaches every thread |
| `WorkerStatistics.WorkerUtilization.Reset` | src/daemon/global_statistics.c:3917-3946 | all figures describe no samples |
| `WorkerStatistics.WorkerUtilization.Account` | src/daemon/global_statistics.c:4064-4120 | all figures describe the samples so far: totals, extremes, and count, sum and extremes of every job metric |
| `WorkerStatistics.WorkerUtilization.Chart` | src/daemon/global_statistics.c:3616-3627 | the charted minimum and maximum are observed percentages that bound all others, the average is the busy share of the whole time; all are zero for an idle group, and they are in order between 0 and 100 percent |
| `WorkerStatistics.WorkerUtilization.JobAverage` | src/daemon/global_statistics.c:3908-3910 | the charted average of a metric is its mean and lies between its extremes |
| `WorkerStatistics.ChartedInOrder` | src/daemon/global_statistics.c:4064-4089 | for every set of samples, idle ones included, the average lies between the smallest and the largest percentage |
| `WorkerStatistics.ChartedExactly` | src/daemon/global_statistics.c:3616-3627 | what the three figures are, for every set of samples |
| `WorkerStatistics.TotalsAdd` | src/daemon/global_statistics.c:4079-4103 | the totals of two groups of samples add up, and the values of a metric follow each other |
| `WorkerStatistics.AverageBounds` | src/daemon/global_statistics.c:4105-4119 | for every metric with values the mean lies between the smallest and the largest |
| `PendingRequests.PendingList.AddRequest` | src/aclk/aclk_query.c:31-42 | a new request in front, the others untouched |
| `PendingRequests.PendingList.RemoveRequest` | src/aclk/aclk_query.c:44-67 | unlinks exactly the newest request with the id, whatever the hash function is |
| `PendingRequests.PendingList.MarkCancelled` | src/aclk/aclk_query.c:69-87 | flags exactly the newest request with the id, and says whether there was one |
| `PendingRequests.PendingList.IsCancelled` | src/aclk/aclk_query.c:89-93 | reads the flag of the request |
| `PendingRequests.ListRefinesHistory` | src/aclk/aclk_query.c:31-87 | after any history the list shows for every id the stack of flags that the operations on that id define |
| `PendingRequests.CancelledExactlyIfCancelRan` | src/aclk/aclk_query.c:31-93 | a request that was added and not removed reads as cancelled if and only if a cancellation of its id ran since |
| `PendingRequests.OthersUntouched` | src/aclk/aclk_query.c:44-87 | removing or cancelling keeps the order and the flags of all other requests |
| `TopicCacheStore.FillTopic` | src/aclk/aclk_util.c:191-200 | the allocation holds the topic and its terminator and no byte more |
| `TopicCacheStore.TopicCache.FreeTopicCache` | src/aclk/aclk_util.c:86-98 | no cache and no items |
| `TopicCacheStore.TopicCache.ReadTopic` | src/aclk/aclk_util.c:211-236 | the fields loop reads id and template, or finds a field of the wrong type |
| `TopicCacheStore.TopicCache.GenerateFinal` | src/aclk/aclk_util.c:179-201 | the record holds the template with its first tag replaced, or nothing |
| `TopicCacheStore.TopicCache.AddTopic` | src/aclk/aclk_util.c:203-247 | fails exactly for a bad description; only a finished record is counted |
| `TopicCacheStore.TopicCache.Load` | src/aclk/aclk_util.c:262-275 | every slot below the count is a finished record, also after a failure |
| `TopicCacheStore.TopicCache.MissesCompulsory` | src/aclk/aclk_util.c:277-282 | reports exactly an incomplete cache |
| `TopicCacheStore.TopicCache.GetTopic` | src/aclk/aclk_util.c:292-305 | the topic of the first counted record with the id |
| `TopicCacheStore.TopicCache.Generate` | src/aclk/aclk_util.c:249-285 | the cache in memory and the verdict are those of the rebuild on values |
| `TopicCaches.GoodMeans` | src/aclk/aclk_util.c:203-242 | a description is accepted if and only if it is an object with a topic whose names and topics are all texts |
| `TopicCaches.IdsByName` | src/aclk/aclk_util.c:110-165 | a topic has the id of its place in the table of names, and exactly the other names are unknown |
| `TopicCaches.NamedMeans` | src/aclk/aclk_util.c:211-236 | a description is about a topic if and only if its last name is the name of that topic |
| `TopicCaches.ReadingMeans` | src/aclk/aclk_util.c:211-236 | the template is the text of the last topic field, the id that of the last name, and unknown without a name |
| `TopicCaches.FinalFills` | src/aclk/aclk_util.c:179-201 | there is a topic if and only if there is a tag and a claim id; it is the template with the first tag exchanged, of exactly the length computed |
| `TopicCaches.RebuildSucceedsExactly` | src/aclk/aclk_util.c:249-285 | a rebuild succeeds if and only if the list is not empty, all of it is well-formed, the agent is claimed, and for every name of the table there is a description, the first of which has a tag |
| `TopicCaches.CompulsoryTopicsResolve` | src/aclk/aclk_util.c:249-305 | after a success the id of every topic resolves to the first template sent under its name, with the claim id filled in |
| `TopicCaches.OnlyLastMatters` | src/aclk/aclk_util.c:249-262 | after any history the cache is that of the last operation that was not a rebuild from an empty list |
| `Integrations.ThreeSortsAreOne` | integrations/gen_integrations.py:465-468 | three successive stable sorts, by whatever algorithm, are the one stable sort by id, path and index |
| `Integrations.SortTwice` | integrations/gen_integrations.py:465-468 | a stable sort after another one falls back on the order of the first |
| `Integrations.StableSortUnique` | integrations/gen_integrations.py:465-468 | a list has one stable sort only |
| `Integrations.IntegrationList.SortAll` | integrations/gen_integrations.py:465-468 | the list is sorted in place by id, path and index |
| `Integrations.DedupeIntegrations` | integrations/gen_integrations.py:471-482 | keeps the items with new ids and records where they were defined |
| `Integrations.Generate` | integrations/gen_integrations.py:783-790 | the kinds one after the other with one id table; all ids of the output are distinct |
| `Integrations.OutputIds` | integrations/gen_integrations.py:783-790 | ids are distinct across all kinds, and they are exactly the ids of the input |
| `Integrations.NoIdLost` | integrations/gen_integrations.py:783-790 | an id is kept in the first kind that defines it and in no other |
| `Integrations.SurvivorsExactly` | integrations/gen_integrations.py:471-482 | what is kept of a kind are exactly the items whose id no earlier kind defines, with no definition in an earlier path or earlier in the same file, and loaded first among those at the same place |
| `Integrations.PlaceMeans` | integrations/gen_integrations.py:465-468 | the order by path and index is: earlier in the first part that differs, or the same path and a smaller index |
| `Integrations.StringLeqMeans` | integrations/gen_integrations.py:468 | ids are ordered by the first character that differs, or by being a prefix |
| `Integrations.PathLeqMeans` | integrations/gen_integrations.py:467 | paths are ordered by the first part that differs, or by being a prefix |
| `Integrations.KeptInOrder` | integrations/gen_integrations.py:465-482 | what is kept of a kind is strictly ascending by id |
| `Integrations.RecordWhere` | integrations/gen_integrations.py:474-480 | the id table tells the path and index of every item kept |

## Left out

- Sockets, TLS, poll loops, MQTT, libuv and JSON parsing: foreign calls; where they matter they are parameters or a script of answers.
- Chart creation, build information, daemonising, packaging: straight-line plumbing that would only add easy members.
- Memory exhaustion and the width of `size_t` counters: sizes are unbounded integers; the 32-bit Content-Length, its sign and the range of `strtol` are modelled.
- One `char` stands for one byte; bytes above 127 are not treated as negative anywhere in the modelled code.
- HttpResume.ResumeExactlyWhenClean: for receive buffers of at least 1026 bytes; the program uses 16384. A smaller ring could fill up before a size line of the greatest accepted length ends. Outcomes are compared where the one call on all bytes stays within the defined behaviour; `HttpResponse.UndefinedExactly` says where it does.
- HttpTears.FragmentsDeliverExactly: for responses without bare CR in their lines, which section 2.2 of RFC 9112 forbids; content is arbitrary. It feeds fragments without regard to the ring; `HttpReceived.ReceivedExactly` includes the ring and has the same premise.
- HttpDelivery.FragmentsDeliver: lines with bare CRs have this sufficient condition on the cuts only.
- HttpHead.FieldStep: header fields of well-formed responses have a name, as section 5 of RFC 9112 demands; lines without one are covered by `HttpFaults.EmptyName`.
- HttpClient.ReadParseResponse: poll, TLS and time are reduced to the bytes that arrive between polls and to their end; a ring that is full when a read is due is a read error.
- HttpFaults.EmptyName: for a line that the ring can hold, behind a head that comes in one read; `HttpResponse.UndefinedExactly` has no such premise.
- RingBuffers.RingBuffer.BumpHead: on a ring of size zero a move by nothing takes a remainder by zero in the source and is excluded, as it is for `BumpTailNoopt` and `BumpTail`.
- RingBuffers.RingBuffer.FindBytes: needles are not empty, as at every call.
- CommandLocks.NoCommandLost: command bodies are taken to finish; fairness is not needed because every run without arrivals is finite.
- PeakStatistic.NoPeakLost: relaxed atomics on one variable are taken as one order of whole loads and exchanges; the other counters of the same functions are independent additions.
- Link.AclkLink.Run: the outside world is a finite script of any length, after which the agent shuts down; the steps of an attempt between the end of the delay and its result are one answer.
- Link.AclkLink.AttemptToConnect: URL parsing, the environment and login requests and the choice of transport are only told apart by how far the attempt gets.
- Backoff.Tbeb.Delay: `pow` and the multiplication are exact; overflow after very many attempts is not modelled.
- WorkerStatistics.WorkerUtilization.Account: percentages and metrics are reals, so rounding is not modelled; CPU times, job names and units are left out.
- TopicCacheStore.TopicCache.Generate: the claim id does not change during one rebuild.
- Integrations.IntegrationList.SortAll: Python's sort is any stable sort; paths compare by their parts.
- Rendering of integrations, related integrations and categories: text templates.
