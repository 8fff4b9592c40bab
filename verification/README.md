# A verified model of the web server

This project models the moving parts of an epoll-based static web server and proves what they promise.
Each protocol is a step system whose theorems hold in every state of every run; each stateful object of the
program is a class whose methods are proved against the same functions the theorems speak about.

- **Logging** (`LogBuffer`, `AsyncLogger`, `LoggerObject`). Any number of producers, the logger thread, setting
  changes and the destructor interleave at lock granularity, and writes may fail. Accepted bytes are conserved in
  buffer-lock order, a cycle of the logger thread drains what was accepted before it, every schedule of a shutdown ends
  with everything drained, and the queues stay densely packed. The file receives all of it exactly when no step of the
  run drains a buffer to a closed file or with a failing write.
- **Reading requests** (`SocketInput`, `HttpRequest`, `HttpWire`, `RequestAnalyser`). The input stream is modelled
  at the level of the get area and of single `recv` results; a byte is the character with that code. Parsing
  inverts the CRLF wire form, and does not depend on how bytes arrived except through `readsome`, for which the
  exact condition on the received pieces is given. Which bytes are accepted as a request line, how each head ends and
  which bytes make a call throw is stated for all bytes.
- **Writing responses** (`SocketOutput`, `HttpResponse`, `Responsor`). What any calls to `send` leave on the wire, the
  printed bytes, the copy loop with its padding, and clients that split any run of responses back.
- **A connection** (`Connection`). The per-connection loop, pipelining, and the end-to-end theorem from the wire
  form of requests to the replies the client reads.
- **Redis pool** (`RedisPool`, `PoolObject`). Leases, counts and locks for any number of threads, and balance.
- **Cache-aside access** (`CacheAside`). The cached accessor against the plain one, for any number of workers on one
  store.
- **Dispatch** (`Dispatcher`). The move-to-tail worker list as a fair scheduler.
- **Event table** (`EventTable`, `EpollObject`). The table against the kernel's interest set.

Calls into the kernel, Redis and the file system are nondeterministic steps or parameters: what each `recv`
delivers, how much each `send` takes, what each read of a file yields, whether a write, a lookup or a store works.

Where the code does less than one might expect, the code is kept and the exact condition is proved:

- `readsome` never refills the get area, so a body that does not come in the same piece as the last byte of its head
  makes the analyser loop for ever (`HttpWire.ParseInvertsWire`, `Connection.SplitBodyHangs`), and a connection answers
  exactly the messages before the first such body (`Connection.Pipelining`).
- A chunk that starts with byte 0xFF reads as end of file (`SocketInput.ReachableIsEverything`).
- A header line whose first colon is its last character, and a Content-Length that starts with no numeral in range,
  throw, and nothing else does (`HttpWire.ThrowsExactly`, `HttpWire.HeadThrows`, `Decimal.StoulThrows`).
- `flush` hands every `send` the buffer from its start, so bytes are repeated unless its first call takes everything or
  nothing (`SocketOutput.FlushIsFaithful`; for any writes and flushes `SocketOutput.OutputIsFaithful`).
- A page is sent for HEAD and for CONNECT too, so a client that frames replies by its methods loses its place exactly
  when such a page is not empty or a tunnel opens before its last message (`HttpResponse.ClientKeepsStep`,
  `Connection.EndToEnd`).
- A response body that has already failed when its copy loop starts is filled from the scratch block; in `response`
  this needs a `seekg` to the beginning that fails after `tellg` at the end worked
  (`HttpResponse.PaddingIsExact`). A body that goes silent stalls the response, and the connection with it
  (`HttpResponse.CopyBodyClosedForm`, `Connection.Handle`).
- Records drained while the log file is not open are dropped, and a failed write closes the file, since the log is
  reopened under an empty name (`AsyncLogger.FileHoldsHistory`).
- With the largest reference limit the pool's scan starts from a wrapped zero
  (`PoolObject.RedisConnectionPool.GetOneConnection`).
- Clearing the pool while leases are out makes its counts understate them (`RedisPool.ClearLosesCounts`).

## Model

| member | source | states |
|---|---|---|
| `Decimal.ToDecimal` | src/HttpUtils/HttpResponse.cc:163-165 | the printed length is a non-empty digit string denoting that length |
| `Decimal.StoulOfToDecimal` | src/HttpUtils/HttpRequest.cc:80-83 | a decimal Content-Length reads back as the length, and throws exactly when it does not fit an unsigned long |
| `Decimal.StoulReads` | src/HttpUtils/HttpRequest.cc:80-83 | what any numeral with white space, sign and trailing text reads as, a minus sign wrapping around |
| `Decimal.StoulThrows` | src/HttpUtils/HttpRequest.cc:80-83 | on all text: throws if and only if it starts with no numeral in range |
| `Decimal.CharactersExactly` | src/HttpUtils/HttpRequest.cc:80-83 | white space by character code, digits by the text of all ten |
| `HttpConfig.NamesRoundTrip` | src/HttpUtils/HttpConfig.cc:11-35 | method and version names read back as the method and version they were printed from |
| `HttpConfig.MethodsExactly` | src/HttpUtils/HttpConfig.cc:11-20 | exactly which text names each of the nine methods; every other text is unknown |
| `HttpConfig.VersionsExactly` | src/HttpUtils/HttpConfig.cc:27-33 | exactly which text names each version; every other text is unknown |
| `HttpConfig.DetailsExactly` | src/HttpUtils/HttpConfig.cc:39-51 | the detail of each status code, and none for any other |
| `SocketInput.Peek` | src/HttpUtils/SocketStream.cc:41-48 | the next byte is the first reachable one, and refilling the get area loses and reorders nothing |
| `SocketInput.ReachableIsEverything` | src/HttpUtils/SocketStream.cc:41-48 | all received bytes can be read exactly when no chunk starts with the byte of code 0xFF |
| `SocketInput.AsciiIsReachable` | src/HttpUtils/SocketStream.cc:41-48 | chunks that start with a character below 0x80 can all be read |
| `SocketInput.ReadsAreChunkIndependent` | src/HttpUtils/SocketStream.cc:41-48 | word, line and character reads give the same result and leave the same bytes as on the flat byte sequence |
| `SocketInput.InputStream.Sgetc` | src/HttpUtils/SocketStream.cc:41-48 | the in-place refill is the specified one |
| `SocketInput.InputStream.SkipWhite` | src/HttpUtils/HttpRequest.cc:98-100 | the white-space loop of an extraction, in place |
| `SocketInput.InputStream.ReadToken` | src/HttpUtils/HttpRequest.cc:98-100 | the extraction loop reads exactly the specified word and sets the same state bits |
| `SocketInput.InputStream.Get` | src/HttpUtils/HttpRequest.cc:86 | single-character reads and their state bits |
| `SocketInput.InputStream.ReadLine` | src/HttpUtils/HttpRequest.cc:115 | the getline loop reads exactly the specified line and sets the same state bits |
| `SocketInput.InputStream.ReadAvailable` | src/HttpUtils/HttpRequest.cc:135 | readsome takes from the get area only |
| `HttpRequest.SkipTerminateCH` | src/HttpUtils/HttpRequest.cc:85-89 | only CRLF is accepted, leaving a good stream |
| `HttpRequest.ParseLine` | src/HttpUtils/HttpRequest.cc:95-106 | success consumes bytes and leaves a good stream; a good stream never ends failed without eof |
| `HttpRequest.ReadHeadLine` | src/HttpUtils/HttpRequest.cc:117-121 | exactly a one-character line ends the head, and keys hold no colon |
| `HttpRequest.ParseHead` | src/HttpUtils/HttpRequest.cc:111-125 | changes nothing of the request but its header map, and terminates on every input |
| `HttpRequest.ReadBodyClosedForm` | src/HttpUtils/HttpRequest.cc:127-142 | the body loop delivers the next n bytes exactly when the get area holds them, and otherwise never ends |
| `HttpRequest.BodyLengthExactly` | src/HttpUtils/HttpRequest.cc:80-83 | no Content-Length is length zero, else what stoul reads |
| `HttpRequest.BodyAtEofFails` | src/HttpUtils/HttpRequest.cc:127-142 | an announced body after the input has ended is a body error |
| `HttpRequest.GetOneHttpRequest` | src/HttpUtils/HttpRequest.cc:149-158 | a call on a good stream consumes a byte or reaches eof, and never leaves fail without eof |
| `HttpRequest.FrontIsChunkIndependent` | src/HttpUtils/HttpRequest.cc:95-125 | line and head, outcome and remaining bytes do not depend on how the bytes were split over receives |
| `HttpRequest.FrontHeld` | src/HttpUtils/HttpRequest.cc:95-125 | what the get area holds after the head is the rest of the received piece that brought the last byte consumed |
| `HttpRequest.BodyAgrees` | src/HttpUtils/HttpRequest.cc:127-142 | the body read agrees with the flat bytes if and only if the get area left by the head decides it |
| `HttpRequest.RequestIsChunkIndependent` | src/HttpUtils/HttpRequest.cc:149-158 | a whole call agrees with the flat bytes if and only if the get area decides the body; always, without a body |
| `HttpWire.ParseFrontOn` | src/HttpUtils/HttpRequest.cc:95-125 | the line and head of any well-formed message, followed by anything, parse to their meaning and leave what follows |
| `HttpWire.FrontOfPieces` | src/HttpUtils/HttpRequest.cc:95-125 | the same in any pieces, with what the get area then holds computed from the pieces |
| `HttpWire.ParseInvertsWire` | src/HttpUtils/HttpRequest.cc:80-158 | for any message, tail and pieces: same request and exactly the tail left, if and only if the piece with the head's last byte brings the body; else the call hangs |
| `HttpWire.LateBodyHangs` | src/HttpUtils/HttpRequest.cc:127-142 | a body that comes later hangs the call, whatever follows |
| `HttpWire.HeaderOrderIrrelevant` | src/HttpUtils/HttpRequest.cc:26 | any listing of a header map parses back to that map |
| `HttpWire.RequestRoundTrip` | src/HttpUtils/HttpRequest.cc:80-158 | a request value sent with headers in any order and decimal Content-Length parses back to itself |
| `HttpWire.FlatRoundTrip` | src/HttpUtils/HttpRequest.cc:149-158 | with all bytes received at once every well-formed message parses back, leaving the tail |
| `HttpWire.RequestLineErrors` | src/HttpUtils/HttpRequest.cc:85-106 | each way a request line is cut short or badly ended gives its own error |
| `HttpWire.HeadCutShort` | src/HttpUtils/HttpRequest.cc:115-116 | a head without its blank line is a header error |
| `HttpWire.HeadRefused` | src/HttpUtils/HttpRequest.cc:115-122 | after any good headers a line without a colon is refused, and exactly it is consumed |
| `HttpWire.HeadExactly` | src/HttpUtils/HttpRequest.cc:111-125 | for all bytes: the first line without a colon before its last character decides the head, the lines before it build the map |
| `HttpWire.HeadThrows` | src/HttpUtils/HttpRequest.cc:115-122 | for all bytes: a head throws if and only if a line ends in its first colon and every line before has an earlier colon |
| `HttpWire.LineExactly` | src/HttpUtils/HttpRequest.cc:95-106 | for all bytes: accepted as a request line if and only if three words, each after white space where needed, then CRLF |
| `HttpWire.ThrowsExactly` | src/HttpUtils/HttpRequest.cc:149-158 | for every stream: a call throws if and only if its bytes are a request line followed by a throwing head or a head whose Content-Length throws |
| `RequestAnalyser.SkipTerminate` | src/HttpUtils/HttpRequest.cc:85-89 | the in-place terminator check is the specified one |
| `RequestAnalyser.AnalyseLine` | src/HttpUtils/HttpRequest.cc:95-106 | fills the builder and moves the stream as specified, on every input |
| `RequestAnalyser.SplitHeadLine` | src/HttpUtils/HttpRequest.cc:117-121 | the position scan and blank-skipping loop split a line as specified |
| `RequestAnalyser.AnalyseHead` | src/HttpUtils/HttpRequest.cc:111-125 | the header loop builds the specified map, on every input |
| `RequestAnalyser.AnalyseBody` | src/HttpUtils/HttpRequest.cc:127-142 | the body loop, including the round that repeats for ever |
| `RequestAnalyser.Analyse` | src/HttpUtils/HttpRequest.cc:149-158 | status, request and stream of a whole call are the specified ones |
| `SocketOutput.Flush` | src/HttpUtils/SocketStream.cc:14-24 | bytes put on the wire and bytes left account for the put area's length |
| `SocketOutput.FlushIsFaithful` | src/HttpUtils/SocketStream.cc:14-24 | for every size: wire bytes then kept bytes are the area, whatever its bytes, if and only if the first send takes all or nothing; incomplete flushes included |
| `SocketOutput.TextsAsBlocks` | src/HttpUtils/SocketStream.cc:14-33 | texts written and flushed are sent as full buffers and remainders, for any send results |
| `SocketOutput.WholeSendsSuffice` | src/HttpUtils/SocketStream.cc:14-38 | after flushed texts and an unflushed last one: wire then buffer is a prefix of them, all of it unless a flush failed, if each flush has its first send take it all |
| `SocketOutput.OutputIsFaithful` | src/HttpUtils/SocketStream.cc:14-38 | for texts of any lengths, the last one unflushed: wire then buffer is a prefix of what was written, whatever it says, if and only if the sends are whole |
| `SocketOutput.CallsAsSegments` | src/HttpUtils/SocketStream.cc:26-38 | any calls of write and flush come to texts that are flushed and a last one that is not |
| `SocketOutput.CallsAreFaithful` | src/HttpUtils/SocketStream.cc:14-38 | across any calls of write and flush, overflows included: wire then buffer is everything written, unless a flush failed, with whole sends |
| `SocketOutput.SendLoop` | src/HttpUtils/SocketStream.cc:17-20 | the send loop computes the specified flush for any send results |
| `SocketOutput.OutputStream.FlushBuffer` | src/HttpUtils/SocketStream.cc:14-24 | wire, buffer and failure after a flush are the specified ones for any send results |
| `SocketOutput.OutputStream.PutByte` | src/HttpUtils/SocketStream.cc:26-33 | one byte, through overflow too, is the specified put for any send results |
| `SocketOutput.OutputStream.Write` | src/HttpUtils/SocketStream.cc:26-33 | the loop writes as specified for any send results; nothing on a bad stream |
| `SocketOutput.OutputStream.Sync` | src/HttpUtils/SocketStream.cc:35-38 | a sync is the specified flush, and nothing on a bad stream |
| `SocketOutput.OutputStream.Destruct` | src/HttpUtils/SocketStream.cc:11 | the destructor flushes once more, whatever the state |
| `HttpResponse.CopyBodyClosedForm` | src/HttpUtils/HttpResponse.cc:127-149 | the bytes read, cut at the length or zero-padded to it, with the right error; stalls exactly when the stream goes silent, and with what |
| `HttpResponse.CopyBodyLength` | src/HttpUtils/HttpResponse.cc:136-147 | unless it stalls, exactly Content-Length bytes are written |
| `HttpResponse.FailedOnEntry` | src/HttpUtils/HttpResponse.cc:138-145 | what is written and reported for a body that failed before the loop |
| `HttpResponse.PaddingIsExact` | src/HttpUtils/HttpResponse.cc:132-147 | bytes read then zeros, whatever the scratch block held, if and only if the body has not failed on entry |
| `HttpResponse.SplitReplyOn` | src/HttpUtils/HttpResponse.cc:107-125 | one printed response followed by anything reads back as its status, headers and body, leaving the rest |
| `HttpResponse.RepliesSplitBack` | src/HttpUtils/HttpResponse.cc:107-176 | any run of framed responses splits back into exactly those responses, in order |
| `HttpResponse.SplitIsUnique` | src/HttpUtils/HttpResponse.cc:107-176 | two runs with the same bytes carry the same replies |
| `HttpResponse.ClientKeepsStep` | src/HttpUtils/HttpResponse.cc:107-176 | a client framing by its methods finds exactly its replies and is left with what follows, if and only if no HEAD or tunnel got a page and no tunnel opened early |
| `HttpResponse.CutReply` | src/HttpUtils/HttpResponse.cc:107-176 | of a response that is to have a body, any proper part, and all of one that stalled, reads as nothing |
| `Responsor.Respond` | src/HttpUtils/HttpResponse.cc:64-105 | which status, version and page each request gets from what the accessor gives for the page and the error page |
| `Responsor.RespondFromFiles` | src/HttpUtils/HttpResponse.cc:83-104 | from files: the routed file, and 500 exactly when it is missing or a read of it aborts |
| `Responsor.RepliesExactly` | src/HttpUtils/HttpResponse.cc:107-115 | code and detail, letter by letter, of every status the server sends |
| `Responsor.CodesExactly` | src/HttpUtils/HttpResponse.cc:111-113 | every status code the server sends, as printed |
| `Responsor.ResponseExactly` | src/HttpUtils/HttpResponse.cc:107-176 | the bytes of every response: status line, the one header, blank line, page |
| `Responsor.DefaultPageExactly` | src/HttpUtils/Router.cc:41-51 | the page sent when there is no error page |
| `Responsor.AnswersAreFramed` | src/HttpUtils/HttpResponse.cc:163-165 | every answer carries its own length, however badly its page reads, unless the page goes silent |
| `Responsor.Fetch` | src/HttpUtils/HttpResponse.cc:137-139 | the read of one copy round and what it leaves in the scratch block |
| `Responsor.CopyRound` | src/HttpUtils/HttpResponse.cc:136-147 | one round of the copy loop is one unfolding of the specification, and makes progress |
| `Responsor.GenResponseBody` | src/HttpUtils/HttpResponse.cc:127-149 | the loop writes exactly the specified text, and reports the specified status or a failed output |
| `Responsor.GenResponseHead` | src/HttpUtils/HttpResponse.cc:117-125 | every header once, in some order, up to a failed output |
| `Responsor.WriteResponse` | src/HttpUtils/HttpResponse.cc:152-176 | the output is left as by writing the exact bytes of the response and flushing, for any send results; the error reported in each case; the path without a length; the stalled body |
| `Connection.LoopTerminates` | src/IOEventHandler.cc:30-40 | at most one round per byte and one more; every input ends in eof, an exception or an endless body read |
| `Connection.LoopIsChunkIndependent` | src/IOEventHandler.cc:30-40 | requests answered and ending are those of the flat bytes if and only if the get area decides every body |
| `Connection.Pipelining` | src/IOEventHandler.cc:30-40 | of well-formed messages back to back in any pieces, exactly those before the first late body are answered, in order; the loop is stuck on that one or ends |
| `Connection.SplitBodyHangs` | src/IOEventHandler.cc:30-40 | for every message with a body: head in one piece and body in the next hangs |
| `Connection.NoBodiesToArrive` | src/IOEventHandler.cc:30-40 | messages without bodies may arrive in any pieces |
| `Connection.OneReceiveBringsAll` | src/IOEventHandler.cc:30-40 | messages received at once always have their bodies |
| `Connection.OneReceiveEach` | src/IOEventHandler.cc:30-40 | so do messages received one by one |
| `Connection.OneByOneIsServed` | src/IOEventHandler.cc:30-40 | well-formed messages with known methods, one per receive, are all answered and the loop ends: all their bytes are reachable |
| `Connection.RefusedIsSkipped` | src/IOEventHandler.cc:30-40 | a refused request does not end the connection: everything behind its bad line is answered |
| `Connection.EndToEnd` | src/IOEventHandler.cc:30-40 | of any part of what is sent, a client reading by its methods finds its first replies, in order, if and only if they keep it in step, and the next one incomplete; broken and silent pages included |
| `Connection.SendAnswer` | src/IOEventHandler.cc:36-37 | the response is written and flushed as specified, for any page reads and send results |
| `Connection.AnswerRequest` | src/IOEventHandler.cc:34-38 | the same from what the accessor gives, including an access that never returns |
| `Connection.OutputOneMore` | src/IOEventHandler.cc:30-40 | the output for one more request is its text written, and flushed unless its answer never ends |
| `Connection.Handle` | src/IOEventHandler.cc:16-47 | the loop answers the specified requests and leaves the output as by sending exactly their responses, for any send results, up to an answer that never ends |
| `Connection.ServeClient` | src/IOEventHandler.cc:16-47 | run from received pieces to wire bytes with whole sends: the first replies, all of them unless a send failed, if and only if the methods keep step; the next one incomplete |
| `LogBuffer.Buffer.SetLength` | src/Log/Buffer.hpp:38-42 | the length is capped at the capacity |
| `LogBuffer.Buffer.Append` | src/Log/Buffer.hpp:50-56 | contents grow by exactly the part that fits |
| `LogBuffer.Buffer.Merge` | src/Log/AsyncLogger.cc:49-53 | a record is merged whole if and only if it fits |
| `LogBuffer.LogStream.Write` | src/Log/LogStream.cc:8-24 | characters up to the buffer size are kept, the rest dropped |
| `LogBuffer.LogStream.Close` | src/Log/LogStream.cc:12-15 | the record is the first min(n, 4096) characters ever written |
| `AsyncLogger.AppendKeepsBytes` | src/Log/AsyncLogger.cc:126-137 | an append adds exactly the record behind all queued bytes |
| `AsyncLogger.TakeKeepsBytes` | src/Log/AsyncLogger.cc:29-35 | the logger thread's take reorders and loses nothing |
| `AsyncLogger.AppendKeepsDense` | src/Log/AsyncLogger.cc:44-53 | packing keeps neighbours above one capacity together, across both queues |
| `AsyncLogger.SpillsExactly` | src/Log/AsyncLogger.cc:44-53 | current is moved away if and only if it has reached the setting and its last buffer has no room |
| `AsyncLogger.SpillsWhole` | src/Log/AsyncLogger.cc:108-137 | with the setting k, in every state of every run alternate holds a multiple of k buffers and current at most k |
| `AsyncLogger.StepKeepsInv` | src/Log/AsyncLogger.cc:23-137 | every step of every thread keeps the invariant |
| `AsyncLogger.Conservation` | src/Log/AsyncLogger.cc:23-53 | drained, local, alternate and current bytes are all accepted records in lock order, in every state of every run |
| `AsyncLogger.AcceptedExactly` | src/Log/AsyncLogger.cc:126-137 | the accepted history is exactly the records producers checked in, whole, in the order of their appends |
| `AsyncLogger.FileHoldsHistory` | src/Log/AsyncLogger.cc:61-75 | the same of the file's bytes if and only if no step of the run drained a non-empty buffer to a closed file or with a write that failed early |
| `AsyncLogger.OpenLogLosesNothing` | src/Log/AsyncLogger.cc:23-75 | with the file open from the start or opened first, and no failed write, file and queues hold the whole history |
| `AsyncLogger.ClosedLogDrops` | src/Log/AsyncLogger.cc:36-40 | from any fresh logger with a closed file there is a run that loses a record |
| `AsyncLogger.ClosedTakesNothing` | src/Log/AsyncLogger.cc:61-63 | a closed file takes nothing until it is opened again |
| `AsyncLogger.FaultEndsLog` | src/Log/AsyncLogger.cc:66-71 | a failed write is the last the file takes anything of until it is opened again |
| `AsyncLogger.ShutdownIsComplete` | src/Log/AsyncLogger.cc:77-91 | after the destructor everything accepted is drained, each byte once, and in the file if and only if no step lost any |
| `AsyncLogger.ShutdownCanFinish` | src/Log/AsyncLogger.cc:77-91 | from every reachable state the destructor can end, in a counted number of steps |
| `AsyncLogger.ShutdownIsBounded` | src/Log/AsyncLogger.cc:23-91 | once stopped, every schedule is bounded by the work left, whatever settings change |
| `AsyncLogger.ShutdownFinishes` | src/Log/AsyncLogger.cc:77-91 | every schedule of a shutdown ends: no deadlock, and a run that cannot go on has the destructor over and everything drained |
| `AsyncLogger.NoThreadWaits` | src/Log/AsyncLogger.cc:23-137 | until the destructor takes the buffer lock, every thread can take its next step |
| `AsyncLogger.LocksExclude` | src/Log/AsyncLogger.cc:23-137 | who holds the buffer or the file lock keeps every other thread from it; a destroyed logger does nothing more |
| `AsyncLogger.StopRefuses` | src/Log/AsyncLogger.cc:93-127 | once stopped no new record is checked in |
| `AsyncLogger.DenseHoldsBytes` | src/Log/AsyncLogger.cc:49-53 | n dense buffers hold at least floor(n/2)*4097 bytes |
| `AsyncLogger.QueuesAreDense` | src/Log/AsyncLogger.cc:44-53 | so do the queues in every reachable state, whatever the overflow setting does |
| `AsyncLogger.CurrentIsBounded` | src/Log/AsyncLogger.cc:108-135 | current never exceeds the largest overflow setting used |
| `AsyncLogger.WakeEmptiesQueues` | src/Log/AsyncLogger.cc:26-36 | what a timeout and a notified wake-up leave in the queues |
| `AsyncLogger.CycleDrains` | src/Log/AsyncLogger.cc:26-41 | after a whole cycle, interleaved with any other steps: the queues hold what current held at a notified wake-up, or nothing, then the records appended since; all accepted before is drained |
| `AsyncLogger.TurnRuns` | src/Log/AsyncLogger.cc:23-41 | a turn of the logger thread can always run, and drains every queued buffer in order |
| `LoggerObject.Logger.SetOverflowSize` | src/Log/AsyncLogger.cc:108-112 | zero is refused, anything else set |
| `LoggerObject.Logger.AppendRecord` | src/Log/AsyncLogger.cc:126-137 | refuses when stopped; else the protocol's append, notifying exactly when alternate is non-empty |
| `LoggerObject.MergeIntoLast` | src/Log/AsyncLogger.cc:49-53 | the merge into the last buffer object gives the protocol's queue |
| `LoggerObject.CloseRecord` | src/Log/LogStream.cc:12-15 | a closed stream's record is one the protocol's producers may append |
| `LoggerObject.Logger.Flush2LogFile` | src/Log/AsyncLogger.cc:61-75 | all buffers in order while the file is open, with the error code, and closed by a failed write |
| `LoggerObject.Logger.Turn` | src/Log/AsyncLogger.cc:26-40 | a turn of the logger thread files what it took as specified, without loss if the file stays open |
| `LoggerObject.Logger.Destruct` | src/Log/AsyncLogger.cc:77-91 | the destructor files what the protocol's last step drains, in order |
| `RedisPool.TakeableUnlessFull` | src/Cache/RedisCache.cc:165-181 | a take hands out nothing if and only if there is no least loaded connection below the limit |
| `RedisPool.FullIsAllLeased` | src/Cache/RedisCache.cc:165-181 | a take finds nothing exactly when leases equal connections times the limit, and a connection exactly when they are fewer |
| `RedisPool.StepKeepsInv` | src/Cache/RedisCache.cc:144-214 | every step keeps the invariant; every step but clear keeps the counts exact |
| `RedisPool.LeaseAndLockSafety` | src/Cache/RedisCache.cc:54-99 | in all runs: counts bounded, one holder per lock, holders hold leases and can release |
| `RedisPool.CountsAreLeases` | src/Cache/RedisCache.cc:144-187 | in runs without clear: counts are the leases, sum to them, and decide when a take fails |
| `RedisPool.ClearLosesCounts` | src/Cache/RedisCache.cc:159-163 | clear keeps the counts exact if and only if no lease is out |
| `RedisPool.CommandRuns` | src/Cache/RedisCache.cc:54-79 | take, lock, unlock and return can always run on a free connection and leave everything as it was |
| `RedisPool.GivingUpRuns` | src/Cache/RedisCache.cc:59-61 | so do take, giving up and return; the lock can be had exactly when it is free |
| `RedisPool.TakesAreBalanced` | src/Cache/RedisCache.cc:165-181 | after k takes every count is floor(k/n) or ceil(k/n), and a further take succeeds if and only if k is below n times the limit |
| `PoolObject.RedisConnectionPool.PushConnection` | src/Cache/RedisCache.cc:144-152 | a new connection is added with count zero, or refused with the error of the first reason that holds |
| `PoolObject.RedisConnectionPool.Scan` | src/Cache/RedisCache.cc:169-176 | the scan finds a least count, from the start value unsigned addition gives |
| `PoolObject.RedisConnectionPool.GetOneConnection` | src/Cache/RedisCache.cc:165-181 | least loaded below the limit or null exactly when all are full; and what every call does at the wrapped limit |
| `PoolObject.RedisConnectionPool.ReturnConnection` | src/Cache/RedisCache.cc:183-187 | one reference less, never below zero, unknown connections ignored |
| `PoolObject.RedisConnectionPool.Clear` | src/Cache/RedisCache.cc:159-163 | an empty table |
| `PoolObject.TakeRefines` | src/Cache/RedisCache.cc:165-181 | the object's take is a take of the protocol |
| `PoolObject.ReturnAndPushRefine` | src/Cache/RedisCache.cc:144-187 | so are its return and push |
| `PoolObject.PushAndClearAreSteps` | src/Cache/RedisCache.cc:144-163 | push is the protocol's, refused exactly when it is not enabled; so is clear |
| `PoolObject.TakeIsStep` | src/Cache/RedisCache.cc:165-181 | so is a take, with and without success |
| `PoolObject.ReturnIsStep` | src/Cache/RedisCache.cc:183-187 | so is a return |
| `CacheAside.AccessAgrees` | src/HttpUtils/ResourceAccessor.cc:17-46 | against a coherent store one access equals file access if and only if its copy, if any, comes to its end; coherence is kept |
| `CacheAside.CopyExactly` | src/HttpUtils/ResourceAccessor.cc:34-39 | how a copy ends, by what its reads deliver: whole, or broken by a read that fails before the last byte |
| `CacheAside.MissExactly` | src/HttpUtils/ResourceAccessor.cc:28-42 | result and store after a miss, by the lengths of path and file and what the reads deliver |
| `CacheAside.HitExactly` | src/HttpUtils/ResourceAccessor.cc:25-27 | a hit gives what is stored |
| `CacheAside.EvictedIsMissed` | src/HttpUtils/ResourceAccessor.cc:25-27 | an entry the cache forgot is missed, the others are kept |
| `CacheAside.MissWarmsCache` | src/HttpUtils/ResourceAccessor.cc:33-41 | a stored miss is served later without the file |
| `CacheAside.StaleEntryShows` | src/HttpUtils/ResourceAccessor.cc:25-27 | coherence is necessary and sufficient for agreement |
| `CacheAside.StepKeepsInv` | src/HttpUtils/ResourceAccessor.cc:17-61 | every lookup, open, read, store and eviction keeps store, copies and finished accesses sound |
| `CacheAside.CacheIsTransparent` | src/HttpUtils/ResourceAccessor.cc:17-61 | in every interleaving of any number of workers: each finished access equals file access if and only if no read of it failed |
| `CacheAside.WorkersGoOn` | src/HttpUtils/ResourceAccessor.cc:24-42 | in every reachable state each worker has exactly one kind of next step |
| `CacheAside.AccessRuns` | src/HttpUtils/ResourceAccessor.cc:17-46 | an undisturbed access of the protocol is the access of the object |
| `CacheAside.CachedResourceAccessor.Copy` | src/HttpUtils/ResourceAccessor.cc:34-39 | the copy loop yields the whole file, the failure, or the round that repeats for ever |
| `CacheAside.CachedResourceAccessor.Access` | src/HttpUtils/ResourceAccessor.cc:17-46 | result and store of the object are the specified ones, with and without a cache |
| `Dispatcher.FirstAvailable` | src/ListenEventHandler.cc:28-31 | the first available position, or the end |
| `Dispatcher.AssignsExactly` | src/ListenEventHandler.cc:27-38 | a client is assigned if and only if it can be added and a listed worker is available; which worker, and the list afterwards |
| `Dispatcher.NoneTurnedAway` | src/ListenEventHandler.cc:22-43 | over any rounds, as many clients are assigned as could be |
| `Dispatcher.RunKeepsWorkers` | src/ListenEventHandler.cc:37-38 | the list stays a permutation of the workers |
| `Dispatcher.LeastRecentlyAssigned` | src/ListenEventHandler.cc:27-38 | after any rounds the choice is the available worker assigned longest ago |
| `Dispatcher.ChosenWithin` | src/ListenEventHandler.cc:27-38 | a worker available throughout at position p is chosen within p+1 assignments |
| `Dispatcher.NoStarvation` | src/ListenEventHandler.cc:27-38 | among any n assignments in a row every worker available throughout occurs |
| `Dispatcher.ListenEventHandler.FindWorker` | src/ListenEventHandler.cc:28-31 | the scan loop finds the first available worker |
| `Dispatcher.ListenEventHandler.Handle` | src/ListenEventHandler.cc:15-43 | the accept loop assigns and rotates as specified, and as many clients as can be served |
| `EventTable.LookupIsComplete` | src/Epoll.cc:84-92 | a look-up finds every descriptor the kernel reported, each as an event that names its worker |
| `EventTable.StepKeepsInv` | src/Epoll.cc:22-96 | every step of either thread keeps the invariant |
| `EventTable.TableMirrorsKernel` | src/Epoll.cc:22-59 | table and interest set agree outside the lock, within maxFDS, one event per descriptor, every batched event names its worker |
| `EventTable.NothingReportedIsSkipped` | src/Epoll.cc:85-91 | in no run is a reported descriptor skipped |
| `EventTable.NothingLeaks` | src/Epoll.cc:22-59 | with both threads idle the live events are exactly those in the table, in every run |
| `EventTable.LifeRuns` | src/Epoll.cc:22-96 | a connection can always be accepted, added, reported, deleted and released, which leaves everything as it was |
| `EventTable.RefusalRuns` | src/Epoll.cc:28-36 | without room, or when epoll_ctl fails, it is dropped and leaves everything as it was |
| `EventTable.NoDeadlock` | src/Epoll.cc:22-96 | neither thread waits but for the lock, and who holds the lock can go on |
| `EpollObject.Epoll.AddEvent` | src/Epoll.cc:22-38 | map and kernel set change together or not at all, with the first error that applies |
| `EpollObject.Epoll.DelEvent` | src/Epoll.cc:44-59 | the descriptor is in neither afterwards, with the right error; and the call is the protocol's delete |
| `EpollObject.Epoll.Collect` | src/Epoll.cc:84-92 | the vector holds the protocol's found events in order, each with its response |
| `EpollObject.Epoll.EpollWait` | src/Epoll.cc:74-96 | its errors, and the batch of the protocol's look-up |
| `EpollObject.AddToWorker` | src/Worker.cc:26-34 | an event in the table always names its worker, one that was not added does not; and the call is the protocol's add |

## Left out

- Server configuration, start, stop and clean, and the program's entry point: wiring without hard properties.
- Router tables and resource classes: kept as abstract maps of static routes and error pages.
- The CGI branch of `getResponseFromRequest`: it sets neither status nor body.
- `AsyncLogger.FileHoldsHistory`: a failed write is taken to lose bytes of its own buffer only; what the file stream had itself buffered of earlier writes of the same flush counts as in the file.
- `HttpResponse.ReadReply`: a reply without Content-Length, which a client reads up to the end of the connection, is not read, because every answer carries one; transfer codings are not modelled either.
- `SocketInput.Peek`: the size limit of a single `recv` is left out; a received piece may have any length.
- `Connection.ServeClient`: speaks of the wire before the stream's destructor flushes once more, which changes it only after a failed send.
- `EventTable.TableMirrorsKernel`: an add that fails drops its event and closes the descriptor once; the program closes it twice on that path. One adding thread is assumed, as in the program.
- `LoggerObject.Logger.AppendRecord`: queued buffers are the values of the moved `Buffer` objects; moving a buffer between vectors leaves no alias to model.
- Steps of threads that outlive a destroyed logger, and producers that pass the running check and append after its destruction: use of a destroyed object.
- Scratch blocks shared between threads: each parse and each response uses its own.
- Timestamps and tags of log records, wall-clock time, thread identifiers.
- Initialisation of a Redis connection, its password and timeouts: a connection is one that can be leased, locked and asked.
