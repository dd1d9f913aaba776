# Verified model of the audio firmware's protocol and data components

The firmware is mostly drivers and glue around a number of hand-written components that have to
get something exactly right. This project models those components in Dafny and proves what they
are for: that alerts ring and fall silent in balance, that no queued alert is stranded, that a
response comes through however the network cuts it, that what one function encodes the other
decodes.

Each component has a specification of its steps on plain values (datatypes and functions), a
class or methods with the loops, arrays, linked nodes and updated fields of the C code that are
proved to do exactly those steps, and lemmas about the specification: invariants over every run,
round trips, exact conditions. `dafny verify dfyconfig.toml` checks all of it.

| component | files |
|---|---|
| alerts: ringing, list, queue and workers | `AlertModel`, `AlertRuns`, `AlertPlays`, `AlertList`, `AlertService`, `AlertQueue` |
| HTTP client reader | `HeaderSplit`, `ReaderModel`, `HttpDownload`, `Transport` |
| HTTP server, sending in chunks | `ChunkedCoding`, `SendModel`, `HttpdSend` |
| HTTP server, receiving heads and bodies | `ReceiveModel`, `ReceiveRuns`, `RequestRuns`, `HttpdReceive` |
| UTF-8 codec | `Utf8Spec`, `Utf8`, `Utf8Canonical` |
| URI parser | `UriModel`, `UriRoundTrip`, `UriQuery` |
| header list and Host header | `HeaderMap`, `ReqList`, `RequestHost` |
| MQTT delivery of large messages | `MqttMessage`, `MqttDeliver` |
| alarms | `AlarmModel`, `AlarmText`, `AlarmPolling` |
| touch filter | `TouchFilter` |
| form encoding | `FormCodec` |
| tag escaping | `EscapeModel`, `EscapeTag` |
| WebSocket framing | `WebSocket` |

`Options` and `Bytes` hold what they share.

## Where the code falls short of the obvious law

The model follows the code. Where a law one would expect does not hold for all inputs, the exact
condition is proved:

- `fill_buffer` puts no NUL behind the bytes it has moved when the read after it fails, so an old
  byte can complete a line the peer never ended. This happens if and only if at least two bytes
  are waiting, none of them NUL and the last one CR, and the old byte behind them is LF
  (`ReaderModel.FailedReadLines`, with an input in `ExampleMakesUpALine`).
- The client looks for the ends of lines with strstr, so a response head is read as it is if it
  holds no NUL (`HeaderSplit.NoNulSplit`); with one, the lines before the NUL are all that is found
  and the head never ends (`HeaderSplit.NulStops`, `HttpDownload.Reader.DownloadWithNul`).
- `httpdFlushSendBuffer` does not look at the result of the `httpdSend` of a chunk's CRLF; the
  chunk is well formed if and only if there was room (`SendModel.FlushNeedsRoom`, with
  `ExampleNoRoom`).
- The search for the end of a head stops at a NUL, so a head is parsed if and only if no NUL
  stands before its first blank line (`ReceiveModel.ParsedIffNoNul`, with `ExampleNulInHead`).
- A CGI can be done before its body is. When the response is chunked, what is left of the body is
  then read as the next head, so the body is handed over whole if and only if no call before the
  last hand-over ends the request (`RequestRuns.HandedOverIff`, with `ExampleDoneEarly`). When it is
  not, the rest is handed to the CGI as well, until the connection, marked by then, is closed.
- A CGI can have more to send, and is then called again each time the data has been sent. A request
  is served, with its body handed over and the connection ready for the next one, if and only if
  the response is chunked, no call before the last hand-over ends it, and one at or behind it does,
  before the next request begins (`RequestRuns.ServedIffRegular`, with `ExampleContinued`).
- `deliver_publish` takes a first read that ends inside the header for one without payload and
  then delivers the rest of the header as data; the payload is delivered if and only if the first
  read holds the header (`MqttDeliver.DeliveredIffHeaderRead`, with `ExampleHeaderCut`).
- Alarms: polls serve every alarm of a period if and only if they are at most 2 s apart, or 1 s for
  a period of one second (`AlarmModel.OnTimeIffGapsWithinReach`); an alarm met late is silent for
  good, so with polls 2 s apart a period of one second runs dry.
- A listed alert can be active while nothing rings; exactly two steps lead there
  (`AlertRuns.RingsUnlessMuted`, with `ExampleMuted`).
- `esp_alarm_add` takes a text of exactly 42 characters and copies it into a buffer of that size, so
  the copy is closed with a NUL if and only if the text is shorter (`AlarmText.CopyEndsIff`). What
  the numbers are is claimed for shorter texts (`AlarmText.NoNegativeField`): there none is negative,
  and the fields of `AlarmPolling` are natural numbers for that reason.
- `modify_string` counts a pattern as it is written and replaces it in either case; the block it
  asks for is large enough if and only if the pattern does not occur in the other case
  (`EscapeModel.RightSizeIff`, with `ExampleTooSmall`). `escape_tag` gives it no letters.
- `ws_esc` keeps 16 bits of the length, so a payload survives if and only if it is shorter than
  65536 octets (`WebSocket.RoundTripIff`, with `ExampleTooLong`).
- `URLEncode` puts its NUL in the cell behind the given size if and only if the encoding of some
  first characters, the last of them unescaped, is exactly that long (`FormCodec.WritesPastIff`,
  with `ExampleWritesPast`); when it is whole is `FormCodec.WholeIffFits`.
- `parse_uri` finds a query if and only if it follows a port that follows a user, with no path
  before it, and a user if and only if it has a password (`UriQuery.QueryComesBackIff` and
  `UserNeedsPassword`, with an input each).
- `getu8c` takes overlong forms, and takes the bytes 0xfe and 0xff for continuation bytes; a
  string comes back from decoding and encoding if and only if it is free of both and of skipped
  bytes (`Utf8Canonical.ComesBackIffCanonical`, with two inputs).

## Model

| member | source | states |
|---|---|---|
| `AlertModel.NextActiveIsCyclicSuccessor` | components/DuerAppService/duerapp_alert.c:76-96 | the search returns the active alert nearest ahead in cyclic list order, and nothing exactly when no alert is active |
| `AlertModel.NewLoopCount` | components/DuerAppService/duerapp_alert.c:400-406 | the loop count of a new alert is from 1 to 255, and the payload's number when that is in this range |
| `AlertModel.DefaultLoops` | components/DuerAppService/duerapp_alert.c:400-406 | ten loops without a count or with one whose low 8 bits are 0, else these 8 bits |
| `AlertList.List.Push` | components/DuerAppService/duerapp_alert.c:205-224 | a new node behind the last one; the others stay |
| `AlertList.List.Remove` | components/DuerAppService/duerapp_alert.c:226-242 | the node is taken out of the chain and its alert out of the list; false, with nothing changed, when it is not listed |
| `AlertService.Service.FindActive` | components/DuerAppService/duerapp_alert.c:76-96 | the node found on the linked list is the one at the successor index |
| `AlertService.Service.OnStop` | components/DuerAppService/duerapp_alert.c:103-118 | the handler on the linked list does the step of the model: every active alert is silenced and reported stopped once, in list order |
| `AlertService.Service.OnFinish` | components/DuerAppService/duerapp_alert.c:120-152 | the handler does the step of the model: next tone, or one loop less and the next active alert |
| `AlertService.Service.OnError` | components/DuerAppService/duerapp_alert.c:154-187 | the handler does the step of the model, for the built-in tune and for other audio |
| `AlertService.Service.OnTimer` | components/DuerAppService/duerapp_alert.c:424-454 | the handler does the step of the model, also for an alert that is not pushed yet |
| `AlertService.Service.PushAlert` | components/DuerAppService/duerapp_alert.c:562-567 | the worker's push and report on the linked list do the step of the model |
| `AlertService.Service.FindTarget` | components/DuerAppService/duerapp_alert.c:641-653 | the node found is the first one with the token |
| `AlertService.Service.OnDelete` | components/DuerAppService/duerapp_alert.c:664-691 | the handler does the step of the model: the ringing pointer is dropped with its node, an active alert is reported stopped |
| `AlertService.DeactivateStep` | components/DuerAppService/duerapp_alert.c:107-113 | one round of the stop loop leaves the outcome of the whole loop as it was, and fewer stops to report |
| `AlertRuns.InitialIsBalanced` | components/DuerAppService/duerapp_alert.c:62-74 | the empty list with nothing ringing satisfies the invariant that every run starts from |
| `AlertRuns.ApplyKeeps` | components/DuerAppService/duerapp_alert.c:103-187 | every step keeps the invariant: shape of the list, counters in range, ringing pointer on a listed active alert, balance of reports |
| `AlertRuns.EveryRunIsBalanced` | components/DuerAppService/duerapp_alert.c:424-454 | over every run of timer, player, push and delete steps: the ringing alert is listed and active, starts minus stops is 1 for an active alert and 0 for any other, and at no moment is a stop reported without a start before it |
| `AlertRuns.StepReports` | components/DuerAppService/duerapp_alert.c:664-691 | each step only appends reports, and never both a start and a stop of an alert |
| `AlertRuns.WorkStep` | components/DuerAppService/duerapp_alert.c:120-152 | a finished play of the ringing alert lowers the plays owed by exactly one; stop, error and delete never raise them; a start grants that alert's loops times tones |
| `AlertRuns.RingingIsBounded` | components/DuerAppService/duerapp_alert.c:120-187 | in every run the finished plays are at most the plays granted by the starts |
| `AlertRuns.RingsUnlessMuted` | components/DuerAppService/duerapp_alert.c:120-187 | a step leaves a listed active alert without a ringing one if and only if it deletes the ringing alert beside another active one, or pushes an alert whose timer has fired while nothing rings |
| `AlertRuns.ExampleMuted` | components/DuerAppService/duerapp_alert.c:424-454 | from the start, an alert whose timer fires before it is pushed is listed, active and reported started, with none ringing and no play asked for |
| `AlertRuns.FinishesDrain` | components/DuerAppService/duerapp_alert.c:120-152 | left alone, a list in which one rings is silent after exactly the plays it owes, and rings until then |
| `AlertPlays.TimerPlays` | components/DuerAppService/duerapp_alert.c:424-454 | a timer that fires for a listed alert while none rings: it rings, and after the report of its start exactly one play is asked for, of its tone at hand or the built-in tune; in every other case nothing is played |
| `AlertPlays.RingsWhenDue` | components/DuerAppService/duerapp_alert.c:424-454 | a new alert that is pushed and due while none rings is answered, reported started and played with its first tone, or the built-in tune |
| `AlertPlays.FinishPlaysNextTone` | components/DuerAppService/duerapp_alert.c:126-132 | a finished play with a tone left: exactly the next tone of the same alert is played |
| `AlertPlays.FinishPlaysNextAlert` | components/DuerAppService/duerapp_alert.c:133-150 | the last play of a loop: one loop less, a stop reported after the last one, and then the active alert nearest ahead in cyclic order rings and is played, or none if none is active |
| `AlertPlays.FinishPlaysFirst` | components/DuerAppService/duerapp_alert.c:141-150 | a finished play while none rings: the first active alert rings and is played |
| `AlertPlays.ErrorPlaysTune` | components/DuerAppService/duerapp_alert.c:167-172 | a failed tone: the built-in tune is played instead, and nothing else happens |
| `AlertPlays.ErrorPlaysNextAlert` | components/DuerAppService/duerapp_alert.c:161-183 | a failed built-in tune: the ringing alert falls silent and is reported stopped, and the active alert nearest ahead rings and is played |
| `AlertPlays.OthersDoNotPlay` | components/DuerAppService/duerapp_alert.c:103-118 | creating, pushing, stopping and deleting play nothing |
| `AlertPlays.PushAnswers` | components/DuerAppService/duerapp_alert.c:562-567 | a push puts the alert behind the others and is answered once |
| `AlertPlays.DeleteAnswers` | components/DuerAppService/duerapp_alert.c:664-691 | a delete takes out the first alert with the token; the player is halted exactly if that one rings, a sounding one is reported stopped, and the delete is reported last |
| `AlertPlays.DeleteFails` | components/DuerAppService/duerapp_alert.c:664-691 | a delete of a token that is not listed is reported as failed, and nothing else happens |
| `AlertPlays.StopAnswers` | components/DuerAppService/duerapp_alert.c:103-118 | a stop silences every listed alert and reports each active one once, in list order |
| `AlertQueue.Queue.SetHandler` | components/DuerAppService/duerapp_alert.c:619-636 | the locked part of the handler does the step of the model: push, and a new worker exactly when the queue was empty |
| `AlertQueue.Queue.Take` | components/DuerAppService/duerapp_alert.c:508-517 | a worker's locked part does the step of the model: the first alert, or the end of the worker |
| `AlertQueueModel.EveryInterleaving` | components/DuerAppService/duerapp_alert.c:500-517 | in every interleaving of handlers and workers: a non-empty queue has a worker that has not seen it empty, and the alerts taken and those queued are together the alerts pushed, in order |
| `AlertQueueModel.WorkersProgress` | components/DuerAppService/duerapp_alert.c:500-567 | every worker step lowers a measure, and while an alert is queued or in hand some worker can step |
| `AlertQueueModel.AllEndedAllAnswered` | components/DuerAppService/duerapp_alert.c:500-567 | when all workers have ended, every alert pushed has been answered exactly as often as it was pushed |
| `HttpDownload.Reader.MoveDown` | components/esp-request/esp_request.c:537-548 | the memmove of the buffer is the compaction of the model |
| `HttpDownload.Reader.Fill` | components/esp-request/esp_request.c:534-574 | one refill: what the transport gave is behind the unconsumed bytes and closed by a NUL; after a failed read only the bytes are moved |
| `HttpDownload.Reader.FindCrlf` | components/esp-request/esp_request.c:583 | strstr from the read position, up to the first NUL |
| `HttpDownload.Reader.Line` | components/esp-request/esp_request.c:577-592 | the method does the line step of the model, in place |
| `HttpDownload.Reader.TakeHead` | components/esp-request/esp_request.c:605-652 | the line loop gives exactly the lines of the model |
| `ReaderModel.StrStrFindsFirst` | components/esp-request/esp_request.c:583 | in a buffer with a NUL behind the unconsumed bytes strstr sees exactly what they show: their first CRLF with no NUL before it |
| `ReaderModel.TakeLinesIsSplit` | components/esp-request/esp_request.c:605-652 | the line loop yields exactly the CRLF split of the unconsumed bytes, up to the first empty line or the first NUL |
| `HeaderSplit.SplitContinues` | components/esp-request/esp_request.c:602-653 | splitting goes on after a refill as if the stream had come at once |
| `ReaderModel.FreshBytes` | components/esp-request/esp_request.c:603-608 | after a refill the lines are those of the longer stream, and the head cannot end on a refill that brought nothing, so the body offset is never stale |
| `HttpDownload.Reader.HeadRound` | components/esp-request/esp_request.c:602-661 | the same on the real buffer, with the offset of the body in it |
| `HttpDownload.Reader.Download` | components/esp-request/esp_request.c:593-683 | for every way the transport cuts, ends or fails the stream: the lines are the split of what was received, the callback gets the parts of the body as they are read, and the download ends with exactly the first read that brings nothing, shows that no body is announced, or brings a part that is refused or completes the body |
| `HttpDownload.PartsAreBody` | components/esp-request/esp_request.c:655-681 | the blocks handed on are together the body received |
| `HttpDownload.OnlyTheLastEnds` | components/esp-request/esp_request.c:666-674 | of the blocks handed on none before the last was refused and none before the last completes the length announced |
| `HeaderSplit.NoNulSplit` | components/esp-request/esp_request.c:577-592 | without a NUL before its end, what strstr shows of the head is the plain CRLF split |
| `HeaderSplit.NulStops` | components/esp-request/esp_request.c:577-592 | with a NUL before its end, the head never ends and its lines are those of the bytes before the NUL |
| `HeaderSplit.NulStopsForGood` | components/esp-request/esp_request.c:577-592 | whatever follows such a head, no line is added and it never ends |
| `HttpDownload.SeenIsPrefix` | components/esp-request/esp_request.c:655-681 | what was seen shows the true head and a prefix of the body |
| `HttpDownload.Reader.DownloadWhole` | components/esp-request/esp_request.c:593-683 | a response with a right Content-Length and no NUL in its head comes through unchanged, lines and body, however it is cut into reads |
| `HttpDownload.Reader.DownloadWithNul` | components/esp-request/esp_request.c:593-683 | with a NUL in the head the whole stream is read, the lines are those before the NUL and no body is handed on, however it is cut into reads |
| `ReaderModel.FailedReadLines` | components/esp-request/esp_request.c:561-564 | a failed read makes up a line out of an unfinished one if and only if two bytes are waiting, none of them NUL, the last CR, and the old byte behind them is LF |
| `ReaderModel.ExampleMakesUpALine` | components/esp-request/esp_request.c:561-564 | a stream and buffer for which that happens |
| `HttpdSend.Connection.Send` | components/httpd/httpd.c:372-387 | httpdSend on the buffer does the step of the model and returns its value |
| `HttpdSend.Connection.Flush` | components/httpd/httpd.c:398-448 | httpdFlushSendBuffer with its back-patched header does the step of the model |
| `HttpdSend.Connection.EndHeaders` | components/httpd/httpd.c:270-273 | httpdEndHeaders does the step of the model |
| `HttpdSend.Connection.CgiIsDone` | components/httpd/httpd.c:450-468 | httpdCgiIsDone does the step of the model |
| `ChunkedCoding.SizeOfHeader` | components/httpd/httpd.c:389-411 | the four hexadecimal digits and CRLF are read back as the size |
| `ChunkedCoding.DecodesToData` | components/httpd/httpd.c:398-419 | a recipient (section 4.1 of RFC 7230) gets exactly the data of whole chunks and one last chunk |
| `SendModel.FinishChunkIsChunk` | components/httpd/httpd.c:401-414 | ending the open chunk makes it a well-formed chunk of exactly its bytes |
| `SendModel.BodyDecodes` | components/httpd/httpd.c:372-468 | for every run of sends and flushes ended by the CGI being done: one well-formed body that decodes to exactly the data for which httpdSend returned 1, with one last chunk, and a flush after it sends nothing |
| `SendModel.SentIffRoom` | components/httpd/httpd.c:372-387 | httpdSend returns 1 if and only if the connection is open, there are bytes and they fit behind the header of a chunk to be begun; otherwise nothing changes |
| `SendModel.PlainSends` | components/httpd/httpd.c:372-387 | outside of a chunked body, what is sent is put into the buffer as it is |
| `SendModel.HeadersEnd` | components/httpd/httpd.c:270-273 | after headers that were all accepted httpdEndHeaders puts an empty line behind them |
| `SendModel.BodyStarts` | components/httpd/httpd.c:270-273 | the headers and an empty line stand in front of the chunks |
| `SendModel.ResponseIsWhole` | components/httpd/httpd.c:261-468 | a whole chunked response, from the first header to the CGI being done: what is flushed is the headers, an empty line and a body that decodes to what was accepted; and then the connection is as it was for the next response |
| `SendModel.FlushOutsideBody` | components/httpd/httpd.c:398-448 | outside of a chunked body a flush sends what is in the buffer and nothing else |
| `SendModel.ClosedSendsNothing` | components/httpd/httpd.c:372-400 | a connection that is gone is not written to |
| `SendModel.PlainResponse` | components/httpd/httpd.c:372-448 | without chunking, what is flushed and what is in the buffer are together the bytes accepted, and a flush leaves nothing behind, also when the CGI is done |
| `SendModel.FlushNeedsRoom` | components/httpd/httpd.c:404 | the chunk decodes to its data if and only if there was room for its CRLF |
| `SendModel.ExampleNoRoom` | components/httpd/httpd.c:404 | one accepted httpdSend of 8186 bytes leaves no room, and the chunk does not decode to what was sent |
| `HttpdReceive.Connection.Receive` | components/httpd/httpd.c:763-815 | a callback on the buffers does the byte steps of the model |
| `HttpdReceive.Connection.Continue` | components/httpd/httpd.c:479-530 | httpdContinue does the step of the model: a disconnection when one is marked, else one more call of the CGI and its clean-up when it is done |
| `HttpdReceive.Connection.CleanUp` | components/httpd/httpd.c:450-468 | httpdCgiIsDone does the step of the model: the connection freed after a chunked response, marked for destruction after any other |
| `HttpdReceive.Connection.Disconnect` | components/httpd/httpd.c:838-849 | httpdDisconCb does the step of the model: the CGI is told once if it is still set |
| `HttpdReceive.Connection.TakeHeadByte` | components/httpd/httpd.c:764-794 | one header byte, with the CR put in front of a bare LF and the search for the blank line, does the model's step |
| `HttpdReceive.Connection.TakeBodyByte` | components/httpd/httpd.c:795-815 | one body byte does the model's step: block full or body complete hands the block over |
| `HttpdReceive.Connection.ParseHead` | components/httpd/httpd.c:776-794 | the end of the head sets up the body buffer or answers at once |
| `ReceiveModel.HeadSoFar` | components/httpd/httpd.c:764-774 | before its end, the head held is the normal form of all bytes so far |
| `ReceiveModel.BlankFound` | components/httpd/httpd.c:776 | strstr finds a blank line if and only if one stands there with no NUL before it |
| `ReceiveModel.BlankIffEnds` | components/httpd/httpd.c:776 | on the head held, the search behind an LF succeeds exactly when that byte has completed the first blank line and no NUL stands before it |
| `ReceiveModel.HeadEnds` | components/httpd/httpd.c:776-794 | a head without a NUL is parsed at its first blank line, in normal form |
| `ReceiveModel.ParsedIffNoNul` | components/httpd/httpd.c:776-794 | at the first blank line of the normal form the head is parsed if and only if no NUL stands before it |
| `ReceiveModel.StaysAHead` | components/httpd/httpd.c:776 | with a NUL before its first blank line it never is, whatever follows |
| `ReceiveModel.ExampleNulInHead` | components/httpd/httpd.c:776 | an input of four bytes for which that happens |
| `ReceiveRuns.ReceivedIsAfter` | components/httpd/httpd.c:763-764 | a callback with several bytes is the run of its bytes, so its cuts make no difference |
| `ReceiveRuns.CutIsWhole` | components/httpd/httpd.c:689-694 | the blocks concatenate to the body, and all but the last have the buffer's size |
| `ReceiveRuns.BlocksUntilDone` | components/httpd/httpd.c:795-815 | over every run of bytes and continuations inside a body, as long as no call ends a chunked response: the blocks handed over and those still due are together the blocks of the body |
| `ReceiveRuns.BodyCalls` | components/httpd/httpd.c:795-815 | over the whole body, then, exactly its blocks are handed over, in order, whatever continuations come in between |
| `ReceiveRuns.QuietIff` | components/httpd/httpd.c:804-812 | with no continuation in between, no call ends the request before the last byte of the body if and only if none of the blocks before the last does |
| `ReceiveRuns.LeftIsReadAsHead` | components/httpd/httpd.c:450-463 | a call that ends a chunked response earlier, be it a hand-over or a continuation: what waits in the buffer is dropped and what follows is read as from the next head on |
| `ReceiveRuns.PartOfBodyLost` | components/httpd/httpd.c:450-463 | and fewer bytes are handed over than the body has, whatever follows |
| `ReceiveRuns.UnchunkedHandsAllOver` | components/httpd/httpd.c:804-815 | without chunking every block of the body that arrives before the connection is closed is handed over, whatever the CGI returns; the connection is marked exactly when some call was done |
| `ReceiveRuns.LeftIsHandedOver` | components/httpd/httpd.c:498-502 | data sent on a marked connection asks the platform to disconnect and calls no CGI; the blocks that still arrive before it has are handed over |
| `ReceiveRuns.UnchunkedIsMarked` | components/httpd/httpd.c:464-467 | without chunking the connection never awaits a head again, and is marked for destruction exactly when some call was done |
| `ReceiveRuns.ClosedTellsOnce` | components/httpd/httpd.c:838-849 | when the connection is closed the CGI is told once, with the head it serves, if its last call has not ended the request, and not otherwise |
| `RequestRuns.BufferIsLess` | components/httpd/httpd.c:689-697 | the body buffer is as large as the body or HTTPD_MAX_POST_LEN, whichever is less |
| `RequestRuns.HeadRun` | components/httpd/httpd.c:764-774 | until a head is complete, every run of bytes and continuations only adds to it and calls no CGI |
| `RequestRuns.SentsFinish` | components/httpd/httpd.c:518-522 | behind the last hand-over of a chunked response, continuations hand nothing over and free the connection exactly when one of them finds the CGI done |
| `RequestRuns.HandedOverIff` | components/httpd/httpd.c:795-815 | the body is handed over whole, in its blocks, if and only if the response is not chunked or no call before the last hand-over ends it |
| `RequestRuns.HandedOverAtOnceIff` | components/httpd/httpd.c:795-815 | when no continuation comes before the last byte: if and only if the response is not chunked or no block before the last ends it |
| `RequestRuns.ServedIffRegular` | components/httpd/httpd.c:450-530 | a request gets its hand-overs and leaves the connection ready if and only if the response is chunked, no call before the last hand-over ends it, and one at or behind it does before the next request begins, with the connection still open |
| `RequestRuns.AllServedIff` | components/httpd/httpd.c:450-530 | every request on a connection is served if and only if each is answered like that |
| `RequestRuns.TurnsExist` | components/httpd/httpd.c:763-764 | every run that brings some requests is one turn after the other, each with the bytes of one request |
| `RequestRuns.RequestsInARow` | components/httpd/httpd.c:763-815 | for every sequence of requests and every run of bytes and continuations that brings them, when each is answered like that: each head in normal form, the blocks of each body, in order, and the connection ready again |
| `RequestRuns.ExampleDoneEarly` | components/httpd/httpd.c:804-812 | from a fresh connection, five bytes and a CGI that is done at once with the first of two one-byte blocks: with chunking the second is the start of a head, without it is handed over |
| `RequestRuns.ExampleContinued` | components/httpd/httpd.c:518-522 | from a fresh connection, a request without a body whose CGI is done when it is called again: served by the continuation, and not before |
| `Utf8.GetU8c` | main/utf8.c:16-100 | getu8c returns what the specification reads, and ends at the string's NUL at the latest |
| `Utf8Spec.GetAccounts` | main/utf8.c:60-99 | each read consumes exactly the bytes counted illegal and the length its lead byte announces |
| `Utf8Spec.GetForm` | main/utf8.c:74-91 | a UTF-8 form is read back whole, nothing skipped |
| `Utf8.U8Decode` | main/utf8.c:102-132 | u8decode writes the first n-1 characters at most, a zero, and the count of skipped bytes |
| `Utf8.AllReads` | main/utf8.c:110-129 | when all characters fit, that count is of all bytes skipped in the string |
| `Utf8.PutU8c` | main/utf8.c:140-194 | putu8c writes the form and a NUL if both fit; -1 for negative, -2 for lack of room, with nothing written |
| `Utf8.U8Encode` | main/utf8.c:196-232 | u8encode writes the NUL-terminated forms of the longest prefix that fits, negative characters left out and counted |
| `Utf8Spec.FormIsTable` | main/utf8.c:140-194 | the form of a character is that of the table in section 2 of RFC 2279: lead byte, continuation bytes, and the least length that it fits |
| `Utf8Spec.FormOfSeven` | main/utf8.c:140-194 | a character below 0x80 is its own form |
| `Utf8Spec.NegativesCount` | main/utf8.c:207-224 | what u8encode counts is the number of negative characters among those it has taken |
| `Utf8Spec.FormsGrow` | main/utf8.c:207-224 | the forms of a prefix are no longer than those of a longer one, so the prefix where the loop stops is the longest |
| `Utf8Spec.RoundTrip` | main/utf8.c:16-232 | decoding the encoding of any characters 1 to 0x7fffffff gives them back, nothing illegal (section 2 of RFC 2279) |
| `Utf8.ThereAndBack` | main/utf8.c:102-232 | the same on real buffers: u8encode, then u8decode |
| `Utf8Canonical.ComesBackIffCanonical` | main/utf8.c:16-232 | the other half: a string is the encoding of what it decodes to if and only if it is a run of shortest forms with continuation bytes 0x80 to 0xbf, then the NUL |
| `Utf8Canonical.ExampleOverlong` | main/utf8.c:60-99 | an overlong zero ends the decoding in front of an "A" |
| `Utf8Canonical.ExampleFe` | main/utf8.c:51-55 | the byte 0xfe is read like the continuation byte 0xbe |
| `Utf8Spec.JunkChangesNothing` | main/utf8.c:60-99 | stray bytes and unfinished characters put before, between and behind valid ones change no character and are counted byte for byte |
| `Utf8Spec.PrefixIsUnfinished` | main/utf8.c:79-86 | every proper prefix of a form is such an unfinished character |
| `UriParser.ParseUri` | components/esp-request/uri_parser.c:59-227 | the scanner in the buffer, each round of it moving on, returns what the model parses |
| `UriParser.Switch` | components/esp-request/uri_parser.c:101-195 | the switch of the loop takes the jump of the model's transition table |
| `UriRoundTrip.FlagIff` | components/esp-request/uri_parser.c:101-117 | separators are hidden if and only if a '[' has come and no ']' since |
| `UriRoundTrip.ParsePrint` | components/esp-request/uri_parser.c:59-227 | parsing a printed URI returns exactly its components, path "/" by default, for every scheme, user with password, host with bracketed literals, port, path and fragment without the separators the scanner looks for |
| `UriRoundTrip.ParseRejects` | components/esp-request/uri_parser.c:198-200 | a string is rejected if and only if "://" with something behind it occurs nowhere |
| `UriQuery.QueryComesBackIff` | components/esp-request/uri_parser.c:135-187 | the query of a printed URI comes back as the query if and only if it follows a port that follows a user, with no path before it |
| `UriQuery.QueryStays` | components/esp-request/uri_parser.c:118-187 | elsewhere, without separators of its place, it is text of the path, of the port or of the host |
| `UriQuery.QueryOnlyBehindPort` | components/esp-request/uri_parser.c:170-187 | in every string a query is split off only behind a port that follows a user |
| `UriQuery.UserNeedsPassword` | components/esp-request/uri_parser.c:118-139 | a printed user comes back if and only if it has a password; without one the whole is the host |
| `UriQuery.ExampleQueryInPath` | components/esp-request/uri_parser.c:180-187 | the query of "http://h/p?q" is part of the path |
| `UriQuery.ExampleLoneUser` | components/esp-request/uri_parser.c:118-134 | the user of "http://u@h" is part of the host |
| `ReqList.List.Add` | components/esp-request/req_list.c:54-61 | the new node is linked behind the last one, forward and back |
| `ReqList.List.GetLast` | components/esp-request/req_list.c:62-72 | the last node, or the root of an empty list |
| `ReqList.List.Remove` | components/esp-request/req_list.c:82-103 | the node and its entry are gone, the links of the others agree |
| `ReqList.List.Clear` | components/esp-request/req_list.c:104-112 | ends with an empty list |
| `ReqList.List.SetKey` | components/esp-request/req_list.c:113-155 | on the linked list: the value of the key is replaced in place, or an entry added |
| `ReqList.List.GetKey` | components/esp-request/req_list.c:156-170 | the value of the first entry with the key, in any case |
| `HeaderMap.SetKeepsDistinct` | components/esp-request/req_list.c:113-155 | setting a key keeps the keys pairwise distinct without regard to case |
| `HeaderMap.GetSet` | components/esp-request/req_list.c:113-170 | after a set exactly that key, in any case, has the new value |
| `HeaderMap.SetIsMapUpdate` | components/esp-request/req_list.c:113-155 | the list stands for a map from lower-case keys, and a set is a map update |
| `HeaderMap.GetIsLookup` | components/esp-request/req_list.c:156-170 | a lookup is a lookup in that map |
| `RequestHost.Request.SetHost` | components/esp-request/esp_request.c:386-395 | REQ_SET_HOST on both lists does the step of the model |
| `RequestHost.Request.SetPort` | components/esp-request/esp_request.c:396-404 | REQ_SET_PORT on both lists does the step of the model |
| `HeaderMap.SameKeyIff` | components/esp-request/req_list.c:113-155 | keys are the same if and only if they are the same letter by letter, in any case |
| `HeaderMap.SetKeepsOthers` | components/esp-request/req_list.c:113-155 | a set leaves the other entries as they are, in order, and adds one only for a new key |
| `RequestHost.StepWrites` | components/esp-request/esp_request.c:386-404 | each call writes the option or header it names, the host and port also the Host header once there is a host, and nothing else |
| `RequestHost.SetHostAgrees` | components/esp-request/esp_request.c:386-395 | setting the host makes the Host header right whatever it was |
| `RequestHost.StepAgrees` | components/esp-request/esp_request.c:377-462 | a call keeps the Host header right if and only if it does not write another value over it |
| `RequestHost.RunAgrees` | components/esp-request/esp_request.c:386-404 | after any sequence of calls without a direct Host header, Host is the current host with ":port" when a port is set, and absent without a host |
| `MqttMessage.GetTotalLength` | components/espmqtt/lib/mqtt_msg.c:136-153 | the loop over the remaining length |
| `MqttMessage.QosBits` | components/espmqtt/lib/include/mqtt_msg.h:107 | the QoS is bits 2 and 1 of the flags |
| `MqttMessage.FirstCut` | components/espmqtt/lib/mqtt_msg.c:136-228 | the first n bytes of a PUBLISH packet give its exact length and their part of the payload once they hold the header; before that no payload and at most the length |
| `MqttMessage.WholeMessage` | components/espmqtt/lib/mqtt_msg.c:184-238 | with other bytes behind a whole message its length and its payload are still what is taken |
| `MqttMessage.ReadsVarInt` | components/espmqtt/lib/mqtt_msg.c:141-149 | a complete remaining length is read back; from a part of it the loop takes a smaller one |
| `MqttDeliver.Client.DeliverPublish` | components/espmqtt/mqtt_client.c:465-514 | the events are the first read's payload and then one event a read, numbered by offset, and the bytes counted are those read |
| `MqttDeliver.Client.ReadMore` | components/espmqtt/mqtt_client.c:501-510 | no read asks for more than the message has left |
| `MqttDeliver.Client.ProcessPublish` | components/espmqtt/mqtt_client.c:607-611 | the PUBLISH branch sets the lengths and delivers the events of the message |
| `MqttDeliver.NumberTiles` | components/espmqtt/mqtt_client.c:486-496 | each event starts where the one before it ends, and all announce the same total |
| `MqttDeliver.EventsAccount` | components/espmqtt/mqtt_client.c:486-510 | after every event its offset, its length and the bytes of the message not yet read add up to total_data_len |
| `MqttDeliver.FragmentsAreNext` | components/espmqtt/mqtt_client.c:497-512 | the later pieces are the next bytes of the stream, none beyond the message, and all of it unless a read fails |
| `MqttDeliver.HeaderReadDelivers` | components/espmqtt/mqtt_client.c:474-512 | with the header in the first read: total_data_len is the payload's length and the data is a start of the payload, whatever the reads do |
| `MqttDeliver.DeliveredIffHeaderRead` | components/espmqtt/mqtt_client.c:474-512 | when no read fails: the payload is delivered and the message read to its end if and only if the first read holds the whole header |
| `MqttDeliver.ExampleHeaderCut` | components/espmqtt/mqtt_client.c:474-512 | a first read of three bytes of a message, whose data is a byte of the header and the topic in front of the payload |
| `AlarmPolling.SecondsInAll` | components/AlarmService/alarmparser.c:203-219 | a date of days, hours, minutes and seconds counts 86400, 3600, 60 and 1 second |
| `AlarmPolling.Node.CatchUp` | components/AlarmService/alarmparser.c:250-258 | the loop ends at the least occurrence later than now |
| `AlarmModel.CatchUpEndsIff` | components/AlarmService/alarmparser.c:250-258 | the loop by itself can end if and only if the date is ahead of the clock or the period is positive |
| `AlarmText.RemoveTokens` | components/AlarmService/alarmparser.c:64-87 | minus signs and colons among the first 38 characters become blanks, in place |
| `AlarmText.CopyEndsIff` | components/AlarmService/AlarmService.c:105-135 | the copy of a text that esp_alarm_add does not refuse for its length is closed with a NUL, and then it is the text, if and only if the text is shorter than 42 characters |
| `AlarmText.SignedRead` | components/AlarmService/alarmparser.c:127-170 | a number with a sign in front of it is read with that sign |
| `AlarmText.NoNumber` | components/AlarmService/alarmparser.c:127-170 | without a digit there is no number |
| `AlarmText.NoNegativeField` | components/AlarmService/alarmparser.c:64-182 | no number read from a text shorter than 42 characters is negative, so a period that is not refused is positive |
| `AlarmText.ReadsDateAndPeriod` | components/AlarmService/alarmparser.c:64-182 | from a text of a type and two times six decimal numbers with '-', ':' or blanks between them, the date 19 characters long, exactly these numbers are read as the date and the period |
| `AlarmPolling.Service.Add` | components/AlarmService/AlarmService.c:102-149 | a new alarm is put in front at the least occurrence later than now, for every date and period of non-negative fields; refused for a time of day out of range, an absolute date not ahead or a period of zeros |
| `AlarmPolling.Node.Poll` | components/AlarmService/alarm.c:63-104 | the trigger and update of one node do the step of the model |
| `AlarmPolling.Service.Poll` | components/AlarmService/AlarmService.c:64-83 | a poll does the model's step on every alarm and calls the callbacks in list order |
| `AlarmModel.StaysAhead` | components/AlarmService/alarm.c:63-104 | polls at most 2 s apart, or 1 s for a period of 1 s: every occurrence T0+kP that is due has fired once, at T0+kP or a second later |
| `AlarmModel.OnTimeIffGapsWithinReach` | components/AlarmService/alarm.c:63-104 | polls serve every alarm of a period on time if and only if no two are more than 2 s apart, or more than 1 s for a period of 1 s |
| `AlarmModel.LateIsSilent` | components/AlarmService/alarm.c:63-104 | an alarm met 2 s late or more never fires again |
| `AlarmModel.OneSecondRunsDry` | components/AlarmService/alarm.c:63-104 | with polls 2 s apart a period of 1 s fires twice at most |
| `AlarmModel.CallsInOrder` | components/AlarmService/AlarmService.c:64-83 | a poll calls back exactly the alarms whose second has come, or was the one before, and that run and have a callback, once each, in list order |
| `AlarmModel.SilentUnlessRunningAndHeard` | components/AlarmService/AlarmService.c:70-83 | without a callback, or when it is not running, an alarm never fires |
| `AlarmModel.DateMovesAnyway` | components/AlarmService/alarm.c:63-104 | the date of a periodic alarm moves on alike whether it is called back or not |
| `AlarmModel.AbsoluteFiresOnce` | components/AlarmService/AlarmService.c:70-75 | an absolute alarm fires once when its second has come, and never again |
| `TouchFilter.NoWrap` | components/DeviceController/TouchManager/TouchPadRefactor.c:106-114 | the sum stays within 32 bits |
| `TouchFilter.NextBetween` | components/DeviceController/TouchManager/TouchPadRefactor.c:137-140 | the accumulator stays between its (seeded) value and the scaled sample, and the rounded value fits 16 bits |
| `TouchFilter.FilteredWithin` | components/DeviceController/TouchManager/TouchPadRefactor.c:133-142 | over every run from reset the filtered value is between the least and the greatest sample |
| `TouchFilter.RestsIff` | components/DeviceController/TouchManager/TouchPadRefactor.c:106-114 | an accumulator rests exactly when it is at most 3/16 below the sample |
| `TouchFilter.Settles` | components/DeviceController/TouchManager/TouchPadRefactor.c:133-142 | from every state a constant input is the filtered value from the 42nd sample on, for good |
| `TouchFilter.Filter.Callback` | components/DeviceController/TouchManager/TouchPadRefactor.c:133-142 | the loop updates the arrays of exactly the pads in use |
| `FormCodec.WholeIffFits` | main/dd_http.c:306-327 | the encoding is whole if and only if it is shorter than the size, or as long with an unescaped last character |
| `FormCodec.WritesPastIff` | main/dd_http.c:306-327 | the NUL goes past the size given if and only if the encoding of some first characters, the last of them unescaped, is exactly that long |
| `FormCodec.ExampleWritesPast` | main/dd_http.c:326 | one letter into one cell does it |
| `FormCodec.UrlEncode` | main/dd_http.c:296-328 | the array holds the encoding up to the returned length and is closed with a NUL; the cell behind the size is written only if the encoding fills the size, and only then has to be there |
| `FormCodec.ReturnedOtherwise` | main/dd_http.c:298-328 | URLEncode returns the length of the whole encoding, the size, or 0 |
| `FormCodec.EncodedOne` | main/dd_http.c:308-318 | a byte is encoded as itself if and only if it is one of the listed letters, digits and marks, the space as '+', and any other byte as '%' and its two upper-case hexadecimal digits |
| `FormCodec.EncodeConcat` | main/dd_http.c:306-327 | text is encoded byte by byte |
| `FormCodec.EncodeAlphabet` | main/dd_http.c:308-318 | nothing but those characters, hexadecimal digits, '+' and '%' is in an encoding |
| `FormCodec.DecodedOne` | components/httpd/httpd.c:155-177 | a byte that starts no escape is decoded as itself, '+' as a space |
| `FormCodec.DecodedThree` | components/httpd/httpd.c:155-177 | '%' and two characters are decoded as the byte with these digits |
| `FormCodec.DecodedEnd` | components/httpd/httpd.c:155-177 | an escape cut off at the end is decoded as nothing |
| `FormCodec.ThereAndBack` | main/dd_http.c:296-328 | URLEncode, then httpdUrlDecode, on real buffers give the bytes back |
| `FormCodec.RoomForAll` | main/dd_http.c:306-327 | with three cells a byte and one more it is whole |
| `FormCodec.UrlDecode` | components/httpd/httpd.c:155-177 | the decoded bytes as far as they fit, closed with a NUL if there is room |
| `FormCodec.HexValIs` | components/httpd/httpd.c:144-149 | a character has the value of a digit above 0 exactly when it is that digit, in either case |
| `FormCodec.RoundTrip` | components/httpd/httpd.c:155-177 | decoding undoes the encoding of every byte string |
| `EscapeTag.StrCaseStr` | components/utils/utils.c:96-115 | for one character, the first occurrence in either case |
| `EscapeTag.ModifyString` | components/utils/utils.c:138-191 | every occurrence, in either case, is replaced in place, in a block of exactly the final size when the text may grow |
| `EscapeTag.CountIn` | components/utils/utils.c:147-152 | the counting loop counts the occurrences |
| `EscapeTag.Escaped` | components/utils/utils.c:193-209 | escape_tag returns a new string with the escaped text, or null exactly when nothing calls for a copy |
| `EscapeModel.MatchesIff` | components/utils/utils.c:96-113 | two characters match if and only if they are the same, or one letter in its two cases |
| `EscapeModel.RightSizeIff` | components/utils/utils.c:147-164 | when the text may grow, the size asked of realloc is that of the replaced text if and only if the pattern does not occur in the other case, and too small otherwise |
| `EscapeModel.ExampleTooSmall` | components/utils/utils.c:147-164 | two letters for which it is too small |
| `EscapeModel.EscapedOne` | components/utils/utils.c:200-202 | the three characters that are escaped and what stands for them |
| `EscapeModel.NeedsCopyIff` | components/utils/utils.c:193-209 | a new string is called for if and only if escaping changes the text or there is a quotation mark in it |
| `EscapeModel.PassesAreOne` | components/utils/utils.c:200-202 | the three passes are one simultaneous substitution |
| `EscapeModel.UnescapeEscape` | components/utils/utils.c:193-209 | a reader of the three entities gets every text back, also one that holds entities |
| `EscapeModel.EscapeIsSafe` | components/utils/utils.c:193-209 | no bracket is left, and the text is unchanged only if nothing in it needed escaping |
| `WebSocket.WsEsc` | components/esp-request/esp_request.c:130-156 | the array holds the masked frame of the payload |
| `WebSocket.WsUnesc` | components/esp-request/esp_request.c:157-197 | the declared length, or -1 for an empty read, and the unmasked payload in the buffer |
| `WebSocket.UnescEsc` | components/esp-request/esp_request.c:130-197 | reading a frame gives back the payload cut to its length modulo 65536 |
| `WebSocket.RoundTripIff` | components/esp-request/esp_request.c:130-197 | a payload survives if and only if it is shorter than 65536 octets; the frame is 6 octets longer up to 125 octets and 8 above |
| `WebSocket.ExampleTooLong` | components/esp-request/esp_request.c:137-142 | of 65536 octets nothing is left |
| `WebSocket.ThereAndBack` | components/esp-request/esp_request.c:130-197 | ws_esc, then ws_unesc, on real buffers that are longer than the frame |
| `WebSocket.PlainFrameIsRead` | components/esp-request/esp_request.c:157-197 | every frame without a mask below 2^31 octets, in the shortest length form (section 5.2 of RFC 6455), gives its length and its payload |
| `WebSocket.MaskedFrameIsRead` | components/esp-request/esp_request.c:157-197 | so does every frame with a mask |
| `WebSocket.ReadPlain` | components/esp-request/esp_request.c:157-197 | ws_unesc on a buffer that holds such a frame without a mask, and anything behind it, returns the length and writes the payload |
| `WebSocket.ReadMasked` | components/esp-request/esp_request.c:157-197 | the same for a frame with a mask |
| `WebSocket.LongLength` | components/esp-request/esp_request.c:174-184 | a length of 2^31 or more is taken for a negative one, and one above 32 bits for -1 |
| `WebSocket.FrameIsStandard` | components/esp-request/esp_request.c:130-156 | what ws_esc writes for less than 65536 octets is the masked binary frame of the payload |
| `WebSocket.MaskedBits` | components/esp-request/esp_request.c:152 | each octet is masked, bit by bit, with the octet of the mask at its position modulo 4 |
| `WebSocket.XorBits` | components/esp-request/esp_request.c:152 | the mask operation is exclusive or on every bit |

## Left out

- Alerts: an alert's struct is kept in the node that points to it, so aliasing of the data pointer is not modelled; a failed push, allocation or task creation is excluded; a timer fires once; reports are identified by the alert, not by its token text.
- Alerts: a timer that fires before its alert is pushed is modelled (the alert is active but not listed); freeing an alert is its disappearance from the state.
- AlertService.Service.PushAlert: the report of success, which follows the unlocking, is part of the push.
- Alert queue: each locked region is one atomic step; NTP and time parsing are a choice of success or failure.
- Client reader: the number in the Content-Length line is a function of the lines and the answers of the download callback are a parameter; the status code, the WebSocket upgrade and the storing of header lines during a download are not modelled. Each line fits the buffer where completeness is claimed.
- HTTP server, sending: writing to the socket and the backlog are one output, so neither dropped backlog nor the order across it is claimed; the limit of the send buffer is symbolic and below 65536.
- HttpdSend.Connection.CgiIsDone: as Flush, it needs room for the last chunk.
- HttpdSend.Connection.Flush: a response that is done needs room for the last chunk, which the code writes unchecked; that room is a precondition.
- HTTP server, receiving: what a head means (Content-Length, chunked response) and whether a call of the CGI ends the request are parameters, the latter of all calls so far; the look-up of another CGI after one that declines, and receive handlers, are not modelled. A continuation that only drains the backlog is no event, since it changes nothing here. httpdPlatDisconnect only marks the socket (httpd-freertos.c:57-60), so the closing of the connection is an event of its own.
- HttpdReceive.Connection.ParseHead: the number in the head is not negative; a negative Content-Length, which leaves the connection reading a head, is not modelled.
- HttpdReceive.Connection.Receive: the flush at the end of each callback is not part of it, and the head buffer has room for each normalised head; the silent cut at its limit is not modelled.
- UTF-8: masks and shifts are written as remainders and products; the 32-bit limits of the counters are not modelled.
- Utf8.U8Encode: the remaining room is computed from what is written; the pointer arithmetic of the macro is not modelled.
- URI parser: allocation failure, and the components' storage after parse_uri returns.
- UriRoundTrip.ParsePrint: only for components without the separators that the scanner looks for in their place; UriQuery has what becomes of other queries and users.
- UriQuery.QueryComesBackIff: for queries without brackets, which RFC 3986 does not allow in a query either.
- Header list: allocation failure, req_list_set_from_string and its trimming, req_list_check_key; keys are ASCII.
- RequestHost.RunAgrees: the 1024-byte scratch string of req_setopt is unbounded here; other options are writes of other keys; REQ_SET_URI is the calls it makes.
- MQTT: acknowledgements, message identifiers and topics of the events; reads that hold more than one message (a precondition of the PUBLISH branch); remaining lengths that overflow an int.
- MqttDeliver.Client.ProcessPublish: the input buffer is shorter than 65536 bytes, since the length is passed on in 16 bits.
- Alarms: months and years, and the calendar that mktime knows; a poll samples the clock once; adding an alarm does not delay the polls of others; what the text means beyond its numbers, numbers that overflow an int, handles beyond 32 bits, esp_alarm_edit, deletion.
- AlarmPolling.Service.Add: the ranges that get_Date demands of year, month and day belong to the calendar and are not modelled, so it refuses more dates than this says.
- AlarmText.NoNegativeField: for texts shorter than 42 characters; what is read behind the copy of a longer one is not modelled.
- Touch filter: the hardware read is a parameter; the timer, the mutex and the callback are not modelled.
- FormCodec.UrlEncode: the array has the cell behind the size when the code writes there.
- EscapeTag.StrCaseStr: for one character; longer patterns are not modelled.
- EscapeTag.ModifyString: for patterns of one character and with like 0, as escape_tag calls it, and where the block asked for is large enough; longer patterns, the like branches and a failed realloc are not modelled.
- HttpDownload.Reader.DownloadWhole: for heads without a NUL; Download and DownloadWithNul have the others.
- WebSocket.WsUnesc: the frame is whole in the buffer; what the code does with a cut frame or an unmasked length above 32 bits is not modelled.
- Sockets, TLS, tasks, timers, storage, codecs, LEDs, mesh, the OTA and button code, and the functions of libraries whose source is not here.
