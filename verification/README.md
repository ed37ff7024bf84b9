# Verified model of a WebSocket, HTTP and IRC engine

This project models the three protocol engines of a small chat bridge and proves what they guarantee:

* **WebSocket connections.** Each connection has a queue of outgoing frames drained by a chain of asynchronous
  writes on a strand, a read loop for masked client frames, and a life cycle (open, messages, close or error,
  membership of its endpoint's set). `WsSend` and `WsRead` are state machines for the first two; handlers that are
  ready, writes under way and bytes not yet transferred are kept as collections that any step may pick from, so
  "there is only one writer" is a theorem and not part of the model. `WsEngine` joins both with the handshake, the
  close handshake and application calls; every run of it contains a run of each part, so their theorems carry over.
  `WsFrame` holds RFC 6455's reading of a server frame, `WsRead.Decode` a plain decoder for client frames.
  `WsConnection` has the objects whose methods update these states in place and refine the machines' steps.
* **HTTP requests and responses.** `HttpHead` and `HttpRequest` read a request head line by line out of a buffer,
  `HttpConsumption` proves how much of the buffer that takes, `HttpContent` what content the handler then gets,
  `HttpRouting` that the per-method index answers like a scan of the resource map, `HttpResponses` in which order
  responses leave a kept-alive connection, `HttpPipeline` what becomes of several requests on one, and `FileSender`
  that the chunked file sender delivers the file.
* **IRC messages.** `IrcRegex` is the line expression itself, run by a backtracking matcher, and a direct parser
  proved to give the same fields on every string. `IrcMessage` is the message object, `IrcPrint` prints messages as
  section 2.3.1 of RFC 2812 writes them and proves that they are read back, `IrcGrammar` proves the converse, and
  `IrcClient` relates the client's printers to its dispatcher.

The environment is nondeterministic: any amount of bytes may arrive or be written at any step, any write or read may
fail, strand handlers run in any order that keeps posted sends in call order, and the application may call the server
at any time, also from inside a completion callback. Path patterns, the acceptance of a handshake and the way
header hashes are combined are parameters, as is the number `stof` gives for an HTTP version.

Where a promise does not hold of the code on all inputs, the exact condition is proved as an equivalence, and a lemma
names an input that fails:

* `JoinRoundTrip`: `JoinWithoutKeys`, a JOIN without keys, the source's own default;
* `PrivmsgRoundTrip`: `PrivmsgToNobody`, an empty target and one with a space;
* `PingRoundTrip`: `PingLosesColon`, a second name with a leading colon;
* `TagsReadBack`: `TagIsLost`, the tag `k=a=b`, whose value holds an equals sign;
* `OutOfRangeWhenPrinted` and `OutOfRangeInLine`: `OutOfRangeLine`, the line `:n!u@h PRIVMSG :hi`;
* `ConsumesThroughDelimiter`: `DelimiterIsLeft`, a request whose only header line is `foo`;
* `ContentSize`: `ContentIsTooLong`, the same line behind `Content-Length: 0`;
* `OwnContentExactly`: `SecondIsSwallowed`, two requests that arrive together;
* `CloseIsEchoed`: `CloseIsNotEchoed`, a close frame with a payload of one byte;
* `AllHandledExactly`: `FrameIsHeldBack`, a frame that arrives together with the handshake.

A pong carries no payload; that is what the code does.

`dafny verify dfyconfig.toml` checks the whole project.

## Model

| member | source | states |
|---|---|---|
| `WsFrame.BuildHeader` | web_socket_server/server_ws.hpp:235-257 | the loop that shifts the length out byte by byte writes the shortest header form, for every length |
| `WsFrame.HeaderExamples` | web_socket_server/server_ws.hpp:235-257 | the headers of the examples of section 5.7 of RFC 6455, byte for byte: 5 bytes, 256 bytes and 64 KiB |
| `WsFrame.FrameRoundTrip` | web_socket_server/server_ws.hpp:235-257 | a frame the server writes is read back by an RFC 6455 client with its opcode byte, length and payload, whatever follows it |
| `WsFrame.FrameSound` | web_socket_server/server_ws.hpp:239-257 | conversely, whatever such a client accepts is byte for byte what the server writes for that frame: unmasked and in minimal length form |
| `WsFrame.FramePrefixIncomplete` | web_socket_server/server_ws.hpp:239-257 | a frame cut short anywhere is never taken for a frame or an error |
| `WsFrame.StreamRoundTrip` | web_socket_server/server_ws.hpp:229-264 | any list of frames followed by a cut-off one reads back as exactly those frames |
| `WsSend.StepKeepsInv` | web_socket_server/server_ws.hpp:75-103 | every step of the send chain keeps single writer, exact wire contents and the account of frames and callbacks |
| `WsSendTheorems.SingleWriterAlways` | web_socket_server/server_ws.hpp:75-103 | in every reachable state exactly one start, header write or message write is pending if the queue is non-empty and none otherwise, and the queue is never begun when empty |
| `WsSendTheorems.WireIsPrefixOfSends` | web_socket_server/server_ws.hpp:75-103 | until a write fails, the socket holds the first sends whole, header then payload, in call order, then a prefix of the next: frames never interleave |
| `WsSendTheorems.Conservation` | web_socket_server/server_ws.hpp:83-100 | every frame sent is exactly one of completed, failed at the front, discarded behind a failure, queued, or about to be queued, in call order; at every failed write of the run all frames then queued behind the failed one were discarded and stay so |
| `WsSendTheorems.FailureDiscardsQueue` | web_socket_server/server_ws.hpp:93-98 | in every run, once the handler of a failed write has run nothing is queued, due or being written: the front frame is logged as failed, and each frame behind it as discarded, unwritten and uncalled |
| `WsSendTheorems.CallbacksFireOnce` | web_socket_server/server_ws.hpp:84-98 | no callback runs twice, whatever fails |
| `WsSendTheorems.CallbackTellsOutcome` | web_socket_server/server_ws.hpp:84-99 | a frame's callback has run with success exactly if it completed and with an error exactly if it failed at the front; discarded and queued frames get none |
| `WsSendTheorems.CallbacksInOrder` | web_socket_server/server_ws.hpp:83-99 | callbacks run in the order of the sends |
| `WsSendTheorems.NeverStuck` | web_socket_server/server_ws.hpp:259-263 | no wake-up is lost: while a frame is queued or waiting, the chain can take a step |
| `WsSendTheorems.RankDecreases` | web_socket_server/server_ws.hpp:75-103 | without new sends every step, successful or not, brings the queue closer to empty |
| `WsSendTheorems.EverythingCanBeSent` | web_socket_server/server_ws.hpp:75-103 | every run without a failed write can be continued until each frame sent is on the socket, whole and in order |
| `WsSendTheorems.ClientReadsSends` | web_socket_server/server_ws.hpp:229-264 | until a write fails, an RFC 6455 client reads from the socket exactly the first frames sent, in call order |
| `WsRead.RunInvariant` | web_socket_server/server_ws.hpp:461-599 | over every run the read loop loses no byte and has done exactly what the decoder asks for of the bytes consumed |
| `WsReadTheorems.ResidueStaysConstant` | web_socket_server/server_ws.hpp:463-475 | each read consumes as many bytes as it transferred: the handshake residue keeps its size, and what is consumed is a prefix of residue and arrivals |
| `WsReadTheorems.NeverAheadOfStream` | web_socket_server/server_ws.hpp:461-599 | at any moment, also after a read error, the loop has done a prefix of what the whole stream asks for |
| `WsReadTheorems.IdleHasDecodedEverything` | web_socket_server/server_ws.hpp:461-599 | however the bytes are cut up, an idle loop has done exactly what the stream without its last residue-many bytes asks for |
| `WsReadTheorems.ReadableExactlyBelow2To31` | web_socket_server/server_ws.hpp:524-527 | with a zero byte shifted by any count taken as zero, the 64-bit length reader gives a value exactly for lengths below 2^31 |
| `WsReadTheorems.MaskedRoundTrip` | web_socket_server/server_ws.hpp:549-564 | a masked frame in any of the three length forms is taken apart into the client's frame, whatever follows it |
| `Bytes.MaskedBit` | web_socket_server/server_ws.hpp:562-564 | bit by bit: a bit of payload byte c is turned exactly if it is set in byte c % 4 of the mask |
| `WsReadTheorems.ZerosShowTheKey` | web_socket_server/server_ws.hpp:549-564 | the masked frame of a payload of zeros holds its key and behind it the key repeated from the first byte on |
| `WsReadTheorems.MaskedHello` | web_socket_server/server_ws.hpp:549-564 | the masked "Hello" of section 5.7 of RFC 6455 is read as that text |
| `WsReadTheorems.UnmaskedIsRefused` | web_socket_server/server_ws.hpp:479-485 | behind any readable frames without a close, an unmasked one closes the connection with status 1002 and the reason the code gives, and nothing behind it is read |
| `WsReadTheorems.ReactIs` | web_socket_server/server_ws.hpp:566-586 | a close gives the big-endian status of its first two bytes and the rest as reason, a ping a pong with the same flags, anything else a message |
| `WsReadTheorems.DecodeRoundTrip` | web_socket_server/server_ws.hpp:566-594 | decoding a list of masked frames gives the non-ping frames before the first close, a pong for each ping among them, and that close |
| `WsReadTheorems.MessagesArriveIntact` | web_socket_server/server_ws.hpp:461-599 | for every list of masked frames and every arrival chunking, an idle loop has handed over exactly the non-ping frames before the first close, in order and unmasked, answered exactly the pings and closed as that close says, of the frames that end before the last bytes, as many as the handshake left over |
| `WsReadTheorems.AllHandledExactly` | web_socket_server/server_ws.hpp:463-475 | an idle loop has handed over, answered and closed as all of a list of frames asks for if and only if at least as many bytes as the handshake left over have arrived behind the first close frame, or behind the last frame if there is none |
| `WsReadTheorems.FrameIsHeldBack` | web_socket_server/server_ws.hpp:463-475 | a frame that arrives together with the handshake is not looked at until more arrives |
| `WsReadTheorems.EverythingCanBeHandled` | web_socket_server/server_ws.hpp:461-599 | every run without a failed read can be continued, with no further arrivals, until the loop is idle |
| `WsEngineTheorems.LifeCycle` | web_socket_server/server_ws.hpp:601-634 | over every run the callbacks are nothing, a lone error, or an open, messages and at most one close or error; the connection is in its endpoint's set exactly between open and end |
| `WsEngineTheorems.CallbacksExactly` | web_socket_server/server_ws.hpp:601-634 | over every run `onerror` is reached exactly if the handshake's answer or a read failed, and each callback is run exactly if it is reached and set |
| `WsEngineTheorems.MessagesReachTheApplication` | web_socket_server/server_ws.hpp:587-594 | end to end, with any application traffic meanwhile and any handshake residue, the place that calls `onmessage`, and `onmessage` if it is set, gets exactly the non-ping frames before the first close of those the loop has seen |
| `WsEngineTheorems.CloseReachesTheApplication` | web_socket_server/server_ws.hpp:566-579 | end to end, `onclose` is reached exactly if one of the frames seen is a close, once, with the status and reason of the first |
| `WsCloseTheorems.CloseSentOnce` | web_socket_server/server_ws.hpp:266-283 | over every run, beside the close frames the application writes with `send`, exactly one is posted if it called `send_close` or the read loop closed, and none otherwise; the connection is marked closed exactly then |
| `WsCloseTheorems.CloseFrameBytes` | web_socket_server/server_ws.hpp:266-283 | a short close frame byte for byte: 0x88, the length, the status with its high byte first, the reason |
| `WsCloseTheorems.IssuedFrames` | web_socket_server/server_ws.hpp:229-283 | what is posted for any calls of `send` and `send_close` is the frames they name, in call order; of the calls of `send_close` only the first posts one, and only if the connection is not marked closed |
| `WsEngineTheorems.CloseIsEchoed` | web_socket_server/server_ws.hpp:566-579 | a received close is answered by one frame, unless one was sent before; its payload is the received one if and only if that has two bytes |
| `WsCloseTheorems.CloseIsNotEchoed` | web_socket_server/server_ws.hpp:566-579 | a run in which a client closes with one byte for a payload and three are posted in answer |
| `WsCloseTheorems.ClientReadsAtMostOneClose` | web_socket_server/server_ws.hpp:266-283 | until a write fails, the client reads the first frames sent in order and at most one close frame, of any flags, among them, if the application closes through `send_close` |
| `WsAnswerTheorems.CloseHandshakeCompletes` | web_socket_server/server_ws.hpp:566-579 | bytes in, bytes out, with any other application traffic: the close frames the client reads are none if it sent none, and otherwise exactly the answer to its first |
| `WsAnswerTheorems.ServerAnswersClient` | web_socket_server/server_ws.hpp:566-594 | bytes in, bytes out, whatever the application sends and whenever it closes, with any handshake residue: a client whose frames have arrived and to which everything posted is written, both in any pieces, reads exactly the frames the application's calls name interleaved with the server's answers, each in order: an empty pong per ping up to its first close, then the answer to that unless the application closed before, for the frames the loop has seen |
| `WsAnswerTheorems.SilentServerAnswers` | web_socket_server/server_ws.hpp:566-594 | with a silent application the client reads those answers and nothing else |
| `WsConnection.Connection.Send` | web_socket_server/server_ws.hpp:229-264 | builds the header and posts the frame on the strand, changing nothing else |
| `WsConnection.Connection.SendClose` | web_socket_server/server_ws.hpp:266-283 | posts a close frame and marks the connection closed the first time, and does nothing after that |
| `WsConnection.Connection.RunAppend` | web_socket_server/server_ws.hpp:259-263 | appends the oldest posted frame and starts the chain if the queue was empty |
| `WsConnection.Connection.RunHandler` | web_socket_server/server_ws.hpp:76-102 | the start lambda and both completion handlers take the machine's step, callback and its calls included; what that step does with a failure is said by `FailureDiscardsQueue` |
| `WsConnection.ReadLength` | web_socket_server/server_ws.hpp:501-504 | the loop of shifted additions computes the big-endian number |
| `WsConnection.Unmask` | web_socket_server/server_ws.hpp:552-564 | the loop combines byte c with mask byte c % 4 by exclusive or, as `MaskedBit` describes |
| `WsConnection.Session.ReadDone` | web_socket_server/server_ws.hpp:461-599 | each read handler takes the engine's step on connection, endpoint and buffer, and no other connection's membership changes |
| `WsConnection.Session.HandshakeWritten` | web_socket_server/server_ws.hpp:391-402 | a written handshake opens the connection and starts reading on the left-over buffer; a failed one reports an error |
| `IrcRegex.RegexIsParseLine` | irc/irc_client.hpp:190-221 | on every string, line ends included, the leftmost backtracking match of the expression and the direct parse give the same eight groups; there is a match exactly if some line of the string starts with anything but a space |
| `IrcRegex.MessageAtExactly` | irc/irc_client.hpp:190-191 | such a line starts at the front, or behind a line feed, a form feed or a carriage return without its line feed |
| `IrcMessage.Message.constructor` | irc/irc_client.hpp:188-258 | the fields are filled from the match: first value of a tag, parameters, trailing text always appended |
| `IrcPrint.PrintedMessageIsReadBack` | irc/irc_client.hpp:188-258 | every well-formed message printed per RFC 2812 is read back: prefix, nickname, user, host, command, the middle parameters followed by the trailing text or "", and the tags exactly if no key's first value holds an equals sign |
| `IrcPrint.TagsReadBack` | irc/irc_client.hpp:224-246 | the tag map holds the first value of each key among the tags whose value has no equals sign; it is the map of all tags if and only if no key's first value has one |
| `IrcPrint.TagIsLost` | irc/irc_client.hpp:230-245 | a line with the tag `k=a=b` is read with no tag at all |
| `IrcGrammar.ParseIsSound` | irc/irc_client.hpp:190-255 | every parse is a reading of the string: from its first message on it consists of the tags and prefix found, the command, at most fourteen words and the trailing text |
| `IrcGrammar.ParameterCount` | irc/irc_client.hpp:252-255 | every string that matches yields between 1 and 15 parameters, any other an empty message |
| `IrcPrint.FifteenthParameter` | irc/irc_client.hpp:212-217 | after fourteen middle parameters, with any tags, source and command before them, the rest of the line is the fifteenth parameter, less one leading colon |
| `IrcClient.JoinRoundTrip` | irc/irc_client.cpp:136-144 | a printed JOIN is dispatched with its channels and keys if and only if no item has a comma, both lists have items, the channels form a plain parameter and the keys one that is kept |
| `IrcClient.OrdinaryJoinRoundTrip` | irc/irc_client.cpp:77-91 | for non-empty channels and keys without spaces, colons and commas that is always so |
| `IrcClient.PrintedLines` | irc/irc_client.cpp:136-144 | the text of the lines: `JOIN channels keys` with commas between items, `PRIVMSG target :text`, `PONG name name` |
| `IrcClient.PrivmsgRoundTrip` | irc/irc_client.cpp:204-207 | a printed PRIVMSG is dispatched with its target and text if and only if the target is non-empty, has no space and no leading colon |
| `IrcClient.DispatchWhenPrinted` | irc/irc_client.cpp:50-95 | a printed message is dispatched by its command: as a PING if and only if it starts with PI, as a PRIVMSG or out of range with PR, as a JOIN with J, and as nothing otherwise; with its middle parameters and trailing text, in order |
| `IrcClient.OutOfRangeWhenPrinted` | irc/irc_client.cpp:50-61 | a printed message makes the dispatcher read a missing parameter if and only if its command starts with PR and it has no middle parameter |
| `IrcClient.OutOfRangeInLine` | irc/irc_client.cpp:50-61 | in every string that matches, that is so if and only if the command, found behind tags and prefix, starts with PR and is followed by the end, a colon or a second space |
| `IrcClient.OutOfRangeLine` | irc/irc_client.cpp:56-59 | the line `:n!u@h PRIVMSG :hi` does it |
| `IrcClient.JoinWithoutKeys` | irc/irc_client.hpp:318-318 | a JOIN printed without keys comes back with one empty key |
| `IrcClient.PrivmsgToNobody` | irc/irc_client.cpp:204-207 | a PRIVMSG to an empty target, or to one with a space, does not come back |
| `IrcClient.PingRoundTrip` | irc/irc_client.cpp:283-286 | a printed PING is dispatched with both its names if and only if the first is a plain parameter and the second one that is kept |
| `IrcClient.PongRoundTrip` | irc/irc_client.cpp:288-296 | the PONG that answers such a PING is read with the same two names |
| `IrcClient.ServerPing` | irc/irc_client.cpp:62-68 | a PING with one name behind a colon is dispatched with that whole text as the name |
| `IrcClient.PingLosesColon` | irc/irc_client.cpp:283-286 | a second name with a leading colon does not come back |
| `IrcClient.Client.Receive` | irc/irc_client.cpp:50-76 | on any string, the client writes exactly if the command read from it starts with PI, and then a PONG with the first parameter and the second, if any; a PING printed from a plain first and a kept second name makes it write the PONG with those two names |
| `HttpRouting.Server.BuildIndex` | web_server/server_http.hpp:124-143 | the index has distinct methods, each with exactly its routes in iteration order |
| `HttpRouting.RouteAt` | web_server/server_http.hpp:126-143 | these are the entries of the resource map: entry j of pattern i is the route of its method, pattern and handler behind those of the patterns before |
| `HttpRouting.Server.FindResource` | web_server/server_http.hpp:321-339 | on the resource map itself: the handler chosen through the index is that of the first entry, by pattern and then by method, that has the request's method under a pattern that matches its path; the default of the method, if it has one, exactly if no entry does |
| `HttpRouting.ScanFindsFirst` | web_server/server_http.hpp:322-339 | that scan gives the first route whose method and pattern match, and nothing exactly if there is none |
| `HttpRequest.InputStream.GetLine` | web_server/server_http.hpp:280-282 | one line is taken from the buffer; past the end the line stays as it was |
| `HttpRequest.Request.ParseRequest` | web_server/server_http.hpp:280-319 | the line-by-line parser terminates on every buffer with a delimiter and computes the head |
| `HttpConsumption.ConsumesThroughDelimiter` | web_server/server_http.hpp:228-239 | never more than the head is taken from the buffer, and exactly the head if and only if every header line has a colon |
| `HttpConsumption.StrayLineLeavesTwo` | web_server/server_http.hpp:301-313 | behind any well-formed headers, a last line without a colon leaves the empty line in the buffer, in front of the body |
| `HttpConsumption.DelimiterIsLeft` | web_server/server_http.hpp:301-313 | a request whose only header line is foo leaves two bytes of its delimiter |
| `HttpConsumption.RequestLineExactly` | web_server/server_http.hpp:283-318 | the request lines accepted are exactly those of a method, a path and a protocol that starts with HTTP/ |
| `HttpConsumption.RequestLineGives` | web_server/server_http.hpp:283-318 | they give that method and path, and as version what follows HTTP/ but for its last character |
| `HttpConsumption.FieldForms` | web_server/server_http.hpp:301-310 | a header line gives its name and what follows the colon, less one space and the last character; nothing if the colon or that space ends it |
| `HttpHead.DelimEndExactly` | web_server/server_http.hpp:228-229 | the head ends behind the first place where two line ends follow one another |
| `HttpConsumption.HeadReadBack` | web_server/server_http.hpp:280-319 | a printed head is read back with method, path, version and headers, and exactly its bytes, which end at the first delimiter, are taken |
| `HttpContent.EqualNamesHashAlike` | web_server/server_http.hpp:55-70 | header names equal by upper case have equal hashes by lower case, however hashes are combined |
| `HttpContent.SameNameExactly` | web_server/server_http.hpp:56-61 | header names are the same exactly if they differ in nothing but the case of the letters a to z |
| `HttpContent.LowerExactly` | web_server/server_http.hpp:62-70 | what is hashed of a letter is its lower case |
| `HttpContent.StoullOfDecimal` | web_server/server_http.hpp:249-255 | a decimal length below 2^64 is read back |
| `HttpContent.StoullOfNumber` | web_server/server_http.hpp:249-255 | spaces and a sign may precede a length and anything follow it; 2^64 and more is an error, and a minus sign gives the complement to 2^64 |
| `HttpContent.StoullOfText` | web_server/server_http.hpp:249-255 | without a digit behind spaces and sign there is no length |
| `HttpContent.ZeroInFront` | web_server/server_http.hpp:249-255 | leading zeros change no length |
| `HttpContent.OutcomeExactly` | web_server/server_http.hpp:237-274 | a request is dropped exactly if its request line is rejected or its declared length is no number, and waits exactly if the declared content has not all arrived; the content is what the head left and then what comes, in order |
| `HttpContent.ContentSize` | web_server/server_http.hpp:237-274 | the handler is called exactly if the declared content arrives; the content is then at least the larger of the declared and the buffered size, and exactly that if and only if every header line has a colon |
| `HttpContent.ContentIsTooLong` | web_server/server_http.hpp:237-274 | a request that declares and has no content, with such a line, is handed over with two bytes of it |
| `HttpContent.ContentIsBody` | web_server/server_http.hpp:237-274 | for a well-formed request declaring its body's size the handler gets exactly the body, however much of it arrived with the head and whatever follows |
| `HttpPipeline.OwnContentExactly` | web_server/server_http.hpp:218-274 | of well-formed requests sent one behind the other on a kept connection each handler gets its own head and body if and only if each read of a head ends within its own request |
| `HttpPipeline.SecondIsSwallowed` | web_server/server_http.hpp:218-274 | of two requests that arrive together the first handler gets the second for content, and no handler gets the second |
| `HttpResponses.ResponsesLeaveInOrder` | web_server/server_http.hpp:341-380 | over every run, whatever handlers do, the pieces put on the socket are those written, and belong to responses in request order |
| `HttpResponses.FlushedOnceAfterSends` | web_server/server_http.hpp:183-188 | the deleter flushes each response once, exactly when nothing refers to it, after all its sends |
| `HttpResponses.FlushedWhenReleased` | web_server/server_http.hpp:183-188 | counted by what happened in the run: the deleter has run exactly if the response and each copy of it were released and every send on it has completed |
| `HttpResponses.NextRequestAfterFlush` | web_server/server_http.hpp:351-371 | a request is read only when every earlier response has been flushed with success |
| `HttpResponses.ConnectionEnds` | web_server/server_http.hpp:351-371 | after a flush, something can still happen exactly if it succeeded, the request's version is above 1.05 and no header named connection has the value close, both in letters of any case, and then only a request being read; otherwise nothing ever happens again |
| `HttpResponses.PlainRequestPersists` | web_server/server_http.hpp:355-369 | version 1.1 without a header keeps the connection; with `connection: CLOSE`, with version 1.0 or without a number it does not |
| `HttpResponses.RefusalEnds` | web_server/server_http.hpp:239-339 | after a request that is malformed or has no handler nothing ever happens again |
| `HttpResponses.OnlyLastMayClose` | web_server/server_http.hpp:355-369 | over every run, every accepted request but the last has a version above 1.05 and no header named connection with the value close, in letters of any case |
| `FileSender.FileIsSentWhole` | src/bot.cpp:133-147 | whatever fails, the socket holds a prefix of head and file; a run without failures ends with exactly head and file, for every file and buffer size |
| `FileSender.FileCompletes` | src/bot.cpp:133-147 | without failures the chunk recursion and the final flush always come to that end |
| `FileSender.OneWritePerChunk` | src/bot.cpp:133-147 | a response that completes takes one write for each full chunk of the file and the deleter's flush |
| `FileSender.FailedChunk` | src/bot.cpp:137-145 | after a chunk's write has failed no more of the file is ever read, and the deleter still tries to flush what is buffered |
| `FileSender.ClientReadsFile` | src/bot.cpp:50-60 | a client finds the status line of success and one Content-Length field that gives the size of what follows the delimiter, and what follows is the file |
| `FileSender.FileResponse.DefaultResourceSend` | src/bot.cpp:133-147 | reads the next chunk into the shared buffer, appends it to the response and decides between another send and the deleter |

## Left out

- The accept key of the handshake, TLS, sockets, accepting, resolving, threads and timers: whether a handshake is accepted is a parameter, `timeout_idle` and the request timeouts are taken as 0, and one thread runs the handlers.
- `stop()`: runs without it only.
- Close-once with several threads: the load and the store of `closed` are one step here, as with one thread.
- Reading 64-bit lengths: the shifts of a promoted byte by 32 and more have no defined value for any of them; the model takes shifted zero bytes as zero and stops in an unspecified state for lengths of 2^31 and more.
- Reassembly of fragmented messages: the code hands continuation frames on as they are, and so does the model.
- A `pong` with the ping's payload, and no frame after a close frame: the code does neither (it answers with an empty frame, and `send` does not look at `closed`).
- The bytes of the handshake itself: the wire of a connection starts behind them.
- Session: its buffer operations are those of one outstanding read; the wrapper classes of the asynchronous library have no objects of their own.
- The limit the regular expression library puts on the work of one match; the reading of lines off the IRC socket, which leaves a CR as the last character of each.
- Numeric replies, the empty commands, `toString` and console output of the IRC client.
- Matching of path patterns: an uninterpreted predicate on pattern and path; captured groups are not kept.
- The WebSocket handshake's header map and its copy of the head parser: only the HTTP one is modelled.
- HttpResponses: the bytes a handler writes are kept as pieces labelled with their response; which bytes they are is shown for the file handler.
- HttpContent.MayFind: with several equal header names any of their values may be found.
- The file path checks and the error page of the file handler, the Twitch client, the JSON client and the database.
