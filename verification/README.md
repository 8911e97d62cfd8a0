# OpenScumRcon: verified model

This project models the engine-free middle of OpenScumRcon, a game-server module that
answers the Source RCON protocol, and proves what that code is for: nothing sent is
lost or torn, requests mean what the client wrote, commands run in order and only
with authority, replies belong to their requests, and bounded buffers say so when
they cut. Strings are byte sequences; UTF-8 is section 4 of RFC 3629, UTF-16 sections
2.1 and 2.2 of RFC 2781, and framing follows the Source RCON protocol's packet layout.

`dafny verify dfyconfig.toml` checks everything.

## Modules

- `Bytes`, `Utf8`, `Utf16`, `Sorting`: bytes, little-endian int32, well-formed text, transcoding, sorting by byte strings.
- `RconProtocol`: packet encoding, the greedy response splitter, the body decoder, and frames in a byte stream.
- `RconServer`: exact reads and writes over a fragmenting socket, packet reassembly, and a whole connection as a function of its input.
- `CommandQueue`: promises, the pending queue and the game thread's drain loop as mutable objects.
- `Handoff`: the interleaving of worker and game thread as a state machine over its steps, with timeouts and reconnects.
- `ResponseScope`, `ResponseCapture`: the heap-linked stack of bounded reply buffers, and the hook that reads, repairs, sanitises and transcodes replies.
- `DispatchRequest`, `RequestGrammar`, `RequestRoundTrip`: the one-pass tokenizer and router; an independent grammar it accepts exactly; printing and parsing.
- `GodmodeRequest`: the white-space parser tried first, and why it never competes.
- `PlayerList`, `RegistryDispatch`, `RegistryGate`, `RegistryOffers`: the player listing and its reader, the execution gate, runs of it, and its decisions in terms of the registered classes.
- `CommandPath`: from a client's words through both parsers and the gate to the handler call.
- `GodmodeTrace`: the bounded call observer over trees of nested calls.
- `Pipeline`: the reply path put together, from UTF-16 in the game to packets at the client.

Code that changes state is modelled by classes and loops, each proved against a
specification function on values; the lemmas are about those functions. What the
code leaves to its environment is a parameter or a nondeterministic choice: how the
network fragments and when it breaks, whether a result is in time, what a dispatch
returns or throws, where memory runs out, what reflection reports, the clock.

## Findings

- The cap of eight interface events per trace record does not hold without bound: the
  unsigned counter is incremented on every lookup and comes round after 2^32. The exact
  condition is `GodmodeTrace.RecordCapExactly`, a failing call `GodmodeTrace.EventCapFails`.
- A response text with a NUL byte is encoded but cannot be read back, because the decoder
  refuses embedded NULs: `RconProtocol.ResponseReadableExactly`. Captured replies never
  contain one (`ResponseScope.OutputStaysText`).
- The tokenizer's cap is 67 tokens, or 68 when the last one ends the text, since the final
  token is pushed after the check (`RequestGrammar.WithinCaps`); the execute route then
  checks for 67 itself, so the documented 64 arguments hold.
- A truncated buffer is not always the join of the pieces `accept` took of its replies: a
  reply may have its separating newline appended although not one code point of it fits
  after that. The exact condition for one reply is `ResponseScope.Orphans`
  (`AcceptJoinsACutExactly`), and for a whole log that each later reply is `Skipped` too
  (`EndsWithOrphan`, `TruncatedIsJoinOfCuts`). Without newlines inside replies no other cuts
  fit either (`NoOtherCutsFit`; `OrphanExists` is such a log); with them others may
  (`OtherCutsMayFit`).
- One connected player whose name or address cannot be converted from UTF-16 makes the
  whole player listing fail (`PlayerList.ListPlayers`).

## Model

| member | source | states |
|---|---|---|
| Utf8.PrefixSize | native_module/src/response_buffer.hpp:10-15 | The cut is the greatest boundary of the text that is at most the limit: a boundary, and no later one fits. |
| Utf8.Utf8PrefixSize | native_module/src/response_buffer.hpp:10-15 | The decrementing loop computes that greatest boundary. |
| Utf8.BoundaryIsCodePointCut | native_module/src/response_buffer.hpp:10-15 | In well-formed UTF-8 the byte test finds exactly the positions where both sides are well-formed. |
| Utf8.PrefixSizeNearLimit | native_module/src/response_buffer.hpp:10-15 | In well-formed UTF-8 a cut gives up at most three bytes below the limit. |
| Bytes.Le32IsLittleEndian | native_module/src/rcon_protocol.cpp:16-18 | The four bytes are the little-endian two's complement of the int32. |
| Bytes.FromLe32RoundTrip | native_module/src/rcon_protocol.cpp:54-57 | Reading four bytes as an int32 and writing them back gives the same bytes. |
| Bytes.WrapIsCongruent | native_module/src/rcon_protocol.cpp:15 | The size field differs from the body size by whole turns of 2^32, and equals it whenever it fits an int32. |
| Bytes.LowerExactly | native_module/src/dispatch_request.hpp:9-13 | Letter by letter: A to Z become a to z, every other byte stays. |
| Bytes.SteamIdExactly | native_module/src/dispatch_request.hpp:14-17 | A SteamID is seventeen characters from 0 to 9. |
| RconProtocol.EncodePacket | native_module/src/rcon_protocol.cpp:9-26 | The buffer filled by successive copies holds size, id, type, payload and two NULs, for every payload; the size wraps to int32 as the cast does. |
| RconProtocol.FieldsAt | native_module/src/rcon_protocol.cpp:9-26 | Each field is at its fixed place: size, id and type little-endian in four bytes each, then the payload, then two NULs. |
| RconProtocol.EncodeResponse | native_module/src/rcon_protocol.cpp:28-45 | The loop terminates for every text and pushes the encodings of exactly the specified chunks; an empty text gives one empty packet. |
| RconProtocol.ChunkSize | native_module/src/rcon_protocol.cpp:39-40 | Each cut takes at least one byte, at most 4086 and no more than is left. |
| RconProtocol.FallbackExactly | native_module/src/rcon_protocol.cpp:40 | The fallback cut is taken exactly when 4086 continuation bytes in a row follow the first byte, so never in well-formed text. |
| RconProtocol.ChunksRebuildText | native_module/src/rcon_protocol.cpp:36-43 | For every text, malformed or not, the chunks concatenate to it and have 1 to 4086 bytes. |
| RconProtocol.GreedyFromAnywhere | native_module/src/rcon_protocol.cpp:37-43 | From any position the greedy splitter needs no more packets than any boundary split of the whole text. |
| RconProtocol.GreedyIsOptimal | native_module/src/rcon_protocol.cpp:37-43 | No split at boundaries into pieces that fit uses fewer packets, for any text that has such a split. |
| RconProtocol.WellFormedChunks | native_module/src/rcon_protocol.cpp:37-43 | Chunks of well-formed text are well-formed, all but the last have at least 4083 bytes, and there are at most ceil(n/4083). |
| RconProtocol.FewestPackets | native_module/src/rcon_protocol.cpp:28-45 | Among all splits of a text into well-formed pieces of at most 4086 bytes, the splitter's is one and is shortest. |
| RconProtocol.FindNul | native_module/src/rcon_protocol.cpp:50 | The search finds the first NUL of the range, or its end. |
| RconProtocol.DecodePacketBody | native_module/src/rcon_protocol.cpp:47-63 | The method computes the decoding function: short bodies, missing terminators and embedded NULs give no packet. |
| RconProtocol.DecodeExactly | native_module/src/rcon_protocol.cpp:47-63 | A body decodes to a packet if and only if it is that packet's encoding and the payload has no NUL. |
| RconProtocol.FrameExactly | native_module/src/rcon_server.cpp:68-91 | Reading a frame yields packet p and rest r if and only if the stream is the encoding of p followed by r, with at most 8182 NUL-free payload bytes. |
| RconProtocol.StreamRoundTrip | native_module/src/rcon_server.cpp:68-91 | A concatenation of sendable packets is read back as exactly that list, whatever follows. |
| RconProtocol.ReadAllIsSendable | native_module/src/rcon_server.cpp:77-90 | Nothing but packets within the limits ever comes out of a stream. |
| RconProtocol.ResponseRoundTrip | native_module/src/rcon_protocol.cpp:28-63 | For every NUL-free text the response packets read back with the request id and type 0, and their payloads concatenate to the text. |
| RconProtocol.ResponseReadableExactly | native_module/src/rcon_protocol.cpp:28-63 | A response reads back as its packets if and only if the text has no NUL. |
| RconServer.Socket.Recv | native_module/src/rcon_server.cpp:40-47 | One receive delivers between one and the requested bytes, next in order, or a non-positive result. |
| RconServer.Socket.Send | native_module/src/rcon_server.cpp:58-62 | One send takes between one and all of the bytes, or fails. |
| RconServer.RecvExact | native_module/src/rcon_server.cpp:35-51 | Under any fragmentation the buffer holds exactly the next bytes of the stream; failure means a broken connection or a stream that is too short. |
| RconServer.SendAll | native_module/src/rcon_server.cpp:53-66 | Under any partial sends all bytes are sent once and in order, or a strict prefix and the connection is broken. |
| RconServer.RecvPacket | native_module/src/rcon_server.cpp:68-91 | The reassembled packet is the one the whole stream determines, and the stream advances past it. |
| RconServer.ReceiveAll | native_module/src/rcon_server.cpp:68-91 | Receiving until nothing is left gives, under any fragmentation, exactly the packets of the stream: the inverse of sending them. |
| RconServer.SendPackets | native_module/src/rcon_server.cpp:162-171 | The packets of a response are sent in order until a send fails. |
| RconServer.Await | native_module/src/rcon_server.cpp:148-160 | The text is read from the promise of the command itself: its own result if the game thread drained during the wait, and then every pending promise holds its own command's result; else the timeout text, and all are still unset. |
| RconServer.Pass | native_module/src/dllmain.cpp:520-652 | A pass of the game thread sets every pending promise to the result of its own command. |
| RconServer.AskGame | native_module/src/rcon_server.cpp:148-160 | The command is enqueued with RCON authority, and the text is, word for word, what its dispatch returned, the text for the exception it threw, or the timeout text. |
| RconServer.ServeCommand | native_module/src/rcon_server.cpp:148-171 | A command is enqueued with RCON authority and answered by the packets of what its own promise holds when the wait ends, or of the timeout text. |
| RconServer.Turn | native_module/src/rcon_server.cpp:133-176 | One turn of the loop advances the transcript by one packet, and ends the loop only with what is sent a prefix of it. |
| RconServer.CommandLoop | native_module/src/rcon_server.cpp:133-176 | The loop terminates and sends and enqueues exactly what the rest of the stream determines, or a prefix if the network breaks. |
| RconServer.HandleConnection | native_module/src/rcon_server.cpp:93-179 | The connection sends and enqueues exactly its transcript, or a prefix if the network breaks; the replies in it are the results of those commands, or the timeout text, for every schedule of the game thread. |
| RconServer.ServeAnswersExecs | native_module/src/rcon_server.cpp:133-176 | The command loop answers the EXECCOMMAND packets of the stream, in order, and nothing else. |
| RconServer.SessionExactly | native_module/src/rcon_server.cpp:93-179 | Nothing is enqueued unless the first packet is an AUTH with the password; then each EXECCOMMAND is enqueued in order and answered by one group of packets. |
| RconServer.ClientRecoversReplies | native_module/src/rcon_server.cpp:162-171 | A client reading the sent bytes gets exactly the auth response and, per request, a non-empty group with its id and type 0 that concatenates to the reply. |
| RconServer.SessionIsReadBack | native_module/src/rcon_server.cpp:93-179 | With answers free of NULs, all a session sends reads back as its packets, and per request as a group with its id that is the whole reply. |
| RconServer.Conversation | native_module/src/rcon_server.cpp:93-179 | A client that receives what the server sent gets exactly the packets of the session, if the network holds, under any fragmentation both ways. |
| CommandQueue.Promise.SetValue | native_module/src/command_queue.hpp:19-24 | A promise is set once; the precondition that it is unset is met by every caller. |
| CommandQueue.Queue.Enqueue | native_module/src/command_queue.hpp:32-46 | Without RCON authority the future is ready with the refusal and nothing is queued; with it the command is appended with a fresh unset promise. |
| CommandQueue.Queue.Drain | native_module/src/command_queue.hpp:50-56 | Draining returns all pending commands in order and leaves none. |
| CommandQueue.AllAuthorized | native_module/src/dllmain.cpp:526-530 | When all entries are authorised, the texts that reach a handler are all the texts, in order. |
| CommandQueue.AnswerExactly | native_module/src/dllmain.cpp:526-650 | Word for word: the refusal, the fixed texts of the two capture sentinels, the text the dispatch returned, or the text for the exception it threw. |
| CommandQueue.GameThread.DispatchOne | native_module/src/dllmain.cpp:534-650 | One item: an unauthorised one is refused without dispatch; otherwise it is dispatched once and its promise is set to exactly the returned text, the exception text or the sentinel text. |
| CommandQueue.GameThread.DispatchBatch | native_module/src/dllmain.cpp:523-651 | Every promise of the batch is set exactly once to its own answer, the text its own dispatch returned, and the authorised texts are dispatched in order, whatever each dispatch does. |
| CommandQueue.GameThread.DrainAndDispatch | native_module/src/dllmain.cpp:520-652 | After a tick nothing is pending, everything ever accepted has been dispatched in order, and every drained promise holds, word for word, what its own dispatch returned or the text for its exception. |
| CommandQueue.CaptureIsOnExactly | native_module/src/dllmain.cpp:566-649 | After a batch the call capture is on exactly when a start sentinel, or the state before, was followed only by diagnostics that returned. |
| Handoff.NextKeepsInv | native_module/src/command_queue.hpp:32-56 | Every step of worker or game thread keeps order, one-shot promises, result placement, authority and reply association. |
| Handoff.EveryRunKeepsInv | native_module/src/rcon_server.cpp:148-176 | The invariant holds after every interleaving of connections, commands, timeouts, drains and dispatches. |
| Handoff.FirstInFirstOut | native_module/src/dllmain.cpp:520-652 | In every run, commands run ++ drained ++ queued are the authorised enqueues in order, and each runs at most once. |
| Handoff.PassedExactly | native_module/src/rcon_server.cpp:114-128 | In every run a connection counts as authenticated if and only if some event presented the right password on it while it was fresh. |
| Handoff.AskedExactly | native_module/src/rcon_server.cpp:143-148 | Every authorised request of a run is a command that some event received on its connection after authentication. |
| Handoff.OnlyAuthenticatedCommandsRun | native_module/src/rcon_server.cpp:114-148 | In every run, a command that runs was received on a connection on which an earlier event presented the right password. |
| Handoff.LoginExactly | native_module/src/rcon_server.cpp:114-128 | A login leaves the worker serving commands if and only if the password matches and the welcome was sent; a wrong password sends it back to listening. |
| Handoff.ConnectionsExactly | native_module/src/rcon_server.cpp:133-147 | A connection is taken up only while listening and given up only between commands; other packets change nothing. |
| Handoff.CommandsExactly | native_module/src/rcon_server.cpp:143-148 | Without an authenticated connection a command changes nothing; with one it is asked with its id and text, and the worker waits for it. |
| Handoff.DispatchExactly | native_module/src/dllmain.cpp:523-650 | A dispatch takes the first drained command: an authorised one runs and its promise tells, word for word, how it ended; any other is refused and does not run. |
| Handoff.UnauthorizedExactly | native_module/src/command_queue.hpp:32-40 | An enqueue without RCON authority gets the refusal at once, and nothing is queued for it. |
| Handoff.RepliesExactly | native_module/src/rcon_server.cpp:150-171 | The wait ends with the value of the command's own promise if it is set, else with the timeout text, and the connection goes on if the reply was delivered. |
| Handoff.CommandIsAnswered | native_module/src/rcon_server.cpp:93-176 | From every reachable state in which the worker listens, the right password and a command, then one pass of the drain loop, send exactly that command's result with its id. |
| Handoff.AtMostOnce | native_module/src/command_queue.hpp:32-46 | In every run, each promise is set at most once, and exactly once when it reads as ready. |
| Handoff.NothingIsLost | native_module/src/dllmain.cpp:520-652 | When nothing is queued or drained, every request has its answer. |
| Handoff.RepliesBelongToTheirRequest | native_module/src/rcon_server.cpp:150-163 | In every run, a reply has the connection and id of its request, its text is word for word what that command's dispatch returned, the text for its exception, or the timeout text, and no request is answered twice. |
| Handoff.RunExtends | native_module/src/command_queue.hpp:32-56 | History only grows and a set promise keeps its value, over every continuation of a run. |
| Handoff.LateResultIsNeverSent | native_module/src/rcon_server.cpp:152-160 | After a timeout reply, no continuation sends that command's late result on any connection. |
| Handoff.DispatchesAnswerInOrder | native_module/src/dllmain.cpp:534-651 | The dispatch steps of a drained batch answer its commands in order, each with its own outcome, which is the contract of the drain loop. |
| Handoff.TwoPassesAnswerEverything | native_module/src/dllmain.cpp:520-652 | From every reachable state two drain passes answer everything asked, even if every dispatch throws. |
| Handoff.EnqueueIsACommand | native_module/src/command_queue.hpp:32-46 | Enqueueing on the queue object is the state machine's command step: queued tickets and promises stay in agreement. |
| Handoff.PassIsARun | native_module/src/dllmain.cpp:520-652 | A pass of the drain loop on the objects is one drain step and a dispatch step per command of the state machine, and every promise ends as that ticket's cell. |
| ResponseScope.Thread.Open | native_module/src/response_buffer.hpp:26 | Opening a scope pushes a fresh buffer on the chain and changes no other. |
| ResponseScope.Thread.Close | native_module/src/response_buffer.hpp:27 | Closing restores the previous scope with its buffer as it was. |
| ResponseScope.Thread.Failure | native_module/src/response_buffer.hpp:31 | A failure marks the innermost scope only, and none if there is none. |
| ResponseScope.Thread.Accept | native_module/src/response_buffer.hpp:30-51 | A reply is handled exactly when its non-null key is the innermost scope's, and then only that buffer changes. |
| ResponseScope.AcceptInto | native_module/src/response_buffer.hpp:38-51 | The buffer update follows the specification for every text and allocation failure, never exceeding 65536 bytes. |
| ResponseScope.AppendInto | native_module/src/response_buffer.hpp:46-49 | The bounded append never underflows the room left and keeps the bound. |
| ResponseScope.RecordedBounds | native_module/src/response_buffer.hpp:38-50 | Over any replies the buffer stays within 65536 bytes, the count is the number of replies, and more than 128 always set the flag. |
| ResponseScope.AcceptedExactly | native_module/src/response_buffer.hpp:38-50 | A text that fits is appended whole with its newline; one that does not sets the truncation flag. |
| ResponseScope.FailsExactly | native_module/src/response_buffer.hpp:36-49 | An accept fails if and only if memory runs out on the newline or the text it appends, and then it takes no text and leaves the truncation flag. |
| ResponseScope.NothingFailsWithoutCause | native_module/src/response_buffer.hpp:30-51 | With memory for every reply and no reported failure, the failure flag stays clear. |
| ResponseScope.NothingLostSilently | native_module/src/response_buffer.hpp:38-50 | Without a failure the truncation flag is clear if and only if at most 128 replies fit in 65536 bytes, and then the buffer is exactly their newline join. |
| ResponseScope.AcceptJoinsACutExactly | native_module/src/response_buffer.hpp:39-47 | One accepted reply leaves a join of the buffer with a boundary cut of its text if and only if it does not append a newline for a text of which then not one code point fits. |
| ResponseScope.TruncatedIsJoinOfCuts | native_module/src/response_buffer.hpp:38-50 | In any case without failure the pieces taken are boundary cuts of the first 128 replies in order; the buffer is their join if and only if the log does not end with an orphan newline, and else their join and one newline, with the flag set. |
| ResponseScope.OrphanStaysExactly | native_module/src/response_buffer.hpp:38-47 | After an orphan newline the buffer is unchanged if and only if each later reply comes after 128 others or has no code point that fits in the room the orphan left. |
| ResponseScope.NoOtherCutsFit | native_module/src/response_buffer.hpp:38-50 | Of replies without newlines, the buffer is the join of some boundary cuts of them, whichever, if and only if the log does not end with an orphan newline. |
| ResponseScope.OrphanStep | native_module/src/response_buffer.hpp:39-46 | An orphan newline is last in the buffer if and only if the last entry leaves one, or it was last before and nothing was appended. |
| ResponseScope.OrphanExists | native_module/src/response_buffer.hpp:39-46 | A reply of 65535 bytes and then a one-byte reply end with an orphan newline, and no cuts of the two join to what the buffer has. |
| ResponseScope.OtherCutsMayFit | native_module/src/response_buffer.hpp:39-46 | With newlines in replies, other cuts than those taken may join to a buffer that ends with an orphan newline. |
| ResponseScope.OutputStaysText | native_module/src/response_buffer.hpp:44-49 | Well-formed NUL-free replies leave a well-formed NUL-free buffer, cut or not, failed or not. |
| ResponseScope.CutFillsTheBuffer | native_module/src/response_buffer.hpp:42-50 | If a prefix of the replies, of at most 128, was cut for lack of room, at least 65533 bytes are filled at the end, whatever failed or follows. |
| ResponseScope.LongTextIsCut | native_module/src/response_buffer.hpp:44-49 | A text longer than a whole buffer sets the truncation flag, or the failure flag if memory runs out on it. |
| ResponseScope.PerformOnThread | native_module/src/response_buffer.hpp:18-51 | The heap-linked scopes refine the stack of values, for every well-nested run including exceptional exits. |
| ResponseScope.OnlyInnermostChanges | native_module/src/response_buffer.hpp:26-51 | A run changes only the innermost scope, and that by its own matching replies and failures in order. |
| ResponseScope.ScopeCapturesItsBody | native_module/src/response_buffer.hpp:26-51 | A scope ends up with exactly what was said to its own key while it was innermost. |
| Utf16.LeadIsEncoding | native_module/src/response_buffer.hpp:9 | Every code point the well-formedness test accepts is the encoding of a scalar value, so the model's UTF-8 is that of RFC 3629. |
| Utf16.TranscodeExactly | native_module/src/response_capture.cpp:45-50 | Transcoding succeeds exactly on paired UTF-16; the result is well-formed UTF-8 for the same scalar values, at least as long as the input in units, NUL-free if it is. |
| Utf16.Utf8Layout | native_module/src/response_capture.cpp:45-50 | The bytes of every scalar value are those of the table of RFC 3629, bit field by bit field. |
| Utf16.PairedExactly | native_module/src/response_capture.cpp:45-46 | UTF-16 is valid if and only if every surrogate is next to its other half. |
| Utf16.ScalarsEncodeBack | native_module/src/response_capture.cpp:45-46 | Encoding the scalar values of valid UTF-16 again gives the same units. |
| Utf16.PrefixStaysPaired | native_module/src/response_capture.cpp:43 | Dropping a trailing high surrogate makes every prefix of valid UTF-16 valid. |
| Utf16.PrefixScalars | native_module/src/response_capture.cpp:39-43 | Such a prefix carries a prefix of the scalar values of the whole. |
| ResponseCapture.Hook.Receive | native_module/src/response_capture.cpp:26-55 | A reply is passed on once unchanged or handled in the innermost scope, never both. |
| ResponseCapture.Hook.Run | native_module/src/response_capture.cpp:26-55 | Over any nested traffic of raw replies the chain of scopes ends as the value semantics says, and exactly the replies not for the innermost scope are passed on, unchanged and in order. |
| ResponseCapture.Hook.Capture | native_module/src/registry_dispatch.cpp:396-406 | Opening a scope, letting any traffic through the hook, reading and leaving it yields what was captured of the replies addressed to it, and restores the stack. |
| ResponseCapture.HeardAreAddressed | native_module/src/response_capture.cpp:29-51 | A scope records one entry for each reply addressed to it, in order, and each text is what is captured of that reply, as NUL-free UTF-8. |
| ResponseCapture.ReadMessage | native_module/src/response_capture.cpp:33-50 | The guarded read computes the captured text, or reports a failure for a bad header, short memory or exhausted memory. |
| ResponseCapture.ReadText | native_module/src/response_capture.cpp:40-50 | The in-place terminator removal, surrogate repair and sanitising loop match their specification. |
| ResponseCapture.SanitizedExactly | native_module/src/response_capture.cpp:44 | Every unit from 32 up, newline, return and tab are kept, and only the other controls become blanks. |
| ResponseCapture.RepairedExactly | native_module/src/response_capture.cpp:42-43 | A whole text loses only its terminator, a cut one only half a pair at its end. |
| ResponseCapture.CapturedExactly | native_module/src/response_capture.cpp:33-51 | A reply is captured if and only if its header is sound and, unless empty, its units are readable and no unpaired surrogate is left after the repair; then as NUL-free UTF-8 with the characters of what is left, controls blanked. |
| ResponseCapture.ValidReplyIsCaptured | native_module/src/response_capture.cpp:38-51 | Every valid reply is captured: with all its own characters, controls blanked, if the bounded read saw all of it, else with the first of them, more than 65536 bytes. |
| ResponseCapture.PlainReplyIsVerbatim | native_module/src/response_capture.cpp:38-51 | A reply without controls other than tab, newline and return arrives with exactly its scalar values. |
| ResponseCapture.AsciiReplyIsVerbatim | native_module/src/response_capture.cpp:38-51 | An ASCII reply without other controls arrives byte for byte. |
| ResponseCapture.LongReplyIsCaptured | native_module/src/response_capture.cpp:33-51 | A reply of more than 65538 units, terminated or not, is captured from its first 65538 units alone if they start valid UTF-16, as more than 65536 bytes with a prefix of its scalar values. |
| ResponseCapture.BoundedReadIsVisible | native_module/src/response_capture.cpp:38-51 | In every scope, failed before or not, such a reply sets the truncation flag, or the failure flag when memory runs out on it. |
| DispatchRequest.TrimText | native_module/src/dispatch_request.hpp:30-32 | The two loops compute the trimmed text. |
| DispatchRequest.TrimExactly | native_module/src/dispatch_request.hpp:30-32 | Trimming removes exactly the blanks, tabs, returns and newlines at both ends; nothing is left only of a text made of those. |
| DispatchRequest.Tokenize | native_module/src/dispatch_request.hpp:33-53 | The one-pass loop computes the scan of the whole text, with the same error on the same input. |
| DispatchRequest.RouteTokens | native_module/src/dispatch_request.hpp:54-83 | The branches compute the routing of the token list. |
| DispatchRequest.LowerAscii | native_module/src/dispatch_request.hpp:9-13 | Only A to Z change, each to its lower-case letter. |
| DispatchRequest.ParseDispatchRequest | native_module/src/dispatch_request.hpp:25-84 | The whole parser is size check, trim, scan and routing, for every text. |
| DispatchRequest.RouteExactly | native_module/src/dispatch_request.hpp:54-82 | Which token lists lead to each action, if and only if, and what an execute or catalogue request carries. |
| DispatchRequest.RouteRefusesExactly | native_module/src/dispatch_request.hpp:57-82 | Each reason to turn a token list away has its exact cause, and an unknown verb is no error. |
| DispatchRequest.CommandNameExactly | native_module/src/dispatch_request.hpp:78-80 | A command name is a non-empty word of ASCII letters, digits and underscores. |
| DispatchRequest.RejectionIsTrue | native_module/src/dispatch_request.hpp:36-53 | A rejection by the tokenizer names what is wrong: the first forbidden byte and its kind, a quote still open at the end, no word at all, or room for an oversized token or too many. |
| DispatchRequest.ParseExactly | native_module/src/dispatch_request.hpp:29-84 | A request of more than 8192 bytes, one of white space only, one the tokenizer rejects, and one that is routed: each gets its own answer. |
| RequestGrammar.FeedDerivation | native_module/src/dispatch_request.hpp:36-53 | Every derivation of the grammar within the caps is scanned to exactly its tokens, from any loop state. |
| RequestGrammar.Derive | native_module/src/dispatch_request.hpp:36-53 | Every accepted text has a derivation with those tokens, within the caps. |
| RequestGrammar.TokenizerAcceptsExactlyTheGrammar | native_module/src/dispatch_request.hpp:33-53 | The tokenizer accepts exactly the texts of the grammar within the caps and yields their tokens, in both directions. |
| RequestRoundTrip.TokenizerRoundTrip | native_module/src/dispatch_request.hpp:33-53 | Any printable token list within the caps, canonically quoted, tokenizes back to itself. |
| RequestRoundTrip.RequestRoundTrip | native_module/src/dispatch_request.hpp:25-84 | A quoted request of at most 8192 bytes is routed on exactly its tokens. |
| RequestRoundTrip.ExecRoundTrip | native_module/src/dispatch_request.hpp:72-82 | An execute request with a SteamID, a command name and up to 64 arguments arrives as just that. |
| RequestRoundTrip.RunsScanTheSame | native_module/src/dispatch_request.hpp:36-53 | From any loop state and before any rest, two runs of blanks outside quotes scan the same, also in texts that are rejected. |
| RequestRoundTrip.BlankRunsDoNotMatter | native_module/src/dispatch_request.hpp:25-84 | In every text, accepted or not, a run of blanks outside quotes may be made longer or shorter without changing the answer, as long as the size cap holds. |
| RequestRoundTrip.OuterBlanksDoNotMatter | native_module/src/dispatch_request.hpp:30-32 | White space around a request changes nothing as long as the size cap holds. |
| GodmodeRequest.WordStream.Extract | native_module/src/godmode_request.hpp:22-24 | One extraction yields the next word and leaves the later ones, or fails and leaves its target alone. |
| GodmodeRequest.Parse | native_module/src/godmode_request.hpp:20-44 | The successive extractions compute the meaning of the words of the text. |
| GodmodeRequest.WordsOfSpread | native_module/src/godmode_request.hpp:22-24 | Words written with any white space around and between them are read as just those words. |
| GodmodeRequest.MeaningExactly | native_module/src/godmode_request.hpp:28-43 | Which word lists are accepted as execute, state or prepare, if and only if, and what they carry. |
| GodmodeRequest.ParsersNeverCompete | native_module/src/admin_dispatch.cpp:118-119 | Every text the GodMode parser claims is unknown or invalid to the dispatcher's parser. |
| RegistryDispatch.CollectCommands | native_module/src/registry_dispatch.cpp:296-328 | The loop lists each command class once, classified by its metadata, in registry order. |
| RegistryDispatch.Commands | native_module/src/registry_dispatch.cpp:279-331 | The result is a permutation of the listed commands, sorted by lower-case verb, or the failure. |
| RegistryDispatch.Find | native_module/src/registry_dispatch.cpp:363-371 | The lookup reports ambiguity for more than one match, else the only match or none. |
| RegistryDispatch.LookupIgnoresOrder | native_module/src/registry_dispatch.cpp:329 | The order the sort leaves does not change which commands match. |
| RegistryDispatch.CountMismatchExactly | native_module/src/registry_dispatch.cpp:373-377 | For sound metadata a count passes if and only if it is between required and declared or declared plus whole repetitions. |
| RegistryDispatch.LookUp | native_module/src/registry_dispatch.cpp:363-372 | The command chosen is the one supported match of the whole registry. |
| RegistryDispatch.CheckTarget | native_module/src/registry_dispatch.cpp:378-394 | The target checks are made in order and agree with the decision function. |
| RegistryDispatch.Dispatcher.Execute | native_module/src/registry_dispatch.cpp:358-411 | A refused request calls no handler and changes nothing; an accepted one calls exactly one handler once, sets the latch on a fault, passes on foreign replies, and restores the scope stack. |
| RegistryDispatch.Dispatcher.Call | native_module/src/registry_dispatch.cpp:395-410 | The guarded call answers from its own scope's record, or latches on a fault. |
| RegistryGate.SupportedIsSound | native_module/src/registry_dispatch.cpp:321-325 | Every supported command has sound argument metadata and is enabled, shipping and server-side. |
| RegistryOffers.ClassifyExactly | native_module/src/registry_dispatch.cpp:310-326 | A class is supported if and only if its metadata is there and sound, it is enabled, shipping and server-side, and its native handler is recognised; each other classification has its exact cause. |
| RegistryOffers.ListingSucceedsExactly | native_module/src/registry_dispatch.cpp:295-307 | The listing succeeds if and only if every command class with a default object has a readable verb. |
| RegistryOffers.ListedExactly | native_module/src/registry_dispatch.cpp:295-328 | The registry is usable if and only if it has 1 to 4096 entries, all verbs are read and it offers some command; else the failure says which of these it is. |
| RegistryGate.ListingIsTheRegistry | native_module/src/registry_dispatch.cpp:295-328 | A command is listed if and only if some class, at its first occurrence in the registry, is a command with a default object and a verb, and it is that class classified. |
| RegistryGate.ClassesAreDistinct | native_module/src/registry_dispatch.cpp:297-301 | No command class is listed twice. |
| RegistryGate.ReachesExactly | native_module/src/registry_dispatch.cpp:360-395 | The gate chooses a listed command if and only if it is the only match, supported and sound, the count fits and the target is ready. |
| RegistryOffers.HandlerRunsExactlyWhen | native_module/src/registry_dispatch.cpp:360-395 | A request reaches the handler of a registered class if and only if that class is the only one with the verb in the whole registry, is usable, takes that many arguments, the target is ready and no fault has occurred. |
| RegistryOffers.EarlyRefusalsExactly | native_module/src/registry_dispatch.cpp:360-363 | The refusals for the latch, the build and the registry each have their exact cause. |
| RegistryOffers.CommandRefusalsExactly | native_module/src/registry_dispatch.cpp:363-377 | The refusals for an unknown, ambiguous or unavailable command and for the argument count each have their exact cause. |
| RegistryOffers.TargetRefusalsExactly | native_module/src/registry_dispatch.cpp:378-394 | The refusals about the player, the pawn, the executor, the arguments and the instance are given in order, each with its exact cause. |
| RegistryGate.NothingRunsAfterAFault | native_module/src/registry_dispatch.cpp:360-402 | In every run, after the first fault all later execute requests are refused by the latch. |
| RegistryGate.LatchedExactly | native_module/src/registry_dispatch.cpp:399-402 | In every run, the latch is set if and only if some handler faulted. |
| RegistryGate.RunAll | native_module/src/registry_dispatch.cpp:358-411 | Any requests run on one dispatcher: its latch, its handler calls and its answers are those of the run. |
| RegistryGate.NoInvocationAfterAFault | native_module/src/registry_dispatch.cpp:360-402 | In every run, the handler calls are those up to and including the one that faulted. |
| RegistryGate.ReplyExactly | native_module/src/registry_dispatch.cpp:404-410 | A reply word for word: the error line, the captured text, the two notes, or the fixed text when there is nothing of all that. |
| RegistryGate.TruncationIsAnnounced | native_module/src/registry_dispatch.cpp:404-410 | A reply is never empty, and a truncated or failed capture is announced at its end. |
| RegistryGate.CleanReplyIsVerbatim | native_module/src/registry_dispatch.cpp:404-410 | A successful call without flags answers with exactly the captured text. |
| RegistryGate.ReplyIsText | native_module/src/registry_dispatch.cpp:404-410 | The answer is NUL-free UTF-8 if the captured text is. |
| PlayerList.ConnectedPlayers | native_module/src/registry_dispatch.cpp:92-111 | It succeeds if and only if the reported SteamIDs are distinct and at most 1024, and then lists exactly those, strictly ascending. |
| PlayerList.ReportedIdsAreValid | native_module/src/registry_dispatch.cpp:102-106 | Every listed player is a controller that reports that valid SteamID. |
| PlayerList.FieldOf | native_module/src/registry_dispatch.cpp:79-84 | The in-place masking and cut compute the field. |
| PlayerList.FieldIsSafe | native_module/src/registry_dispatch.cpp:79-84 | A field has at most 512 bytes, no newline, bar or NUL, and is valid UTF-8 when the name was. |
| PlayerList.FieldExactly | native_module/src/registry_dispatch.cpp:79-84 | Byte by byte: the name's own bytes, a blank for each control, DEL and bar, up to the last code-point boundary within 512 bytes. |
| PlayerList.ReflectedExactly | native_module/src/registry_dispatch.cpp:58-69 | A reported string is converted if and only if it has at most 65536 units and no unpaired surrogate, and then to well-formed UTF-8 for the same scalar values. |
| PlayerList.ListPlayers | native_module/src/registry_dispatch.cpp:217-254 | The listing is produced if and only if the ids are reported, distinct and at most 1024 and, if there are players, profiles are reflected and every address and name can be converted; then it has the lines of exactly those players in order, or the fixed text. |
| PlayerList.ListLines | native_module/src/registry_dispatch.cpp:227-253 | The loop ends without a listing exactly when some listed player has a string that cannot be converted. |
| PlayerList.RecordsExactly | native_module/src/registry_dispatch.cpp:227-251 | A listed record has the id, the reported details and the reported name, character by character. |
| PlayerList.DetailsAreClean | native_module/src/registry_dispatch.cpp:231-250 | The optional data never contain a newline or bar if the engine's address and coordinate texts do not. |
| PlayerList.DecimalReadsBack | native_module/src/registry_dispatch.cpp:232-242 | Printed numbers read back as themselves, sign included. |
| PlayerList.DetailsReadBack | native_module/src/registry_dispatch.cpp:232-250 | Profile id, address, balances, ping and coordinates are all read back from the details of a line, present or absent, when the address is one word. |
| PlayerList.ReadBackLine | native_module/src/registry_dispatch.cpp:231-251 | Splitting a line at its first two bars gives back id, data and name field. |
| PlayerList.ListingIsRecoverable | native_module/src/registry_dispatch.cpp:227-252 | A client that splits at newlines and bars recovers every record in order, for all names; a name of at most 512 bytes without controls, DEL and bar is read back itself. |
| PlayerList.ListingCounts | native_module/src/registry_dispatch.cpp:251 | There are exactly one newline and two bars per player. |
| PlayerList.EveryListingIsRecoverable | native_module/src/registry_dispatch.cpp:217-254 | Every listing that can be produced is recoverable, with these counts and with the numbers in it, or is the fixed empty text. |
| GodmodeTrace.Tracer.CaptureExecute | native_module/src/godmode_trace.cpp:144-169 | For every tree of nested calls the original runs exactly once per call in the same order, and its ending is returned. |
| GodmodeTrace.Tracer.ObserveInterface | native_module/src/godmode_trace.cpp:193-207 | A lookup is noted in the open record while the counter is below eight. |
| GodmodeTrace.Tracer.Tick | native_module/src/godmode_trace.cpp:230-236 | An expired window ends, and a pending batch is cleared only when it was written. |
| GodmodeTrace.Tracer.Start | native_module/src/godmode_trace.cpp:213-229 | The trace is armed exactly when hooked, nothing is pending after a tick, and the arming record was written. |
| GodmodeTrace.Tracer.Stop | native_module/src/godmode_trace.cpp:244-249 | Stopping disarms the trace and then ticks. |
| GodmodeTrace.NothingNestedIsRecorded | native_module/src/godmode_trace.cpp:147-148 | Inside a recorded call nothing is recorded; only its record and the event counter change. |
| GodmodeTrace.EventsOfBody | native_module/src/godmode_trace.cpp:193-199 | The events noted are a closed function of the number of lookups, with the 32-bit counter wrapping. |
| GodmodeTrace.RecordedExactly | native_module/src/godmode_trace.cpp:147-148 | A call that nests no other is recorded if and only if it is made on the game thread with the trace armed, its window open, no record open and fewer than four calls. |
| GodmodeTrace.CapturedCallExactly | native_module/src/godmode_trace.cpp:149-168 | A call while armed is counted; one that returns and can be kept adds one record with the next number, the noted events and the result; the fourth to return disarms the trace. |
| GodmodeTrace.TickExactly | native_module/src/godmode_trace.cpp:230-236 | A tick closes an expired window and writes the pending records, all and in order, whenever they can be written. |
| GodmodeTrace.StartExactly | native_module/src/godmode_trace.cpp:213-229 | Starting arms for 120 seconds and four calls with nothing pending, if it can; otherwise it is no more than a tick. |
| GodmodeTrace.InvisibleUnlessArmed | native_module/src/godmode_trace.cpp:146-148 | Calls on other threads, and all calls while the trace is not armed or has its four calls, change nothing. |
| GodmodeTrace.RecordCapExactly | native_module/src/godmode_trace.cpp:149-195 | The record of a recorded call has at most eight events if and only if the call, nested calls included, makes at most 2^32 lookups. |
| GodmodeTrace.EventCapFails | native_module/src/godmode_trace.cpp:195 | A call of 2^32 + 1 lookups, made while the trace is armed, leaves a record with nine events. |
| GodmodeTrace.EveryRunKeepsInv | native_module/src/godmode_trace.cpp:144-249 | The bounds and the conservation of records hold after every run of calls, ticks, starts and stops. |
| GodmodeTrace.Take | native_module/src/godmode_trace.cpp:144-249 | The observer, started afresh and taken through any events, is in the state of the run the theorems are about. |
| GodmodeTrace.TraceIsBoundedAndLossless | native_module/src/godmode_trace.cpp:144-249 | At most four records per arming in call order, pending never exceeds calls, and every pushed record is written or pending. |
| GodmodeTrace.EveryRecordIsCapped | native_module/src/godmode_trace.cpp:144-249 | In every run whose calls make at most 2^32 lookups each, every record ever pushed has at most eight events. |
| CommandPath.DispatchCommand | native_module/src/admin_dispatch.cpp:114-120 | Handlers are called for authorised execute requests only, exactly as the gate decides on the parsed request; GodMode texts and all others call none. |
| CommandPath.AskedIsCalledExactly | native_module/src/registry_dispatch.cpp:358-427 | A printed execute request is parsed to its id, name and arguments, and reaches the handler of a command if and only if that command is runnable. |
| CommandPath.AskAndRun | native_module/src/admin_dispatch.cpp:114-120 | A printed execute request on a ready environment adds exactly one handler call: of that class, for that player, with the arguments as written. |
| Pipeline.TextReachesClient | native_module/src/rcon_protocol.cpp:28-63 | Any text answer becomes packets of valid UTF-8 within 4096-byte bodies that read back to the whole answer. |
| Pipeline.AnswerIsText | native_module/src/registry_dispatch.cpp:396-410 | Whatever traffic reaches the hook, readable or not, the answer is NUL-free UTF-8 of bounded size. |
| Pipeline.AnswerReachesClient | native_module/src/response_capture.cpp:31-51 | From the raw replies of the game to the client: at most 17 packets of valid UTF-8 with the request id, which together are the answer. |
| Pipeline.ClientGetsEveryReply | native_module/src/response_capture.cpp:31-51 | Without failure or truncation the client gets the newline join of every reply addressed to the command, in order, each valid one with all its characters, controls replaced by blanks. |

## Left out

- Sockets are an abstract byte stream: listening, accepting, start and stop of the server thread and configuration loading are not modelled.
- Native calls, reflection, memory probing, detours, signatures and structured exceptions are oracles that return, fault or report what they find; reply addresses and capture stack frames are not part of a trace record.
- The diagnostic sentinels of the drain loop are one abstract outcome; only the two that switch the call capture are told apart.
- RconServer.Await: the game thread drains during a wait or not, as a parameter says; that a pass can overlap the end of a wait is in `Handoff`, which sees a reply as one step and not its single packets.
- Handoff: a promise abandoned at shutdown, which would throw in the worker, is not modelled.
- ResponseScope.AcceptInto: the 64-bit message counter is unbounded here, so its wrap-around after 2^64 replies is not modelled.
- RegistryDispatch.Commands: `std::sort` is a stable insertion sort here; clients of it use only that the result is a sorted permutation.
- RegistryDispatch.CheckTarget: the two ways a player listing can fail are one refusal.
- PlayerList.ListPlayers: coordinates and connection addresses are text the engine has formatted; floating-point formatting is not modelled.
- GodmodeTrace.Tracer.Tick: a batch write that fails part-way may leave a fragment in the log file, which is not part of `written`; record texts are reduced to number, events and result.
- CommandPath.DispatchCommand: a GodMode request ends at its parser; the native steps behind it read and patch engine memory that is not part of this model, and are not counted as handler calls.
- The command catalogue, weather and time texts and the permission dumps print what the engine reports, and no other modelled part reads them back.
- The PE cross-reference scanner is a separate offline tool that shares no code with the module.
