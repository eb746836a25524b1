# Pink, modelled and verified in Dafny

Pink is a networking library. This project models its incremental protocol engines and its small
concurrent protocols, and proves what they are for: that the way a socket cuts or accepts bytes does not
matter, that nothing is lost, duplicated or reordered, and that no interleaving of threads strands work.

`dafny verify dfyconfig.toml` checks everything.

## The components and their main results

| files | component | main result |
|---|---|---|
| `RedisRequests`, `RedisParser`, `RedisCuts` | the resumable Redis request parser | segmentation independence, for well-formed and malformed streams, and exactly when it holds; conservation of commands |
| `RedisInline`, `RedisMalformed` | single requests, in terms of their bytes | a line of words is dealt as exactly those words; what is refused, what is not looked at, and what failing handlers lead to |
| `RedisSerializer`, `RedisFormat`, `RedisFormatMeaning` | the two command serializers | printed commands, cut anywhere, are parsed back exactly; a format string means its words, with the values that were put in |
| `RedisCli`, `RedisReplyCuts` | the client's reply reader | a second, independent reader returns the same vectors and consumes exactly their bytes; which cuts of a reply it survives |
| `SplitArgs` | the inline splitter | four ways of writing an argument, mixed freely, are undone |
| `PbFraming`, `PbConn` | the protobuf connection | end to end over any partial reads and writes, the receiver deals the sender's responses |
| `ReplyProtocol` | writer threads against the event loop | no interleaving strands a response |
| `PubSub` | the publish handshake | each `Publish` returns the count of its own delivery, within twelve steps of holding the mutex |
| `Scheduling`, `BgThread`, `ThreadPool` | the schedulers | conservation, submission order, timer discipline, a terminating drain |
| `Wakeups` | mutex and condition variables of the schedulers | no wake-up is lost while they run; exactly whom a shutdown leaves waiting, and when the mutex stays locked |
| `HttpHeader`, `HttpRequest`, `HttpSenders` | HTTP requests and responses | header round trip, body streaming and exactly when a request is refused, both senders put exactly header then body on the wire |
| `BipartiteMatching` | gmock's matcher pairing | one pass of augmenting paths yields a maximum matching |

Objects whose methods update fields are classes with the source's fields. Each `read` and `write` is a
method that may give any legal amount or any error, so a contract about a method, or about one of the
`Any…Run` methods that call others in any order, speaks of every run. Concurrent protocols are state
machines whose transitions are single critical sections or single accesses to shared fields; their theorems
quantify over every sequence of enabled transitions. Loops over buffers are proved against functions of the
bytes, and the theorems are proved about those functions.

Callbacks are parameters: `DealMessage` and `Complete` of the Redis parser are functions of all their calls
so far, and every other handler returns an arbitrary value. Logs such as `dealt`, `wire` or `delivered` record
what went through a callback or a socket.

Integers are unbounded; the 32-bit length tag and buffer size of the protobuf connection and the 32-bit wait of
the schedulers are written out.

### Where the source does less than its comments or its users would expect

- Cut right behind a bulk length of -1, the Redis parser forgets the line, because `bulk_len_ == -1` also means
  that no length has been read; uncut, the line throws (`MinusOneDependsOnTheCut`). Lengths of -2 and below throw
  for every cut (`NegativeBulk`). A stream of multibulk requests is independent of the cut if and only if no
  length of -1 with bytes behind it, taken away, would lead elsewhere (`CutsDoNotMatterExactly`). Counts of zero
  and below are covered. As `Complete` is called once per chunk that ends at a command boundary, the theorem is
  about handlers whose `Complete` returns 0.
- After an empty request `*0` the next line is read as a count or as an inline command according to the cut
  (`EmptyRequestThenInlineDependsOnTheCut`). For what comes up to the end of that line the cut is harmless if and
  only if it begins with a star, or is a complete line that is refused either way (`AfterEmptyRequestExactly`).
- The splitter of inline requests sees the rest of the buffer instead of one line: a request behind an inline line in
  the same buffer is dealt as it is, and its bytes are taken for arguments of the line as well
  (`InlineThenCommand`; `SwallowedRequest` shows it).
- A hexadecimal escape of the inline splitter means the byte it denotes exactly when both digits are decimal
  (`HexEscapeExact`).
- `%%` in a format string adds nothing instead of a percent sign, and is an error at the start of a word.
- The client reader consumes the type byte of an item that turns out to be incomplete. A reply of one item is
  read right if and only if it comes with one read (`OneReadExactly`), and a printed command if and only if every
  read ends between items (`CommandReadsExactly`); other replies are when every read does (`WholeItems`). So an
  item longer than the 16384 bytes of the buffer is never read right (`LongElementNeverRead`), and a command can
  be read right at all if and only if each of its items fits (`ReadableExactly`).
- The client reader takes a bulk string before all of it is buffered exactly when the length line makes up for what
  is missing (`BulkOutOfBoundsExactly`).
- A protobuf length above 2^32 - 4 wraps the new buffer size to 1, 2 or 3; the model reports `OutOfBounds` instead
  of the read behind the end of the buffer, whose size is a negative `remain_packet_len_` taken for a `size_t`. At
  2^32 - 4 the size wraps to 0, and whether that is refused depends on what `realloc` returns for it. Exactly
  these lengths are affected (`PbConn.GetRequest`, `AnyFirstTag`, and `WrappedTag` for the tag FF FF FF FD).
- A protobuf frame with an empty body is taken for a close: once all bytes are read, all bodies have been dealt if
  and only if none is empty, and those before the first empty one always are (`AnySmallRun`).
- An empty protobuf response is queued but never popped. If every write accepts something, `SendReply` writes the
  queue out if and only if there is no empty response in it, and otherwise does not return (`PbConn.SendReply`,
  status `Spins`; over whole runs `AnySendRun`; `EmptyResponseSpins` shows one).
- An HTTP request whose header is found by a read that takes the buffer past `kHTTPMaxHeader` is refused, even
  when the header alone is short (`ShortHeaderRefused`). It is received under every split of the reads if and
  only if header and body together fit into `kHTTPMaxHeader` (`NeverRefusedExactly`), and for any reads
  `AnyRequestRun` says whether it is. Before that test a NUL is written behind what was received; when such a
  read fills the buffer it lies one past its end (`FullBufferOverruns`), which no split of the reads brings about
  if and only if header and body together are shorter than the buffer (`NeverOverrunExactly`).
- Stopping a scheduler takes no mutex, so it can happen between looking and starting to wait. `StopThread` of the
  background thread signals each condition variable once. With one `StopThread` and no caller about to wait, none
  is left waiting if and only if at most one waited (`OneStopExactly`; `SecondCallerLeft` shows two). If a caller is
  about to wait, none is left if and only if none waited and the signal comes after that caller has started to wait
  (`OneStopBehindExactly`; `CallerLeftWaiting` shows one). For more signals see `CallersLeft` and
  `CallersLeftBehind`. The worker is left asleep if and only if it was about to sleep when its signal came
  (`StopReachesWorkerExactly`; `WorkerLeftAsleep` shows it).
- The thread pool signals all, and still leaves the one caller or worker that was about to wait
  (`StopAllCallersExactly`, `StopAllReachesWorkersExactly`; `PoolWorkerLeftAsleep` shows it).
- A worker leaves the mutex locked for good if and only if it found no ready task, a timer that is not due, and the
  stop flag set since it looked (`LeftLockedExactly`, `LockedForGood`; `MutexLeftLocked` shows it).

## Model

| member | source | states |
|---|---|---|
| ByteStrings.LowerIsLowerCased | pink/src/redis_parser.cc:391-394 | lower case by byte values: 65 to 90 are raised by 32, nothing else changes |
| ByteStrings.LowerNamed | pink/src/http_conn.cc:107-107 | a name without upper-case letters is what exactly the keys equal to it up to case become |
| ByteStrings.ParseLongExactly | pink/src/redis_parser.cc:161-168 | the strict reader accepts exactly the printed numerals |
| BipartiteMatching.MaxBipartiteMatchState.constructor | pink/test/gmock/src/gmock-matchers.cc:200-204 | no node is matched at first |
| BipartiteMatching.MaxBipartiteMatchState.TryAugment | pink/test/gmock/src/gmock-matchers.cc:259-285 | success: ilhs and no other node gains a partner, `left_` and `right_` stay mutually inverse along edges, nodes visited earlier and dead ends keep theirs; failure: nothing moves and the visited nodes are closed and fully taken; no search leaves a dead end; terminates by the unseen right nodes |
| BipartiteMatching.AugmentThrough | pink/test/gmock/src/gmock-matchers.cc:277-281 | taking a right node over from its holder, once the holder found another, keeps the links mutual |
| BipartiteMatching.MaxBipartiteMatchState.Compute | pink/test/gmock/src/gmock-matchers.cc:207-238 | after one pass over the left nodes the links are mutual and no matching of the graph is larger; every left node is unmatched when its turn comes |
| BipartiteMatching.ListPairs | pink/test/gmock/src/gmock-matchers.cc:231-237 | the result lists every link once |
| BipartiteMatching.DeadEndBoundsEveryMatching | pink/test/gmock/src/gmock-matchers.cc:210-221 | if the unmatched left nodes see only a dead end, no matching whatsoever is larger than the current one: why visiting each left node once is enough |
| BipartiteMatching.SplitCount | pink/test/gmock/src/gmock-matchers.cc:210-221 | a set of nodes touching every edge of a matching is at least as large as it |
| BipartiteMatching.FindMaxBipartiteMatching | pink/test/gmock/src/gmock-matchers.cc:307-310 | the pairs are a matching of true entries of the matrix, without repetition, at least as large as any other |
| BipartiteMatching.FindPairing | pink/test/gmock/src/gmock-matchers.cc:328-344 | true exactly when some matching covers every matcher |
| BipartiteMatching.CoveringIsFullSize | pink/test/gmock/src/gmock-matchers.cc:332-333 | comparing the flow with the number of matchers decides whether every matcher is covered |
| RedisRequests.BulksExtend | pink/src/redis_parser.cc:255-285 | cutting the buffer inside the bulk strings of a request: what is decided, an exception included, stays decided, what is cached resumes where it stopped |
| RedisRequests.MultibulkExtend | pink/src/redis_parser.cc:233-294 | the same for a whole request, with the one exception of a complete empty request |
| RedisRequests.BatchesDoNotMatter | pink/src/redis_parser.cc:374-399 | the commands gathered for Complete do not influence how parsing goes on |
| RedisRequests.RequestsExtend | pink/src/redis_parser.cc:349-402 | parsing a, caching, then parsing b is parsing a + b, for every cut |
| RedisRequests.SegmentationIndependence | pink/src/redis_parser.cc:312-341 | for every cut of a plain stream into non-empty chunks: the same DealMessage calls, and the same status and resumable state as one call on the whole stream, or both refused, or both thrown |
| RedisRequests.PartsAreDealt | pink/src/redis_parser.cc:349-388 | complete requests are dealt one by one in order, whatever follows them |
| RedisRequests.CommandsAreConserved | pink/src/redis_parser.cc:374-401 | on any bytes: the commands handed to Complete are the first ones shown to DealMessage, each name with 65 to 90 raised by 32 and nothing else changed, and the others wait in `argvs_` as they are |
| RedisRequests.NotThrownRequestOk | pink/src/redis_parser.cc:276-284 | a request that does not throw does not depend on the cut |
| RedisCuts.MultibulkIsLocal | pink/src/redis_parser.cc:233-294 | what a complete request consumes is read the same whatever follows it |
| RedisCuts.ThrowingLine | pink/src/redis_parser.cc:255-284 | only a negative length line with bytes behind it throws; cut there the request waits, and the cut is harmless unless the length is -1 and the rest leads elsewhere |
| RedisCuts.ForgottenLine | pink/src/redis_parser.cc:349-402 | where a stream that depends on the cut can be cut: one call on all of it throws, a call that ends there waits with the line forgotten |
| RedisCuts.TellingCut | pink/src/redis_parser.cc:312-341 | such a stream has a cut with another outcome than the whole |
| RedisCuts.CutsDoNotMatterExactly | pink/src/redis_parser.cc:312-341 | from any resumable parser, a stream of multibulk requests gives the same for every cut if and only if no length of -1 makes a difference |
| RedisCuts.FedIsResumable | pink/src/redis_parser.cc:171-183 | whatever a parser has been fed, what it cached is a request waiting for more, unless it is inside an inline request |
| RedisCuts.NegativeBulk | pink/src/redis_parser.cc:256-284 | a negative length throws with the next byte; cut behind it, -2 and below still do, and -1 is as if it had not been there |
| RedisCuts.MinusOneDependsOnTheCut | pink/src/redis_parser.cc:256-284 | a concrete stream with -1: uncut it throws, cut it deals a command |
| RedisCuts.AfterEmptyRequestExactly | pink/src/redis_parser.cc:245-249 | cut right behind an empty request, what comes up to the end of the next line is read the same if and only if it begins with a star or is refused either way |
| RedisCuts.EmptyRequestThenInlineDependsOnTheCut | pink/src/redis_parser.cc:245-249 | a concrete stream with an empty request on which the cut matters |
| RedisInline.InlineIsDealt | pink/src/redis_parser.cc:201-231 | a line of words in any style is one command with exactly those arguments; the parser ends Done |
| RedisInline.InlineThenCommand | pink/src/redis_parser.cc:215-222 | a multibulk request behind the line is dealt as it is, and its tokens are arguments of the line as well |
| RedisInline.SwallowedRequest | pink/src/redis_parser.cc:215-222 | a concrete buffer on which that happens |
| RedisInline.PartOfLine | pink/src/redis_parser.cc:202-214 | a line that has not ended is cached whole up to 65536 bytes and refused with FullError beyond |
| RedisInline.LineInTwoParts | pink/src/redis_parser.cc:171-183 | a line cut in two is read as the whole |
| RedisInline.BadLineIsRefused | pink/src/redis_parser.cc:218-224 | a line the splitter refuses gives ProtoError and deals nothing |
| RedisInline.ByteBehindQuoteIsRefused | pink/src/redis_parser.cc:78-86 | a closing quote with another byte behind it refuses the line, whatever follows |
| RedisInline.BlankLine | pink/src/redis_parser.cc:374-401 | a blank line deals nothing and completes an empty batch |
| RedisInline.ParseInline | pink/src/redis_parser.cc:312-341 | the object on a line of words |
| RedisMalformed.NoDollar | pink/src/redis_parser.cc:260-263 | a length line without a dollar sign is refused, whatever follows |
| RedisMalformed.NotANumber | pink/src/redis_parser.cc:233-275 | a count or length that is not a strict numeral is refused, whatever follows |
| RedisMalformed.AnyByteBeforeLineFeed | pink/src/redis_parser.cc:156-169 | the byte before a line feed is skipped unseen; a line of one byte holds no number |
| RedisMalformed.AnyTwoBytesBehindBulk | pink/src/redis_parser.cc:276-284 | the two bytes behind a bulk string are skipped unseen |
| RedisMalformed.DealFailure | pink/src/redis_parser.cc:374-383 | a refusing DealMessage gives DealError; nothing behind is read and Complete is not called |
| RedisMalformed.CompleteFailure | pink/src/redis_parser.cc:389-401 | a refusing Complete gives CompleteError after one batch with lower-case names |
| RedisMalformed.RefusedStaysRefused | pink/src/redis_parser.cc:312-322 | a call after a refusal reports InitError and touches nothing |
| RedisMalformed.DoneHandsOver | pink/src/redis_parser.cc:389-401 | when the parser is Done, everything dealt has been handed to Complete, names in lower case |
| RedisParserObject.RedisParser.constructor | pink/src/redis_parser.cc:185-199 | the state after RedisParserInit for requests |
| RedisParserObject.RedisParser.FindNextSeparators | pink/src/redis_parser.cc:135-154 | the first line feed from `cur_pos_` on, or -1 |
| RedisParserObject.RedisParser.GetNextNum | pink/src/redis_parser.cc:156-169 | the strict number between the type byte and the byte before the line feed |
| RedisParserObject.RedisParser.SetHalf | pink/src/redis_parser.cc:171-183 | the rest of the buffer is cached and counted as consumed |
| RedisParserObject.RedisParser.ProcessInlineBuffer | pink/src/redis_parser.cc:201-231 | the fields show the outcome of an inline request, limits and errors included |
| RedisParserObject.RedisParser.ProcessMultibulkBuffer | pink/src/redis_parser.cc:233-254 | the fields show the outcome of a multibulk request: complete, cached, malformed or thrown |
| RedisParserObject.RedisParser.ReadBulkHeader | pink/src/redis_parser.cc:256-275 | the length line of the next bulk string: go on, or the way the request stops |
| RedisParserObject.RedisParser.ReadBulks | pink/src/redis_parser.cc:255-293 | the loop over bulk strings computes the outcome of the request and terminates because `cur_pos_` advances |
| RedisParserObject.RedisParser.DealParsed | pink/src/redis_parser.cc:374-383 | a non-empty command is queued and shown to DealMessage, whose failure ends the parse |
| RedisParserObject.RedisParser.FinishBuffer | pink/src/redis_parser.cc:389-401 | queued commands go to Complete with lower-case names |
| RedisParserObject.RedisParser.ReadRequest | pink/src/redis_parser.cc:351-373 | the kind of a request is decided by its first byte unless it is remembered |
| RedisParserObject.RedisParser.ProcessOneRequest | pink/src/redis_parser.cc:351-387 | one pass of the loop goes on behind the request, or stops in the state it leads to |
| RedisParserObject.RedisParser.ProcessRequestBuffer | pink/src/redis_parser.cc:349-402 | the loop over requests computes the parser the buffer leads to |
| RedisParserObject.RedisParser.ProcessInputBuffer | pink/src/redis_parser.cc:312-341 | one call is one step of the value-level parser, refusals included |
| RedisParserObject.ParseChunks | pink/src/redis_conn.cc:106-128 | feeding chunks to the object is feeding them to the value-level parser |
| RedisParserObject.ParsePrinted | pink/src/redis_parser.cc:312-341 | the object deals exactly the printed commands, for every cut, and ends Done |
| RedisSerializer.IntLen | pink/src/redis_cli.cc:402-413 | the number of characters of the decimal numeral, sign included |
| RedisSerializer.BulkLen | pink/src/redis_cli.cc:416-418 | the length of a printed bulk string |
| RedisSerializer.TotalLen | pink/src/redis_cli.cc:600-603 | the length of the printed command |
| RedisSerializer.FormatCommandArgv | pink/src/redis_cli.cc:597-620 | prints the array of bulk strings, in exactly the space reserved |
| RedisSerializer.TwoArguments | pink/src/redis_cli.cc:608-617 | a printed command of two arguments, byte by byte |
| RedisSerializer.ArgumentsInOrder | pink/src/redis_cli.cc:608-617 | each argument stands whole behind those before it |
| RedisSerializer.NumberLine | pink/src/redis_parser.cc:156-169 | a printed number line is found and its number recovered |
| RedisSerializer.CommandIsRead | pink/src/redis_parser.cc:233-294 | a printed non-empty vector over arbitrary bytes is one complete request, whatever follows |
| RedisSerializer.PrefixIsCached | pink/src/redis_parser.cc:233-294 | every proper non-empty prefix of a printed command is cached, not refused |
| RedisSerializer.PrintedStreamRoundTrip | pink/src/redis_parser.cc:312-341 | printed commands followed by any prefix of one more, cut anywhere: exactly the commands are dealt; Done with nothing cached, or waiting for the rest |
| RedisFormat.LoopBuildsWords | pink/src/redis_cli.cc:428-563 | the loop yields the space-separated words with values substituted, or fails exactly when a word begins with an empty value |
| RedisFormat.FormatArgs | pink/src/redis_cli.cc:428-563 | the loop over the format returns the words as arguments and counts their printed length, or fails exactly when a word is refused |
| RedisFormat.FormatCommand | pink/src/redis_cli.cc:420-585 | the bytes are those of FormatCommandArgv on the words, and as many as counted beforehand |
| RedisFormatMeaning.FormatItems | pink/src/redis_cli.cc:420-585 | any words of literals and values, spaced in any way, give the command of those words: `%b` values in full, `%s` values up to their first NUL, by index; refused exactly when a word begins with a value that adds nothing |
| RedisFormatMeaning.FormatOneValue | pink/src/redis_cli.cc:444-458 | `%b` and `%s` alone, on values with NULs |
| RedisFormatMeaning.FormatPercent | pink/src/redis_cli.cc:429-441 | a percent sign at the end stands for itself |
| RedisFormat.AddLen | pink/src/redis_cli.cc:433-433 | the running total follows the arguments |
| RedisCli.SeekNewline | pink/src/redis_cli.cc:181-205 | the first CRLF, or none exactly when there is none |
| RedisCli.FirstCrlf | pink/src/redis_cli.cc:180-205 | first and exact |
| RedisCli.ReadLongLong | pink/src/redis_cli.cc:209-234 | sign and digits up to the CR, or -1 |
| RedisCli.LongLongDecimal | pink/src/redis_cli.cc:207-234 | reading up to the CR inverts decimal printing |
| RedisCli.Client.BufferRead | pink/src/redis_cli.cc:147-178 | what each outcome of the read returns; unread bytes are kept in order and extended by what arrived, as far as there is room |
| RedisCli.Fill | pink/src/redis_cli.cc:147-178 | a read never loses unread bytes, stays inside the buffer, and a successful one adds bytes |
| RedisCli.ReadOutcomes | pink/src/redis_cli.cc:158-177 | which code each outcome of the read gives, whatever is unread and whatever follows |
| RedisCli.TypeBytes | pink/src/redis_cli.cc:350-391 | which byte starts which item; any other is refused |
| RedisCli.NumbersExactly | pink/src/redis_cli.cc:209-234 | sign, digits and CR give the number; any other byte in front of the CR gives -1 |
| RedisCli.Client.ProcessLineItem | pink/src/redis_cli.cc:236-248 | a line becomes an element and is skipped with its CRLF |
| RedisCli.Client.ProcessBulkItem | pink/src/redis_cli.cc:250-279 | a bulk string, a nil, or not enough bytes, with the source's test |
| RedisCli.Client.ProcessMultiBulkItem | pink/src/redis_cli.cc:281-291 | the count line sets the number of elements |
| RedisCli.Client.GetReplyFromReader | pink/src/redis_cli.cc:340-392 | dispatch on the type byte, which is consumed in every case |
| RedisCli.Client.TakeBulk | pink/src/redis_cli.cc:258-279 | the part behind the length line: nil, not enough bytes, or the string and its CRLF |
| RedisCli.Client.GetReply | pink/src/redis_cli.cc:293-312 | the reply, the unread bytes and the arrivals left for any arrivals; the loop terminates; a reply buffered in full is taken without touching the socket |
| RedisCli.BufferedReply | pink/src/redis_cli.cc:293-312 | a buffered reply needs no read |
| RedisCli.Client.Recv | pink/src/redis_cli.cc:124-131 | one reply into an empty argv |
| RedisCli.ReceivePrinted | pink/src/redis_cli.cc:124-145 | repeated Recv calls on a client with printed commands buffered all succeed and return them in order, consuming exactly their bytes and not reading the socket |
| RedisCli.ReceiveArriving | pink/src/redis_cli.cc:124-178 | the same when the commands arrive with one read |
| RedisCli.ElementTaken | pink/src/redis_cli.cc:340-392 | status, error, integer, bulk string and nil are each taken whole, consuming exactly their bytes |
| RedisCli.ReplyTaken | pink/src/redis_cli.cc:293-312 | a buffered array of any elements, or a single one, is one reply |
| RedisCli.CommandTaken | pink/src/redis_cli.cc:293-312 | a buffered printed vector, empty ones included, is one reply |
| RedisCli.PrintedRepliesRoundTrip | pink/src/redis_cli.cc:293-312 | replies taken one after the other are the printed vectors in order and leave exactly what follows |
| RedisCli.BulkOutOfBoundsExactly | pink/src/redis_cli.cc:267-275 | when the source takes an item that is not fully buffered |
| RedisReplyCuts.WholeItems | pink/src/redis_cli.cc:293-312 | reads that end between items deliver every element of the reply in order |
| RedisReplyCuts.ArrayInWholeItems | pink/src/redis_cli.cc:281-312 | the same for an array reply with its count line |
| RedisReplyCuts.ReplyWeight | pink/src/redis_cli.cc:293-312 | for any arrivals, no element is returned without the bytes it takes |
| RedisReplyCuts.LinesOnly | pink/src/redis_cli.cc:340-392 | without bulk strings and arrays, each element asked for is returned once |
| RedisReplyCuts.CutBulk | pink/src/redis_cli.cc:250-312 | a bulk string that takes two reads or more is never returned |
| RedisReplyCuts.CommandReadsExactly | pink/src/redis_cli.cc:293-392 | a printed command, cut into reads, is returned right if and only if every read ends between items |
| RedisReplyCuts.LongElementNeverRead | pink/src/redis_cli.cc:147-178 | an item longer than the buffer is never read right, whatever the reads |
| RedisReplyCuts.ReadableExactly | pink/src/redis_cli.cc:293-392 | some reads return a printed command right if and only if each of its items fits into the buffer |
| RedisReplyCuts.OneReadExactly | pink/src/redis_cli.cc:293-392 | a reply of one item is read right if and only if it comes with one read |
| SplitArgs.CharStep | pink/src/redis_parser.cc:50-125 | every step skips at least one byte or ends at the NUL |
| SplitArgs.TakeToken | pink/src/redis_parser.cc:44-127 | the inner loop reads one token, or rejects it |
| SplitArgs.Split2Args | pink/src/redis_parser.cc:35-132 | the tokens of the text; -1 leaves argv empty; terminates on every NUL-terminated text |
| SplitArgs.WrittenTokenIsRead | pink/src/redis_parser.cc:44-127 | an argument written bare, in double quotes, with named escapes or in single quotes is read back |
| SplitArgs.WriteLineRoundTrip | pink/src/redis_parser.cc:35-132 | arguments written in any mixture of styles and joined by spaces are exactly what is returned |
| SplitArgs.BetweenArguments | pink/src/redis_parser.cc:40-43 | byte by byte: blanks are skipped, a NUL or the end stops |
| SplitArgs.OutsideQuotes | pink/src/redis_parser.cc:104-124 | byte by byte: what ends an argument, what opens quotes, and what is taken |
| SplitArgs.InDoubleQuotes | pink/src/redis_parser.cc:78-94 | byte by byte: what closes, what is refused, and what is taken |
| SplitArgs.BackslashInDoubleQuotes | pink/src/redis_parser.cc:60-77 | which byte each escaped letter stands for |
| SplitArgs.HexInDoubleQuotes | pink/src/redis_parser.cc:53-59 | the byte of two hexadecimal digits, letters counted from zero |
| SplitArgs.InSingleQuotes | pink/src/redis_parser.cc:96-103 | byte by byte: only an escaped quote means something else |
| SplitArgs.BadLines | pink/src/redis_parser.cc:78-91 | a byte behind a closing quote, or a quote never closed, fails the line |
| SplitArgs.HexEscapeExact | pink/src/redis_parser.cc:23-33 | a hexadecimal escape is right exactly when both digits are decimal |
| PbFraming.UntagRoundTrip | pink/src/pb_conn.cc:53-56 | ntohl and htonl invert each other on four bytes |
| PbFraming.FramedExactly | pink/src/pb_conn.cc:178-182 | the frames on the wire are exactly the bodies behind four bytes with the length in big-endian order |
| PbFraming.UniqueDecoding | pink/src/pb_conn.cc:33-35 | frames followed by an incomplete rest that begin the frames of b are the first bodies of b, and all of b when nothing is missing |
| PbFraming.DecodedBeforeEmpty | pink/src/pb_conn.cc:33-35 | what was decoded from small bodies lies before the first empty one, and is all of that once its bytes are there |
| PbFraming.PendingHeader | pink/src/pb_conn.cc:51-58 | the header of the frame in progress is that of the next body sent |
| PbConnection.PbConn.constructor | pink/src/pb_conn.cc:16-27 | the state of a new connection |
| PbConnection.PbConn.GetHeader | pink/src/pb_conn.cc:39-63 | asks for all that is missing, and reads the length in big-endian order; case kHeader keeps the receive invariant: frames dealt, then bytes pending, are the bytes received |
| PbConnection.PbConn.Grow | pink/src/pb_conn.cc:64-77 | afterwards the frame fits, or the length is refused with the source's limits, a null realloc included |
| PbConnection.PbConn.GetBody | pink/src/pb_conn.cc:78-96 | the read stays inside the buffer; case kPacket keeps the invariant |
| PbConnection.PbConn.Finish | pink/src/pb_conn.cc:97-104 | the body dealt is as many bytes as the header says, big-endian, right behind it |
| PbConnection.PbConn.GetRequest | pink/src/pb_conn.cc:36-115 | keeps the receive invariant under any reads; deals a body exactly when its last byte is in; each status names the read that caused it, and a complete header is refused, one way or the other, exactly by its length |
| PbConnection.AnyFirstTag | pink/src/pb_conn.cc:51-77 | any run over a tag and whatever follows: once the tag is in, its length decides whether it is refused, and how |
| PbConnection.WrappedTag | pink/src/pb_conn.cc:64-78 | the tag FF FF FF FD leads to a read outside the buffer |
| PbConnection.PbConn.TryResizeBuffer | pink/src/pb_conn.cc:184-199 | a shrink never drops received bytes, and happens exactly when the connection is idle or the buffer three times too large and a smaller multiple holds the bytes |
| PbConnection.PbConn.WriteItem | pink/src/pb_conn.cc:122-135 | one write keeps the send invariant: bytes written, then bytes queued, are the frames of all responses |
| PbConnection.PbConn.SendReply | pink/src/pb_conn.cc:117-149 | keeps the send invariant under any writes; kWriteAll exactly when the queue is empty; it stops early only on a write that accepts nothing; if every write accepts something, it spins exactly when there was an empty item in the queue; an empty item never leaves; items leave from the front |
| PbConnection.AnySendRun | pink/src/pb_conn.cc:117-182 | any run over any responses: the wire holds the first bytes of their frames; kWriteAll means all of them, and is reached instead of a spin exactly when no response was empty |
| PbConnection.EmptyResponseSpins | pink/src/pb_conn.cc:117-176 | an empty response: kWriteAll is not returned, and the call spins exactly when the tag is written |
| PbConnection.PbConn.WriteResp | pink/src/pb_conn.cc:168-182 | queues the length in four bytes, big-endian, and the body, empty or not, and counts the reply; keeps the send invariant |
| PbConnection.PbConn.SetIsReply | pink/src/pb_conn.cc:151-161 | the counter, never below zero |
| PbConnection.AnyReceiveRun | pink/src/pb_conn.cc:36-115 | any run over legal frames: nothing refused, bodies dealt in order, all of them once all bytes are in |
| PbConnection.AnySmallRun | pink/src/pb_conn.cc:36-115 | any run over small bodies, empty ones included: those before the first empty one are dealt, and all of them if and only if none is empty |
| PbConnection.EndToEnd | pink/src/pb_conn.cc:117-149 | what the receiver dealt are the sender's first responses, and all of them once everything is sent and read |
| PbConnection.AnyExchange | pink/src/pb_conn.cc:36-182 | the same over any run of two connections joined by a wire |
| ReplyProtocol.StepKeepsInv | pink/src/holy_thread.cc:152-162 | what every step of writers and loop keeps |
| ReplyProtocol.NoStrandedResponse | pink/src/pb_conn.cc:117-176 | from any good state, over any interleaving: `is_reply_` counts the unsent responses, and an unsent response has EPOLLOUT armed or a notification under way |
| ReplyProtocol.NoStrandedResponseEver | pink/src/holy_thread.cc:312-313 | the same in every reachable state |
| ReplyProtocol.NeverFiresInVain | pink/src/holy_thread.cc:152-156 | in every reachable state, when EPOLLOUT would fire the counter is positive; it is disarmed once the queue is empty |
| ReplyProtocol.QueueHoldsTheUnsent | pink/src/pb_conn.cc:170-176 | over any interleaving, the queue holds what was pushed, tag before body, without the items that left from the front: nothing lost, doubled or reordered |
| ReplyProtocol.LoopDrainsTheQueue | pink/src/holy_thread.cc:137-162 | from every reachable state with idle writers, the loop alone empties the queue |
| PubSub.RunKeepsInv | pink/src/pink_pubsub.cc:137-156 | a request under way is at exactly one place and belongs to the holder of `pub_mutex_` |
| PubSub.PublishReturnsItsOwnCount | pink/src/pink_pubsub.cc:137-156 | over any interleaving of any publishers, the k-th return is the count of the k-th delivery, of its own channel and message |
| PubSub.PublishDeliversWhatWasAsked | pink/src/pink_pubsub.cc:137-156 | over any interleaving, read off the run itself: what is delivered is the channel and the message the returning call was given, and its return is the number of subscribers that took it |
| PubSub.OnePublishAtATime | pink/src/pink_pubsub.cc:403-475 | at most one of trigger byte, loop serving, `receivers_` set; exactly one while the holder waits |
| PubSub.PublishNeverStuck | pink/src/pink_pubsub.cc:137-156 | while a call is inside Publish, the holder or the loop can take a step |
| PubSub.PublishTerminates | pink/src/pink_pubsub.cc:137-156 | once a call holds the mutex, at most twelve steps of its own and of the loop, whatever other calls come in, lead to its return |
| Scheduling.RunKeepsInv | pink/src/bg_thread.cc:14-137 | what every run keeps |
| Scheduling.TasksAreConserved | pink/src/bg_thread.cc:14-37 | each accepted item is in exactly one of ready queue, heap, started, cleared; none starts twice; the limit holds; ready items start in submission order |
| Scheduling.TimersAreOnTime | pink/src/bg_thread.cc:83-101 | no delayed item starts, in milliseconds, before its timeout has passed since the clock reading of its call, nor while a strictly earlier deadline waits |
| Scheduling.DueTimersGoFirst | pink/src/bg_thread.cc:83-95 | over every run, whenever a worker started a ready task, no timer waiting was due at the clock of that section |
| Scheduling.WaitNeverOversleeps | pink/src/bg_thread.cc:96-98 | the subtraction does not wrap and the wait ends by the deadline, less than a millisecond before it |
| Scheduling.ShutdownDrains | pink/src/bg_thread.cc:39-71 | at exit: the ready queue is empty, each submitted item was started once in order or else cleared, timers left are later than the sampled clock |
| Scheduling.DrainTerminates | pink/src/bg_thread.cc:39-71 | the drain takes a bounded number of steps, whatever other threads call |
| Scheduling.DrainNeverStuck | pink/src/bg_thread.cc:39-71 | until it returns, the drain can take a step |
| BgThreadObject.BGThread.Schedule | pink/src/bg_thread.cc:14-24 | accepted at the back, turned away at stop, or waiting at the limit |
| BgThreadObject.BGThread.DelaySchedule | pink/src/bg_thread.cc:120-137 | the deadline is the clock plus the timeout in milliseconds |
| BgThreadObject.BGThread.QueueClear | pink/src/bg_thread.cc:32-37 | both queues are emptied |
| BgThreadObject.BGThread.StopThread | pink/include/bg_thread.h:46-47 | the stop flag is set |
| Wakeups.RunKeepsInv | pink/src/bg_thread.cc:14-137 | what every step of callers, workers and the shutdown keeps; no worker is lost |
| Wakeups.NoLostWakeupWhileRunning | pink/src/thread_pool.cc:169-279 | until the stop, over any run of any number of workers: the queue is within its limit; not all wait while a task is ready or, without a deadline, while there is a timer; while callers wait somebody can take a step towards room or a signal |
| Wakeups.NothingAcceptedAfterStop | pink/src/bg_thread.cc:14-60 | in every run after the stop the queues only shrink, by exactly what is run unless they are cleared |
| Wakeups.CallersLeft | pink/src/bg_thread.cc:14-71 | after the stop, until a caller starts to wait, those left waiting are those beyond the number of wake-ups |
| Wakeups.CallersLeftBehind | pink/src/bg_thread.cc:16-18 | a caller about to wait joins them after the signals that came before it |
| Wakeups.OneStopExactly | pink/include/bg_thread.h:46-51 | one StopThread, no caller about to wait: none is left if and only if at most one waited |
| Wakeups.OneStopBehindExactly | pink/include/bg_thread.h:46-51 | one StopThread, a caller about to wait: none is left if and only if none waited and the signal comes after that caller has started to |
| Wakeups.StopAllCallersExactly | pink/src/thread_pool.cc:49-55 | all callers signalled: one is left if and only if it was about to wait |
| Wakeups.WokenReturn | pink/src/bg_thread.cc:14-24 | after the stop the woken callers can all return, whatever the queue, while the mutex is free |
| Wakeups.WorkersLeft | pink/src/bg_thread.cc:73-82 | without another signal the workers asleep stay so, and one about to sleep joins them |
| Wakeups.StopReachesWorkerExactly | pink/include/bg_thread.h:46-51 | the one worker is left asleep if and only if it had looked and not yet started to sleep |
| Wakeups.StopAllReachesWorkersExactly | pink/src/thread_pool.cc:49-55 | all workers signalled: one is left asleep if and only if it was about to sleep |
| Wakeups.LeftLockedExactly | pink/src/bg_thread.cc:79-111 | the mutex is not released if and only if no task is ready, the timer is not due, and the flag was set since the worker looked |
| Wakeups.LockedForGood | pink/src/bg_thread.cc:39-54 | then it stays locked in every run, and a worker that drains never returns |
| LostWakeups.WorkerLeftAsleep | pink/src/bg_thread.cc:76-78 | a run in which the worker sleeps although it was stopped |
| LostWakeups.PoolWorkerLeftAsleep | pink/src/thread_pool.cc:242-250 | a run of a pool of two in which one worker sleeps although all were signalled |
| LostWakeups.CallerLeftWaiting | pink/src/bg_thread.cc:16-18 | a run in which nobody waits when StopThread is called, and a caller is left waiting |
| LostWakeups.SecondCallerLeft | pink/src/bg_thread.cc:39-54 | a run from the start in which the worker has drained and returned and the second of two callers still waits |
| LostWakeups.MutexLeftLocked | pink/src/bg_thread.cc:93-111 | a run that ends with the mutex locked for good |
| BgThreadObject.BGThread.WorkerSection | pink/src/bg_thread.cc:74-111 | in terms of the fields: an earliest due timer if some timer is due, else the front of the queue, else a wait that does not oversleep; one step of the state machine |
| BgThreadObject.BGThread.Others | pink/src/bg_thread.cc:14-37 | any number of calls by other threads or tasks keep the invariant, and after stop add nothing |
| BgThreadObject.BGThread.SwallowReadyTasks | pink/src/bg_thread.cc:39-71 | both loops terminate under any number of calls whenever the mutex is released, and end the run |
| BgThreadObject.BGThread.ThreadMain | pink/src/bg_thread.cc:73-115 | the worker from start to return, with the guarantees of the drain |
| ThreadPoolQueue.TaskQueue.Schedule | pink/src/thread_pool.cc:169-179 | the queue never exceeds QUEUE_CAP |
| ThreadPoolQueue.TaskQueue.DelaySchedule | pink/src/thread_pool.cc:192-208 | the deadline is the clock plus the timeout in milliseconds |
| ThreadPoolQueue.TaskQueue.RunOnce | pink/src/thread_pool.cc:242-279 | the same for one section of any worker: a due timer first, then the front of the queue |
| ThreadPoolQueue.TaskQueue.Bounded | pink/src/thread_pool.cc:16-16 | the limit, in every reachable state |
| HttpHeader.FindLf | pink/src/http_conn.cc:60-71 | the first line feed, or the size |
| HttpHeader.ParseHeadLine | pink/src/http_conn.cc:73-121 | the line parser, byte by byte |
| HttpHeader.ParseLines | pink/src/http_conn.cc:183-196 | every line is visited once and the loop terminates |
| HttpHeader.ParseHeader | pink/src/http_conn.cc:171-196 | not found, an error, or the length and content of the header |
| HttpHeader.FirstBlankExactly | pink/src/http_conn.cc:171-175 | the first blank line, and none exactly when there is none |
| HttpHeader.ShortBlockIsBad | pink/src/http_conn.cc:176-181 | a block of at most one byte is refused, whatever follows |
| HttpHeader.NulHidesTheEnd | pink/src/http_conn.cc:170-175 | behind a NUL nothing is found |
| HttpHeader.StartLineExactly | pink/src/http_conn.cc:78-99 | any start line with two spaces: what stands before, between and behind them |
| HttpHeader.FieldLineExactly | pink/src/http_conn.cc:100-114 | any line: ignored without a space, otherwise split at the first one, the key without colons and in lower case |
| HttpHeader.FieldMapLookup | pink/src/http_conn.cc:107-108 | under each name the value of the last field whose key is that name up to case |
| HttpHeader.PrintedHeaderLookup | pink/src/http_conn.cc:169-217 | the same of what ParseHeader makes of a printed header |
| HttpHeader.StartLineParsed | pink/src/http_conn.cc:78-99 | method, URL and version of a printed start line are recovered |
| HttpHeader.FieldLineParsed | pink/src/http_conn.cc:100-114 | a printed field is stored under its lower-case key |
| HttpHeader.PrintedHeaderRoundTrip | pink/src/http_conn.cc:169-217 | a printed header, whatever body follows, is parsed to its parts and its end is found exactly |
| HttpHeader.HeaderPrefixNotFound | pink/src/http_conn.cc:170-175 | before its last byte the header is not found |
| HttpRequestObject.DeclaredLength | pink/src/http_conn.cc:203-204 | the length is that of the last field named content-length in any case, and zero without one |
| HttpRequestObject.ExpectsExactly | pink/src/http_conn.cc:210-214 | 100-continue is expected exactly for the two spellings under expect, in any case of the key |
| HttpRequestObject.StoulExactly | pink/src/http_conn.cc:203-204 | the digits in front are the number, whatever follows; none gives an exception |
| HttpRequestObject.PrintedIsRequestHeader | pink/src/http_conn.cc:203-204 | a printed header with a decimal Content-Length, in letters of any case, declares that length |
| HttpRequestObject.HttpRequest.constructor | pink/src/http_conn.cc:289-297 | a new request |
| HttpRequestObject.SmallNeverPast | pink/src/http_conn.cc:426-430 | no read of a request that fits into a limit ends past it |
| HttpRequestObject.NeverRefusedExactly | pink/src/http_conn.cc:426-430 | received under every split of the reads if and only if header and body together fit into kHTTPMaxHeader |
| HttpRequestObject.NeverOverrunExactly | pink/src/http_conn.cc:170-170 | the NUL behind what was received stays inside the buffer under every split of the reads if and only if header and body together are shorter than the buffer |
| HttpRequestObject.HttpRequest.Terminate | pink/src/http_conn.cc:170-170 | the NUL keeps the bytes received, and is outside the buffer exactly when the buffer is full |
| HttpRequestObject.HttpRequest.DoRead | pink/src/http_conn.cc:365-403 | a read stays inside the buffer and is counted against the remaining length |
| HttpRequestObject.HttpRequest.ReadHeader | pink/src/http_conn.cc:420-430 | on any bytes: refused exactly when the block is bad or the read ends past kHTTPMaxHeader |
| HttpRequestObject.HttpRequest.ReceiveHeader | pink/src/http_conn.cc:420-458 | the header/body boundary, wherever the read falls; refused exactly when the read ends past kHTTPMaxHeader |
| HttpRequestObject.HttpRequest.HeaderFound | pink/src/http_conn.cc:431-455 | a handler's early answer, 100-continue, or the body moved to the front with the invariant of streaming |
| HttpRequestObject.HttpRequest.ReceiveBody | pink/src/http_conn.cc:459-472 | pieces delivered, then bytes buffered, are the body received; received plus remaining is the declared length |
| HttpRequestObject.HttpRequest.ReadData | pink/src/http_conn.cc:405-483 | on completion the delivered pieces are the body; received and still to come are the request, refused or not; refused now or by later calls exactly when the reads to come have it so |
| HttpRequestObject.AnyRequestRun | pink/src/http_conn.cc:405-483 | over any run and any reads: the delivered pieces are a prefix of the body, and all of it on completion, each filling the buffer but for the last; refused exactly when a read that begins inside the header ends past kHTTPMaxHeader; overrun exactly when such a read fills the buffer; once all bytes are read it is complete, refused or answered early |
| HttpRequestObject.FullBufferOverruns | pink/src/http_conn.cc:170-170 | a short header with a body as long as the buffer: a first read that fills it has the NUL written one past its end |
| HttpRequestObject.ShortHeaderRefused | pink/src/http_conn.cc:420-430 | a header of a few dozen bytes with a large body, refused at the first read |
| HttpSenders.HttpResponse.constructor | pink/src/http_conn.cc:508-516 | a response begun from a reset state |
| HttpSenders.HttpResponse.FlushHeader | pink/src/http_conn.cc:557-603 | the header leaves the buffer in order; 100-continue ends there |
| HttpSenders.HttpResponse.FillBody | pink/src/http_conn.cc:611-616 | a refill goes to the current position, stays inside the buffer, and asks for as much as fits or is missing |
| HttpSenders.HttpResponse.FlushBody | pink/src/http_conn.cc:604-660 | bytes written, then bytes buffered, are the header and what was produced; the position wraps in bounds |
| HttpSenders.HttpResponse.Flush | pink/src/http_conn.cc:549-664 | keeps that invariant; each call writes bytes, meets a full socket, completes, or names the failure; the wire holds the first bytes of header and body even then |
| HttpSenders.HttpResponse.SendReply | pink/src/http_conn.cc:666-674 | kWriteAll exactly when finished |
| HttpSenders.AnyResponseRun | pink/src/http_conn.cc:549-674 | reported complete only when the wire holds the header and the whole body, and no body after 100; at any time, failed or not, it holds the first bytes of them |
| HttpSenders.SimpleHttpConn.SerializeBody | pink/src/simple_http_conn.cc:275-284 | the next bytes of the body are appended to the buffer, as many as fit |
| HttpSenders.SimpleHttpConn.FillResponseBuf | pink/src/simple_http_conn.cc:433-451 | bytes written, bytes buffered and bytes not yet copied are header then body |
| HttpSenders.SimpleHttpConn.SendReply | pink/src/simple_http_conn.cc:453-480 | keeps that invariant; kWriteAll means all of it is on the wire; it stops early only on a full socket or a failed write |
| HttpSenders.AnySimpleRun | pink/src/simple_http_conn.cc:453-480 | over any run, complete exactly when the wire holds header then body |

## Left out

- Sockets, epoll and pipe internals, SSL, address resolution, protobuf encoding, logging and histograms.
- `slash::string2l` and `std::to_string` are not part of this repository; they are modelled as a strict decimal reader and the decimal printer. `std::stoul` is modelled on leading digits, without blanks or signs.
- Machine limits of `int`, `long` and `size_t` in positions and lengths; only the 32-bit quantities named above wrap.
- RedisRequests.SegmentationIndependence: not for streams with inline requests (single lines are the subject of RedisInline), because the splitter sees the rest of the buffer instead of one line and the length limit counts the whole buffer; the error code may differ, because a call after a refusal reports an initialisation error; and not for a `Complete` that fails, because it sees one batch per chunk that ends at a command boundary.
- RedisCuts.CutsDoNotMatterExactly: for parsers with a `DealMessage` callback, because without it the forgotten line may go unobserved.
- RedisCuts.AfterEmptyRequestExactly: only up to the end of the next line, because behind it the splitter takes the rest of the buffer for arguments of that line.
- The response type of the Redis parser, which the source leaves to be written.
- RedisReplyCuts.WholeItems: such cuts are enough; that no other cut works is proved for printed commands and for replies of one item only, because after a cut inside an item the texts of later items are taken for types, lengths and counts.
- RedisFormat.FormatArgs: formats with printf conversions, or with fewer values than conversions, are excluded.
- RedisFormat.FormatCommand: formats with printf conversions, or with fewer values than conversions, are excluded.
- `RedisConn::SendReply`, which depends on a writev helper outside this repository.
- PbConnection.AnyReceiveRun: bodies of length zero are the subject of AnySmallRun.
- ReplyProtocol.NoStrandedResponse: write errors and closing the connection are not modelled; SendReply moves whole items here, its bytes are the subject of PbConn.
- Pub/sub subscription maps and the write-error path of a delivery: a delivery is a step with an arbitrary count of at least zero.
- BgThreadObject.BGThread.StopThread: its two signals are modelled in Wakeups, not in the object.
- Restarting a stopped thread. In Scheduling the stop flag is sampled once per critical section; a flag that changes inside one is the subject of Wakeups.
- Scheduling.WaitNeverOversleeps: clock readings plus timeouts are taken not to exceed 64 bits.
- HttpRequestObject.HttpRequest.ReadData: one request with exactly the declared body; pipelined bytes and query parameters are not modelled.
- HttpSenders.HttpResponse.Flush: the header is given in serialized form, and WriteResponseBody returns -1 or 0 to the requested size; other negative values are excluded.
- Header serialization, `SimpleHTTPConn::GetRequest`, and the connection tables of the client, backend, worker and holy threads.
