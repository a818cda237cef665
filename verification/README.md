# Verification of the repository's protocol and codec cores

This project models the hard parts of the repository in Dafny and proves what they are
for. `dafny verify dfyconfig.toml` checks all of it.

* **RESP reader** (`Resp`, `ReplyTexts`, `ReaderMachine`, `Scan`, `ReplyObjects`, `TaskStack`,
  `Reader`, `ReaderRuns`). The incremental parser with its nine-slot task stack refines a recursive
  grammar over byte strings. The proof goes in three layers: a class with the buffer, the
  stack and a store of reply objects; an abstract machine whose state *denotes* the value
  being parsed; and whole runs of Feed and GetReply. Chunking, the trim at 1024 bytes and
  the buffer replacement are invisible. The grammar itself reads exactly the texts of replies,
  written out byte for byte.
* **Commands** (`Wire`, `Numerals`, `Format`, `FormatWords`, `Output`). Three printers of one wire form,
  with lengths computed in advance; what they print is read back by the grammar and by the
  argument walker; formats stand for the words they are written with; partial writes lose nothing.
* **Asynchronous context** (`AsyncCommands`, `AsyncLog`, `AsyncSpec`, `AsyncStatus`, `AsyncOutput`,
  `Async`). The object with its callback list, its flags, its output and re-entrant user callbacks
  computes a fold over the events of a run; the fold is proved exact, order by order, byte by byte
  and reply by reply, closed once it is closing, and honest about how it ended.
* **Hash table** (`DictChains`, `DictNodes`, `Dict`, `DictIterator`). Nodes with `next`
  pointers that are relinked, moved and freed hold chains of entries, and the chains hold a
  finite map; an iterator allows deletion.
* **Dynamic strings** (`Sds`, `SdsFormats`, `Split`, `SplitArgs`, `SplitWords`). The header
  invariant, formats, splitting and joining, and the escape printer with the quote-aware splitter
  that undoes it and splits lines as they are typed.
* **Threads** (`EventThread`, `RingBuffer`). Protocols as steps of several threads, in every
  interleaving, with what they keep and that they get on.
* **Configuration** (`ConfigText`, `ConfigTree`, `ConfigOutline`, `ConfigLines`, `ConfigLimits`,
  `ConfigPaths`, `Config`). Loading by indentation, saving, and paths.
* **Codecs** (`Groups`, `Base64`, `Base64Url`, `Base64Stream`, `Division`, `Crc32`). Two base64
  codecs on caller-supplied memory and the table-driven CRC-32.

Some promises are not kept by the code. The model follows the code, and states when they
hold:

* Splitting does not undo joining for separators that overlap themselves (`Split.SplitJoin`).
* An accepted task runs if and only if the event loop had not been left when it was accepted
  (`EventThread.AcceptedRunsExactlyWhen`); `EventThread.AcceptedTaskLost` is a run in which one
  does not.
* A configuration line grows when it is saved, since `=` becomes `: `, and may then no longer
  fit the line buffer. `ConfigLimits.SavedLoadsExactlyWhen` says which loaded texts are
  restored, and `ConfigLimits.NotRestored` gives one that is not.
* Both base64 decoders can write behind a buffer of the declared size. The group decoder
  asks only whether the output is full before each group (`Base64Url.UrlWritesInBounds`,
  `Groups.WritesInBoundsFrom`). The streaming decoder accepts three bytes for four characters,
  rounded down; what it needs depends on where the padding is and where it gives up, and
  `Base64Stream.OutputFitsExactlyWhen` gives that number for every text. Whole groups always
  fit; two characters and one padding do not (`Base64Stream.AcceptedBufferOverrun`). The models
  of the two decoders therefore take the two bytes behind the declared size into account.

The contents of a dynamic buffer are sequences of bytes. Pointers are indices into the store
of objects or nodes that they point into. `Sequences` and `Bits` hold what several modules use.
The modules that end in `Texts`, `Words`, `Formats` or `Lines` define inputs by the codes of their
characters, apart from the functions that read them.

## Model

| member | source | states |
|---|---|---|
| `ReaderRuns.Drive` | helper/redis_helper/hiredis-0.11.0/read.c:445-525 | for every sequence of Feed and GetReply calls on a new reader: its error, its unparsed bytes and the objects behind the pointers it returned are those of the abstract run, and returned objects are never changed later |
| `ReaderRuns.RunMatchesStream` | helper/redis_helper/hiredis-0.11.0/read.c:477-525 | a run emits a prefix of the replies of one recursive parse of all bytes fed; once a GetReply has nothing to give it has emitted all of them and is in the error state of that parse |
| `ReaderRuns.ChunkingIsInvisible` | helper/redis_helper/hiredis-0.11.0/read.c:445-525 | two runs over the same bytes, cut and interleaved in any way, end with the same replies and the same error |
| `ReaderRuns.CommandsThroughReader` | helper/redis_helper/hiredis-0.11.0/read.c:477-525 | formatted commands fed back in any chunks come out as exactly the arrays of their arguments, with nothing left over |
| `ReaderRuns.TextsThroughReader` | helper/redis_helper/hiredis-0.11.0/read.c:445-525 | any replies as a server writes them, fed in any chunks, come out as exactly those replies, with nothing left over |
| `ReplyTexts.TextReads` | helper/redis_helper/hiredis-0.11.0/read.c:215-414 | the text of a reply, written out in the codes of its characters: `+` is a status, `-` an error, `:` a number, `$` a payload and `*` an array, nested in any way; it is read as that reply and nothing behind it is read, whatever sign, zeros or other bytes its numbers carry; more than eight arrays within each other are the error of the ninth level |
| `ReplyTexts.ReadIsText` | helper/redis_helper/hiredis-0.11.0/read.c:215-414 | conversely, whatever is read as a reply is such a text, and what is left is what stands behind it |
| `ReplyTexts.StreamReads` | helper/redis_helper/hiredis-0.11.0/read.c:477-525 | texts one after the other are read one by one, in order |
| `ReplyTexts.PrefixWaits` | helper/redis_helper/hiredis-0.11.0/read.c:367-414 | a proper prefix of a text is never finished and never a fault |
| `ReplyTexts.OtherSignFails` | helper/redis_helper/hiredis-0.11.0/read.c:373-393 | any first byte but the five signs is a protocol error that names it |
| `ReplyTexts.NumeralReads` | helper/redis_helper/hiredis-0.11.0/read.c:148-173 | every line without a line break: an optional sign, digits up to a carriage return as the number they are, and -1 for anything else |
| `ReaderRuns.RunAccounts` | helper/redis_helper/hiredis-0.11.0/read.c:445-525 | after any calls, what was emitted followed by the parse of what is pending is the parse of everything fed |
| `Resp.ParseStreamExtends` | helper/redis_helper/hiredis-0.11.0/read.c:477-525 | parsing more bytes continues the parse of fewer: emitted replies and faults never change when bytes arrive |
| `Resp.ParseItemExtends` | helper/redis_helper/hiredis-0.11.0/read.c:367-414 | a finished or failed item stays the same whatever bytes follow |
| `ReaderMachine.StepSound` | helper/redis_helper/hiredis-0.11.0/read.c:367-414 | one call of processItem, from any state of the task stack, keeps the value that the stack and the unread bytes denote |
| `ReaderMachine.StepBodySound` | helper/redis_helper/hiredis-0.11.0/read.c:215-365 | the same for the body of a line, bulk or multi-bulk item, with the depth limit and the nil and empty arrays |
| `ReaderMachine.DeliverSound` | helper/redis_helper/hiredis-0.11.0/read.c:190-212 | moving to the next task closes exactly the arrays that are full and keeps the denoted value |
| `ReaderMachine.Step` | helper/redis_helper/hiredis-0.11.0/read.c:367-414 | a step that succeeds consumes at least one byte, so that the item loop ends, and keeps the open arrays well formed |
| `Reader.Reader.Feed` | helper/redis_helper/hiredis-0.11.0/read.c:445-475 | appends to the pending bytes unless an error was met; replacing an oversized empty buffer does not change them |
| `Reader.Reader.GetReply` | helper/redis_helper/hiredis-0.11.0/read.c:477-525 | returns the next reply of the pending bytes as an object that stands for it, nothing, or the fault, and leaves what follows pending |
| `Reader.Reader.NextReply` | helper/redis_helper/hiredis-0.11.0/read.c:490-524 | the same once the stack has been begun, for every point at which an earlier call stopped |
| `Reader.Reader.ProcessItems` | helper/redis_helper/hiredis-0.11.0/read.c:501-504 | the item loop ends with a finished reply, with a stall or with a fault, and agrees with the parse of the pending bytes in each case |
| `Reader.Reader.Trim` | helper/redis_helper/hiredis-0.11.0/read.c:510-516 | dropping the consumed part of the buffer from position 1024 on does not change the unread bytes |
| `Reader.Reader.ProcessItem` | helper/redis_helper/hiredis-0.11.0/read.c:367-414 | the fields after the call are the outcome of one step of the machine: next state, stall or fault |
| `Reader.Reader.ProcessMultiBulkItem` | helper/redis_helper/hiredis-0.11.0/read.c:302-365 | the same for arrays, including the error for the ninth level |
| `Reader.Reader.ProcessScalarItem` | helper/redis_helper/hiredis-0.11.0/read.c:215-300 | the same for line and bulk items |
| `Reader.StepTracks` | helper/redis_helper/hiredis-0.11.0/read.c:501-504 | the value denoted by stack and unread bytes stays the parse of the pending bytes across a step |
| `TaskStack.TaskStack.MoveToNextTask` | helper/redis_helper/hiredis-0.11.0/read.c:190-212 | pops every finished task, moves to the next slot and keeps the stack invariant, against the delivery of a value |
| `TaskStack.TaskStack.StartArray` | helper/redis_helper/hiredis-0.11.0/read.c:318-361 | an array header gives nil, an empty array, or an open array with its first element as the current task |
| `TaskStack.TaskStack.Push` | helper/redis_helper/hiredis-0.11.0/read.c:343-358 | opens an array with all slots empty and makes its first element the current task |
| `TaskStack.TaskStack.CreateObject` | helper/redis_helper/hiredis-0.11.0/hiredis.c:102-190 | the new object fills the hole of the innermost open array, the objects made before stay what they are |
| `ReplyObjects.RepresentsStable` | helper/redis_helper/hiredis-0.11.0/hiredis.c:102-190 | an object that is complete stands for the same reply after any later creation |
| `ReplyObjects.RepresentsUnique` | helper/redis_helper/hiredis-0.11.0/hiredis.c:102-190 | an object stands for at most one reply |
| `Scan.SeekNewline` | helper/redis_helper/hiredis-0.11.0/read.c:120-145 | finds the first carriage return that a newline follows, or that there is none |
| `Scan.ReadLongLong` | helper/redis_helper/hiredis-0.11.0/read.c:148-173 | reads a sign and digits up to the end of the line as the number they mean |
| `Scan.ReadLineItem` | helper/redis_helper/hiredis-0.11.0/read.c:215-247 | status, error and integer lines as the grammar reads them, with their size |
| `Scan.ReadBulkItem` | helper/redis_helper/hiredis-0.11.0/read.c:249-300 | bulk items: nil for a negative length, otherwise the payload of the given length with two bytes behind it that are not looked at; nothing while bytes are missing |
| `Scan.ReadHeader` | helper/redis_helper/hiredis-0.11.0/read.c:316-318 | the count line of an array, if it is complete |
| `Wire.EncodeReads` | helper/redis_helper/hiredis-0.11.0/hiredis.c:530-566 | a command, whatever bytes its arguments hold and whatever follows, is parsed as one array of exactly those arguments, and the rest is left |
| `ReplyTexts.CommandIs` | helper/redis_helper/hiredis-0.11.0/hiredis.c:530-566 | the bytes of a command: `*` and the count, and for each argument `$`, its length, and its bytes, each with a line break |
| `Wire.PipelineReads` | helper/redis_helper/hiredis-0.11.0/hiredis.c:907-918 | pipelined commands are parsed one by one, in order, with nothing left over |
| `Wire.EncodeIsPrefixFree` | helper/redis_helper/hiredis-0.11.0/hiredis.c:530-566 | no command is a proper prefix of another and different argument lists have different texts |
| `Wire.VisitArguments` | helper/redis_helper/hiredis-0.11.0/async.c:566-578 | iterating the walker over a formatted command visits exactly its arguments, in order, and then ends, even when they hold dollar signs, line breaks or NULs |
| `Wire.NextArgumentAt` | helper/redis_helper/hiredis-0.11.0/async.c:566-578 | at the start of an argument the walker finds that argument and goes on behind it |
| `Format.FormatCommandArgv` | helper/redis_helper/hiredis-0.11.0/hiredis.c:530-566 | writes the wire form of the arguments; the length computed before is exactly used up and a NUL follows |
| `Format.FormatSdsCommandArgv` | helper/redis_helper/hiredis-0.11.0/hiredis.c:477-519 | the dynamic string with digit-reversal printing holds the same bytes, and the returned length is its length |
| `Format.FormatCommand` | helper/redis_helper/hiredis-0.11.0/hiredis.c:210-440 | splits the format, up to its first NUL, on blanks first and interpolates afterwards: the result is the wire form of those arguments with a NUL behind it; a conversion that is not known gives no command and -2 |
| `Format.CollectArgs` | helper/redis_helper/hiredis-0.11.0/hiredis.c:230-395 | the loop over the format stops exactly at a refused conversion, and otherwise collects those arguments and the exact length of their texts |
| `FormatWords.FormatStandsFor` | helper/redis_helper/hiredis-0.11.0/hiredis.c:230-395 | a format written as words between blanks, each word of plain bytes, `%s`, `%b`, `%%` and numeric conversions with any flags, width, precision and size, gives exactly those words: plain bytes as they are, C strings up to their NUL, binary strings whole, a percent sign, and what was printed for a number |
| `FormatWords.OtherLetterRefused` | helper/redis_helper/hiredis-0.11.0/hiredis.c:352-354 | behind any words, a conversion with another letter refuses the whole format |
| `FormatWords.LongConversion` | helper/redis_helper/hiredis-0.11.0/hiredis.c:356-370 | a numeric conversion of 14 bytes or more takes its argument and prints nothing; its text is read again from behind its second byte |
| `FormatWords.ArgvStandsFor` | helper/redis_helper/hiredis-0.11.0/hiredis.c:530-545 | arguments given as an array end at their NULs, or have the given lengths and may hold NULs |
| `Format.DetectConversion` | helper/redis_helper/hiredis-0.11.0/hiredis.c:274-352 | flags, width and precision are passed over; the conversion ends at an integer letter with an optional hh, h, ll or l, or at a floating-point letter without one, and is refused otherwise |
| `Format.ArgumentCountIsFixed` | helper/redis_helper/hiredis-0.11.0/hiredis.c:230-395 | interpolated bytes never split or join arguments: whether a format is accepted, and the number of arguments, depend on the format alone |
| `Format.WordsText` | helper/redis_helper/hiredis-0.11.0/hiredis.c:230-395 | a text piece extends the current argument or starts one, never both |
| `Format.CommandLength` | helper/redis_helper/hiredis-0.11.0/hiredis.c:540-545 | the length computed before anything is written is the length of the wire form |
| `Format.BulkLen` | helper/redis_helper/hiredis-0.11.0/hiredis.c:206-208 | the length of the text of every argument of a given length |
| `Format.WriteCommand` | helper/redis_helper/hiredis-0.11.0/hiredis.c:547-562 | filling the buffer ends exactly at its computed length |
| `Numerals.CountDigits` | helper/redis_helper/hiredis-0.11.0/hiredis.c:193-201 | counts the decimal digits by steps of one to four, for every number |
| `Numerals.DecimalIs` | helper/redis_helper/hiredis-0.11.0/sds.c:299-329 | a number is printed by exactly the digits that stand for it, without needless zeros |
| `Numerals.SignedText` | helper/redis_helper/hiredis-0.11.0/sds.c:299-329 | prints the decimal digits by reversal in place, with the sign and a NUL, in a buffer of 21 bytes |
| `Numerals.UnsignedText` | helper/redis_helper/hiredis-0.11.0/sds.c:331-357 | the same for unsigned numbers |
| `Numerals.ReverseInPlace` | helper/redis_helper/hiredis-0.11.0/sds.c:317-326 | reverses a part of a buffer and leaves the rest |
| `Numerals.LineNumberDecimal` | helper/redis_helper/hiredis-0.11.0/read.c:148-173 | what was printed as a decimal number is read as that number |
| `Output.Output.BufferWrite` | helper/redis_helper/hiredis-0.11.0/hiredis.c:831-856 | any partial write: the written bytes and the buffer together stay the appended bytes, in order; the error is set exactly on a failed write of a non-empty buffer |
| `Output.Output.AppendCommand` | helper/redis_helper/hiredis-0.11.0/hiredis.c:907-918 | appends the command to what is to be written |
| `Output.Drive` | helper/redis_helper/hiredis-0.11.0/hiredis.c:831-856 | over any appends and partial writes, what was written is a prefix of the concatenation of the commands |
| `Output.WrittenIsCommands` | helper/redis_helper/hiredis-0.11.0/hiredis.c:831-856 | whatever was written so far parses without a fault into the first of the commands |
| `Async.Run` | helper/redis_helper/hiredis-0.11.0/async.c:227-564 | for every sequence of events and calls and every re-entrant user code: flags, list, buffers and histories at the end are those of the fold over the events; the callbacks that ran are exactly those owed, each with its own function, private data and reply; the bytes written and those still in the buffer are the texts of the accepted commands, in order; when the context is freed all accepted commands were settled and the user was told once, with the right status |
| `AsyncLog.LogIsExact` | helper/redis_helper/hiredis-0.11.0/async.c:411-489 | what is owed is exact: in command order, at most once, each invocation with the callback that was given with its command and the reply to that command or none, and a settled command is among them exactly when it has a function |
| `AsyncLog.EachCallbackItsReply` | helper/redis_helper/hiredis-0.11.0/async.c:411-489 | when callbacks can be told apart, one that ran was given the reply to the command it was registered with, and ran once |
| `AsyncSpec.RunKeeps` | helper/redis_helper/hiredis-0.11.0/async.c:323-362 | between any two points of a run commands, replies and written bytes are only added, and what was written and what is buffered are the texts of the accepted commands, in order; once DISCONNECTING or FREEING is set no later event and no callback adds a command, and the flag stays; a context that is gone stays as it is |
| `AsyncSpec.RunReceives` | helper/redis_helper/hiredis-0.11.0/async.c:411-535 | over every run: the replies that were handed over are the first of those that the events brought, and all of them as long as the context is not gone |
| `AsyncSpec.OrderlyRunReceives` | helper/redis_helper/hiredis-0.11.0/async.c:411-535 | when nothing is read before the connection stands and the server answers no more than it was asked, except by errors, they are the first of the replies that the events carry, and all of them as long as the context is not gone |
| `AsyncOutput.RunWritesCommands` | helper/redis_helper/hiredis-0.11.0/async.c:642-645 | over every run: the bytes written and the bytes left in the buffer are the accepted commands in their order, so that the server reads the first of them, without a fault |
| `AsyncStatus.EndStatus` | helper/redis_helper/hiredis-0.11.0/async.c:305-349 | over every run: a context that ended without error, and not by being freed, was asked to disconnect and had a reply to every command; and there is an error only if an event was wrong: a socket not connected, a failed write or read, a malformed stream, or a reply nobody asked for |
| `AsyncSpec.ReadKeeps` | helper/redis_helper/hiredis-0.11.0/async.c:516-535 | a readable socket ends the context if and only if the connection is refused, or it stands and an error is left, nothing can be read, a reply ends it, the stream is malformed, or a disconnect waits for nothing more; otherwise exactly the replies that arrived were handed over |
| `AsyncSpec.WriteKeeps` | helper/redis_helper/hiredis-0.11.0/async.c:537-564 | a writable socket ends the context if and only if the connection is refused, or it stands and an error is left or the write fails; no command or reply is added, and bytes go out only from the front of the buffer |
| `AsyncSpec.CallKeeps` | helper/redis_helper/hiredis-0.11.0/async.c:323-362 | a call from outside ends the context if and only if it frees it, or disconnects with nothing pending; it adds a command and its text exactly when the context is not closing |
| `AsyncSpec.HandKeeps` | helper/redis_helper/hiredis-0.11.0/async.c:439-484 | a reply ends the context if and only if nobody asked for it or the callback that gets it frees the context; it is matched with the oldest pending command |
| `AsyncSpec.HandAllGoes` | helper/redis_helper/hiredis-0.11.0/async.c:411-489 | replies in a row end the context if and only if one of them does, all before it having been handed over |
| `AsyncSpec.FinishKeeps` | helper/redis_helper/hiredis-0.11.0/async.c:418-433 | behind the last reply the context ends if and only if the stream is malformed, or a disconnect has neither output nor callbacks left |
| `AsyncSpec.DropKeeps` | helper/redis_helper/hiredis-0.11.0/async.c:275-288 | callbacks run while the context is torn down cannot add commands, so that the loop over them ends with all settled |
| `Async.AsyncContext.React` | helper/redis_helper/hiredis-0.11.0/async.c:494-564 | one event or call moves the object as the step of the fold |
| `Async.AsyncContext.AsyncCommand` | helper/redis_helper/hiredis-0.11.0/async.c:583-648 | the text of a regular command is accepted exactly when the context is neither disconnecting nor freeing, and then its callback comes last in the list and its bytes last in the buffer; the end of a subscription is refused, there being none; otherwise nothing changes |
| `AsyncCommands.SeesFormatted` | helper/redis_helper/hiredis-0.11.0/async.c:599-627 | from the text of a command, whatever bytes its arguments hold, the context tells subscriptions, their end, monitoring and regular commands apart exactly as the name says, in any case and with the letter of the pattern variant; a text without arguments is the one the source asserts not to be |
| `AsyncCommands.PurposeIs` | helper/redis_helper/hiredis-0.11.0/async.c:602-627 | the names are the words subscribe, unsubscribe and monitor in any case, with a p before them or not, and nothing else, except that a line break and more may follow the word; a subscription needs another argument |
| `Async.AsyncContext.ShiftCallback` | helper/redis_helper/hiredis-0.11.0/async.c:249-263 | takes the callback of the oldest unsettled command off the list, by function and private data |
| `Async.AsyncContext.RunCallback` | helper/redis_helper/hiredis-0.11.0/async.c:265-272 | runs that callback once with the reply to its command, whatever the user code does, and logs it |
| `Async.AsyncContext.UserCallback` | helper/redis_helper/hiredis-0.11.0/async.c:265-272 | user code that issues commands, disconnects or frees from inside a callback never frees the context there and enqueues nothing once a closing flag is set |
| `Async.AsyncContext.FreeContext` | helper/redis_helper/hiredis-0.11.0/async.c:275-317 | runs every pending callback without a reply, tells the user with the right status and releases the context once |
| `Async.AsyncContext.AsyncFree` | helper/redis_helper/hiredis-0.11.0/async.c:323-328 | sets the flag; outside of a callback the context is gone afterwards, inside nothing else changes |
| `Async.AsyncContext.DisconnectNow` | helper/redis_helper/hiredis-0.11.0/async.c:331-352 | the assertion of an empty list on a clean disconnect holds, so that its shift drops no callback; the context is gone afterwards |
| `Async.AsyncContext.AsyncDisconnect` | helper/redis_helper/hiredis-0.11.0/async.c:357-362 | no commands are taken on any more; the context goes at once exactly without pending callbacks and outside of a callback |
| `Async.AsyncContext.ProcessCallbacks` | helper/redis_helper/hiredis-0.11.0/async.c:411-489 | hands the replies to the callbacks in order until the context is gone, and says exactly when that is |
| `Async.AsyncContext.HandleConnect` | helper/redis_helper/hiredis-0.11.0/async.c:494-511 | first event on the socket: connected, still in progress, or refused and gone |
| `Async.AsyncContext.HandleRead` | helper/redis_helper/hiredis-0.11.0/async.c:516-535 | the new state after a readable socket, and exactly when the context is gone |
| `Async.AsyncContext.Dispatch` | helper/redis_helper/hiredis-0.11.0/async.c:439-484 | a reply goes to the oldest pending command; stops exactly when the context is gone, which is when nobody asked for the reply or the user code freed the context |
| `Async.AsyncContext.CallFromOutside` | helper/redis_helper/hiredis-0.11.0/async.c:323-362 | calls from outside of callbacks: the new state, and exactly when the context is gone |
| `Async.AsyncContext.HandleWrite` | helper/redis_helper/hiredis-0.11.0/async.c:537-564 | the new state after a writable socket, and exactly when the context is gone |
| `AsyncLog.LogIncreases` | helper/redis_helper/hiredis-0.11.0/async.c:411-489 | the owed invocations are in command order, each at most once |
| `AsyncLog.LogComplete` | helper/redis_helper/hiredis-0.11.0/async.c:275-317 | a settled command is among them exactly when it has a function |
| `AsyncLog.LogAnswers` | helper/redis_helper/hiredis-0.11.0/async.c:411-489 | each of them is of the callback of its own command, with the reply to it or none if there was none |
| `DictIterator.Drive` | helper/redis_helper/hiredis-0.11.0/dict.c:135-256 | over every run of add, replace, delete and find from an empty table and for every hash function, the table answers as a finite map does |
| `DictIterator.Perform` | helper/redis_helper/hiredis-0.11.0/dict.c:135-256 | one operation on the table: its answer and the new map are those of the operation on a plain map |
| `Dict.Dict.Add` | helper/redis_helper/hiredis-0.11.0/dict.c:135-154 | fails exactly on a key that is there, and then changes nothing that can be found; otherwise the map has the new pair |
| `Dict.Dict.Replace` | helper/redis_helper/hiredis-0.11.0/dict.c:160-179 | sets the value either way and says whether the key was new |
| `Dict.Dict.Delete` | helper/redis_helper/hiredis-0.11.0/dict.c:182-210 | fails exactly on a missing key; otherwise only that node is unlinked and freed, the chains keep their order, and every pointer to what is behind it in its bucket still leads there |
| `Dict.Dict.Unlink` | helper/redis_helper/hiredis-0.11.0/dict.c:194-203 | the node before it, or the bucket, is linked to the node behind it |
| `Dict.Dict.Find` | helper/redis_helper/hiredis-0.11.0/dict.c:243-256 | a pointer to a live node with the pair of the map, or nothing |
| `Dict.Dict.Expand` | helper/redis_helper/hiredis-0.11.0/dict.c:88-132 | fails exactly when the size is below the number of entries; otherwise the new table holds the same map in a power of two of buckets, each entry moved to the head of its new bucket in turn, and the doubling is exact |
| `Dict.MoveAll` | helper/redis_helper/hiredis-0.11.0/dict.c:102-126 | after the loop the count is zero, as asserted, although the loop may stop before the last bucket; the relinked nodes hold every entry, in the order of moving them one by one to the heads |
| `Dict.MoveBucket` | helper/redis_helper/hiredis-0.11.0/dict.c:111-124 | relinks one bucket node by node: each entry comes to the head of its new bucket, so that their order there is reversed, and the other old buckets can still be walked |
| `Dict.EndOfMove` | helper/redis_helper/hiredis-0.11.0/dict.c:105-126 | whether the loop ends behind the last bucket or because nothing is counted any more, the count is zero and everything was moved |
| `DictNodes.MoveNode` | helper/redis_helper/hiredis-0.11.0/dict.c:116-123 | setting `next` of a node to the head of its new bucket and the bucket to the node: the new list begins with it, the old one goes on behind it, all other lists stay |
| `DictNodes.UnlinkNode` | helper/redis_helper/hiredis-0.11.0/dict.c:194-203 | relinking the node before, or the bucket, and freeing the node leaves a list of live nodes without that entry |
| `DictNodes.PointsFrame` | helper/redis_helper/hiredis-0.11.0/dict.c:111-124 | a change to nodes with one key leaves every list alone in which that key is not |
| `DictNodes.PushFront` | helper/redis_helper/hiredis-0.11.0/dict.c:145-151 | a new node that points to the head of a bucket makes a list with its entry in front |
| `Dict.Walk` | helper/redis_helper/hiredis-0.11.0/dict.c:190-209 | finds the node with the key and the one before it, or that there is none, reading only live nodes |
| `Dict.Dict.ExpandIfNeeded` | helper/redis_helper/hiredis-0.11.0/dict.c:295-303 | never fails, and leaves room for one more entry: the table is made with four buckets or doubled when it is full |
| `Dict.Dict.KeyIndex` | helper/redis_helper/hiredis-0.11.0/dict.c:320-337 | the bucket of a new key, or -1 exactly when the key is there |
| `DictChains.NextPower` | helper/redis_helper/hiredis-0.11.0/dict.c:306-315 | the smallest power of two from four on that is not below the size |
| `DictChains.AllMoved` | helper/redis_helper/hiredis-0.11.0/dict.c:106-126 | when the loop ends either way, the moved entries are the whole map and nothing is counted |
| `DictIterator.Traverse` | helper/redis_helper/hiredis-0.11.0/dict.c:258-286 | a full pass returns every entry exactly once, also when the caller deletes any of the entries right after they were returned; the others stay |
| `DictIterator.Iterator.Next` | helper/redis_helper/hiredis-0.11.0/dict.c:268-286 | returns the first of what is left to return, and leaves the rest |
| `DictIterator.Take` | helper/redis_helper/hiredis-0.11.0/dict.c:268-286 | the same on the fields: the saved pointer leads to the rest of the current bucket before and after |
| `DictIterator.DeleteLast` | helper/redis_helper/hiredis-0.11.0/dict.c:276-282 | deleting the entry that was just returned frees its node; the pointer saved before still leads to the rest, and what is left to return is the same |
| `DictIterator.AllListed` | helper/redis_helper/hiredis-0.11.0/dict.c:258-286 | bucket after bucket, every pair of the map is listed once |
| `Sds.Sds.MakeRoomFor` | helper/redis_helper/hiredis-0.11.0/sds.c:129-149 | keeps the content, with length plus free space equal to the preallocation rule and the allocation one more |
| `Sds.RoomIs` | helper/redis_helper/hiredis-0.11.0/sds.c:129-149 | a string that must grow gets as much spare room as it then needs, but no more than one mebibyte; one with room enough keeps it |
| `Sds.Sds.CatLen` | helper/redis_helper/hiredis-0.11.0/sds.c:237-248 | the content is the old one followed by the bytes, and ends with a NUL |
| `Sds.Sds.CpyLen` | helper/redis_helper/hiredis-0.11.0/sds.c:269-284 | the content is exactly the bytes |
| `Sds.Sds.GrowZero` | helper/redis_helper/hiredis-0.11.0/sds.c:215-231 | the content grows with NULs to the length, or stays when it is longer |
| `Sds.Sds.Range` | helper/redis_helper/hiredis-0.11.0/sds.c:575-603 | the content is the slice that start and end mean, negative ones counted from the end; the capacity stays |
| `Sds.SliceIs` | helper/redis_helper/hiredis-0.11.0/sds.c:575-603 | positions mean the same counted from the front and from the back; those behind the end mean the last byte, those before the start the first one, and a crossed or empty range means nothing |
| `Sds.Sds.Trim` | helper/redis_helper/hiredis-0.11.0/sds.c:543-559 | the content is the slice between the first and the last byte that is not to be cut off |
| `Sds.Sds.CatFmt` | helper/redis_helper/hiredis-0.11.0/sds.c:425-528 | appends the rendering of the format; numbers are printed in full |
| `SdsFormats.FormatStandsFor` | helper/redis_helper/hiredis-0.11.0/sds.c:425-528 | a format of plain bytes, `%s`, `%S`, `%i`, `%I`, `%u`, `%U`, `%T` and any other byte behind a percent sign: C strings up to their NUL, dynamic strings whole, numbers by their digits with the sign of negative ones, and the other byte itself |
| `Sds.Sds.constructor` | helper/redis_helper/hiredis-0.11.0/sds.c:51-67 | a string with the given content and no free space |
| `SplitArgs.SplitUndoesRepr` | helper/redis_helper/hiredis-0.11.0/sds.c:740-923 | any list of byte strings, with NULs, quotes, backslashes or empty, printed and joined with any blanks, is split into exactly that list |
| `SplitArgs.CatRepr` | helper/redis_helper/hiredis-0.11.0/sds.c:740-763 | appends the quoted and escaped form of the bytes |
| `SplitWords.EscapeIs` | helper/redis_helper/hiredis-0.11.0/sds.c:742-761 | how each byte is printed: quotes and backslashes behind a backslash, five control characters by their letters, printable bytes as they are, others by two digits of base sixteen in lower case |
| `SplitArgs.SplitLine` | helper/redis_helper/hiredis-0.11.0/sds.c:815-923 | the splitter with its flags and cursor returns the tokens of the quoting grammar, and nothing exactly when a quote is wrong |
| `SplitArgs.GetToken` | helper/redis_helper/hiredis-0.11.0/sds.c:831-903 | one token: its bytes and where it ends, or the error of an unbalanced or badly followed quote |
| `SplitWords.LineSplits` | helper/redis_helper/hiredis-0.11.0/sds.c:815-923 | a line of words between white space, each unquoted, in double or in single quotes, or unquoted with a quoted end, is split into exactly the words |
| `SplitWords.SpacedLineSplits` | helper/redis_helper/hiredis-0.11.0/sds.c:815-923 | the same with white space behind the last word, and for a line without words |
| `SplitWords.WrongLine` | helper/redis_helper/hiredis-0.11.0/sds.c:856-879 | a line is refused as a whole when a quote in it is left open or closed right before something else, whatever words stand before |
| `SplitWords.SingleQuotedExactlyWhen` | helper/redis_helper/hiredis-0.11.0/sds.c:867-882 | a string in single quotes, with its apostrophes escaped, is read back if and only if it holds no NUL and does not end in a backslash; otherwise the line is refused |
| `SplitWords.RawReads` | helper/redis_helper/hiredis-0.11.0/sds.c:864-866 | between double quotes a byte other than a quote, a backslash and NUL stands for itself |
| `SplitWords.BackslashReads` | helper/redis_helper/hiredis-0.11.0/sds.c:843-855 | behind a backslash n, r, t, b and a stand for the five control characters, other bytes for themselves |
| `SplitWords.HexReads` | helper/redis_helper/hiredis-0.11.0/sds.c:833-842 | backslash, x and two digits of base sixteen in either case stand for that byte; otherwise the x stands for itself |
| `SplitArgs.QuotedReads` | helper/redis_helper/hiredis-0.11.0/sds.c:832-866 | the printed form of any bytes reads back as those bytes up to the closing quote |
| `SplitArgs.EscapeReads` | helper/redis_helper/hiredis-0.11.0/sds.c:833-855 | whatever follows, the printed form of a byte reads as that byte |
| `Split.SplitLen` | helper/redis_helper/hiredis-0.11.0/sds.c:658-695 | cuts at the first match of the separator, and again behind it; no result for an empty separator, no parts for an empty string |
| `Split.JoinSplit` | helper/redis_helper/hiredis-0.11.0/sds.c:658-695 | joining the parts with the separator gives the string back |
| `Split.PartsAreClean` | helper/redis_helper/hiredis-0.11.0/sds.c:671-693 | no part contains the separator |
| `Split.SplitJoin` | helper/redis_helper/hiredis-0.11.0/sds.c:658-695 | splitting undoes joining if and only if in each part, with the separator behind it, the separator is found no earlier, and the parts are not one empty string alone |
| `Split.OverlapBreaksSplit` | helper/redis_helper/hiredis-0.11.0/sds.c:671-689 | parts without the separator are not enough when it overlaps itself |
| `Split.JoinSds` | helper/redis_helper/hiredis-0.11.0/sds.c:962-971 | the parts with the separator between them |
| `EventThread.RunSafe` | helper/event_thread_pool/EventThread.cpp:99-139 | in every interleaving of producers, loop thread and stop: a non-empty queue has a wake-up outstanding, the tasks that ran are the first accepted ones in their order, and the queue is bounded |
| `EventThread.StepInv` | helper/event_thread_pool/EventThread.cpp:99-139 | every step of every thread keeps that, though a full pipe drops bytes and one read takes up to 128 |
| `EventThread.QuiescentHasRun` | helper/event_thread_pool/EventThread.cpp:107-139 | when only producers can still do something and the loop was not left, every accepted task has run |
| `EventThread.StepCloser` | helper/event_thread_pool/EventThread.cpp:99-139 | each step of the system comes closer to quiescence in a well-founded order |
| `EventThread.Settles` | helper/event_thread_pool/EventThread.cpp:99-139 | left alone, whichever enabled step is taken next, the system comes to rest; unless the loop had been left before, all accepted tasks have run then |
| `EventThread.AcceptedRunsExactlyWhen` | helper/event_thread_pool/EventThread.cpp:99-139 | in every run that ends with the loop left or the system at rest, a task that AddTask accepted has run, in its place, if and only if the loop had not been left when it was accepted |
| `EventThread.AcceptedInLoopRuns` | helper/event_thread_pool/EventThread.cpp:99-139 | what was accepted while the loop was running has run, in order, once the loop is left or the system is at rest |
| `EventThread.ExitDrains` | helper/event_thread_pool/EventThread.cpp:99-105 | when the loop is left, everything accepted until then has run |
| `EventThread.NothingRunsAfterExit` | helper/event_thread_pool/EventThread.cpp:99-105 | afterwards nothing runs: what has run is exactly what had been accepted at that moment, and the rest stays in the queue |
| `EventThread.AcceptedTaskLost` | helper/event_thread_pool/EventThread.cpp:107-125 | a run in which AddTask accepts a task that never runs, because it came after the drain |
| `EventThread.TaskQueue.AddTask` | helper/event_thread_pool/EventThread.cpp:107-125 | accepts if and only if the queue was empty or shorter than its size, appends the task then, and asks for a wake-up exactly if the queue was empty; the same as the step of the protocol |
| `EventThread.AcceptedExactlyWhen` | helper/event_thread_pool/EventThread.cpp:107-125 | in the protocol a task is accepted if and only if the queue is empty or shorter than its size; then it comes last, and wakes the loop thread exactly if it is the first; otherwise nothing changes |
| `EventThread.TaskQueue.HandleTask` | helper/event_thread_pool/EventThread.cpp:127-139 | empties the queue and runs what was in it in order |
| `EventThread.StartInv` | helper/event_thread_pool/EventWatcher.cpp:100-121 | the empty queue with empty pipes satisfies the invariant, for every queue size, zero included, and every pipe capacity from one on |
| `RingBuffer.Run` | multi_thread/boost_condition.cc:19-97 | under every schedule with spurious wake-ups: what was sent and received and where the threads are is the fold of the protocol over the schedule; what was received is a prefix of what was sent, which is a prefix of the input; everything was received if and only if neither thread can run |
| `RingBuffer.FairSchedulesDeliver` | multi_thread/boost_condition.cc:19-97 | a schedule in which both threads get turns again and again delivers the whole input, after a number of rounds that the input and the spurious wake-ups bound |
| `RingBuffer.MovesAreBounded` | multi_thread/boost_condition.cc:19-60 | in every schedule the turns that get something done are bounded: each lowers a measure that only spurious wake-ups raise |
| `RingBuffer.NoDeadlock` | multi_thread/boost_condition.cc:19-60 | as long as something is missing, one of the threads can do something |
| `RingBuffer.RunIsSafe` | multi_thread/boost_condition.cc:19-60 | every schedule keeps that the threads never both wait, that a waiting writer has a full and a waiting reader an empty ring |
| `RingBuffer.Buffer.Put` | multi_thread/boost_condition.cc:19-38 | waits exactly when the ring is full; otherwise appends to what was sent and wakes a waiting reader |
| `RingBuffer.Buffer.Get` | multi_thread/boost_condition.cc:40-60 | waits exactly when the ring is empty; otherwise returns the oldest value and wakes a waiting writer |
| `RingBuffer.Buffer.Counters` | multi_thread/boost_condition.cc:62-69 | p_ is c_ plus full_ modulo the size, and the two threads never both wait |
| `ConfigTree.SavedLoadsAgain` | util/config.cpp:242-257 | a loaded tree that is saved and loaded again is the same tree, with keys, values, comments, parents and depths, when each saved line survives the line buffer |
| `ConfigLimits.SavedLoadsExactlyWhen` | util/config.cpp:29-96 | for every text that loads: the tree is the same after saving and loading again if and only if each saved line survives, that is it fits the buffer, or has one byte too many which is only the blank before an empty value |
| `ConfigLimits.CutTreeDiffers` | util/config.cpp:33-37 | a saved entry that does not survive makes loading fail or gives another tree |
| `ConfigLimits.CutCommentDiffers` | util/config.cpp:33-37 | so does a saved comment, wherever its pieces end up, since fewer bytes are left in keys and values |
| `ConfigLimits.LoadedIsShallow` | util/config.cpp:36-63 | in a loaded tree no entry is deeper than 4094 and no comment deeper than 4095, the line buffer being what it is |
| `ConfigLimits.FullLineIsNotRestored` | util/config.cpp:242-257 | a line `k=` with a value that fills the line buffer loads to one entry, but its saved form loads to another tree or none |
| `ConfigLimits.NotRestored` | util/config.cpp:242-257 | such a text exists |
| `ConfigTree.LoadedIsProper` | util/config.cpp:29-96 | every tree that a text loads to has trimmed keys and values, comments directly below the current entry, and parents on its path |
| `ConfigTree.SaveIsInOrder` | util/config.cpp:242-257 | saving recursively visits the nodes in the order in which the loader made them |
| `ConfigTree.FindsParent` | util/config.cpp:49-59 | an entry with the indentation of a saved node goes up to exactly the parent of that node |
| `ConfigText.WrittenItemReads` | util/config.cpp:253-253 | a written entry is read with the same indentation, key and value |
| `ConfigText.WrittenCommentReads` | util/config.cpp:250-250 | a written comment is read with the same text |
| `ConfigOutline.LoadedIsOutline` | util/config.cpp:29-96 | every text loads if and only if its lines are an outline, and to the tree of that outline: an entry belongs to the last entry before it that is indented less, a comment to the last entry, and an entry may be indented by one tab more than the last one, the first by one |
| `ConfigLines.EntryLineReads` | util/config.cpp:41-82 | tabs, a key, a colon or an equals sign and a value, with any white space around them, are an entry with that indentation, key and value |
| `ConfigLines.CommentReads` | util/config.cpp:43-48 | a line with # behind its tabs is a comment with the bytes behind it |
| `ConfigLines.BlankReads` | util/config.cpp:37-39 | a line is passed over if and only if it is all white space |
| `ConfigLines.SpaceFails` | util/config.cpp:60-63 | other white space behind the tabs makes a line wrong |
| `ConfigLines.NoSeparatorFails` | util/config.cpp:65-77 | a line that is no comment and has neither a colon nor an equals sign is wrong |
| `ConfigLines.SavedLineIs` | util/config.cpp:245-254 | the line that is saved for a node: a tab for each level of its parent, and # with the comment, or the key, a colon, a blank and the value |
| `ConfigText.LinesOfLongLine` | util/config.cpp:33-36 | a line that does not fit the buffer loses the last byte of its first piece |
| `ConfigText.ParseGives` | util/config.cpp:41-82 | keys hold no separator, keys and values no blanks around them |
| `Config.Load` | util/config.cpp:29-105 | the tree of the text, or null exactly when a line is wrong |
| `Config.Config.LoadLine` | util/config.cpp:36-89 | one line: a node below the current entry or an ancestor of it, a comment, nothing, or failure |
| `Config.Config.Pop` | util/config.cpp:49-55 | goes up once for each level and stays at the root |
| `Config.Config.Save` | util/config.cpp:242-257 | writes the children in order, each followed by its own |
| `Config.Config.FindChildOf` | util/config.cpp:174-182 | the last child with the key |
| `ConfigLines.FindIsLast` | util/config.cpp:174-182 | what is found is the last node with that parent and key, and nothing only if there is none |
| `Config.Config.GetPath` | util/config.cpp:184-208 | follows the fields of the path, as far as it fits the buffer |
| `ConfigLines.PathHasFields` | util/config.cpp:184-208 | a path has the fields it was put together from, whatever mixture of dots and slashes divides them, up to its end or to the 4095 bytes that fit the buffer |
| `Config.Config.BuildKeyPath` | util/config.cpp:125-156 | adds what is missing on the way and returns the last entry |
| `Config.Config.Set` | util/config.cpp:158-163 | the tree with the path made and the value set |
| `Config.Config.AddChild` | util/config.cpp:165-172 | a new last child, one deeper than its parent, and nothing else |
| `ConfigPaths.SetIsFound` | util/config.cpp:158-208 | after set, get of the path gives an entry with the value |
| `ConfigPaths.SetKeepsOthers` | util/config.cpp:158-208 | every path that was found leads to the same entry, and its value changed only if the path has the same fields, be they divided by dots or slashes |
| `ConfigPaths.SetMakesPrefixes` | util/config.cpp:125-156 | a path that is found only afterwards begins the path that was set |
| `ConfigPaths.WalkInjective` | util/config.cpp:184-208 | different fields lead to different entries |
| `Base64Url.UrlRoundTrip` | util/base64.cc:193-266 | with room for the bytes, decoding an encoding returns them, and writes nothing behind them |
| `Base64Url.UrlWritesInBounds` | util/base64.cc:218-266 | decoding an encoding writes within the declared size if and only if the bytes fit or the size is a multiple of three |
| `Base64Url.WritesBehindTheEnd` | util/base64.cc:232-236 | two bytes decoded into a buffer of one: it succeeds and writes both |
| `Base64Url.EncodeBuffer` | util/base64.cc:193-216 | fails exactly without a buffer or room; otherwise the buffer starts with the encoding and is unchanged behind it |
| `Base64Url.DecodeBuffer` | util/base64.cc:218-266 | status, length and memory after the call, for every text and size, including what was written before a failure and behind the declared size |
| `Base64Url.EncodeGroupInto` | util/base64.cc:144-168 | one group with its padding at its place |
| `Base64Url.DecodeGroupInto` | util/base64.cc:170-191 | the bytes of a good group at their place, put together by shifts and or |
| `Base64Url.BadData` | util/base64.cc:237-255 | bad exactly when the group does not decode |
| `Groups.WritesInBoundsFrom` | util/base64.cc:232-263 | for any text: the writes stay within the declared size if and only if that holds all groups before a bad one or ends with one of them |
| `Groups.ThreePerFour` | util/base64.cc:232-263 | three bytes for every four characters are always enough |
| `Groups.DecodeEncoded` | util/base64.cc:218-266 | the round trip for every coding of single groups that can be undone |
| `Base64.GroupIsNumber` | util/base64.cc:146-151 | the four sextets are the digits in base 64 of the number that the three bytes are in base 256 |
| `Base64.TablesInvert` | util/base64.cc:112-142 | the encoding and the decoding table are inverse, and the padding has no value |
| `Base64.StandardIs` | helper/util/base64.cpp:6-11 | the 64 characters of the standard alphabet, one by one, in both directions |
| `Base64.UrlIs` | util/base64.cc:132-142 | the same for the alphabet with - and _ |
| `Base64.PaddingIs` | util/base64.cc:154-167 | a last group is that of its bytes with zeros behind them, with an equals sign for each missing byte |
| `Base64Stream.StandardRoundTrip` | helper/util/base64.cpp:36-141 | decoding an encoding returns the bytes, for every byte string |
| `Base64Stream.DecodeBuffer` | helper/util/base64.cpp:75-141 | result, length and memory after the call, for every text: the streaming decoder yields what packing four sextets into three bytes does, and its last assertion holds |
| `Base64Stream.EncodeBuffer` | helper/util/base64.cpp:36-73 | fails exactly without room; otherwise the buffer starts with the encoding and is unchanged behind it |
| `Base64Stream.PackSnoc` | helper/util/base64.cpp:103-120 | each character completes one byte of the group packing, except the first of a group |
| `Base64Stream.OutputFits` | helper/util/base64.cpp:77-80 | with whole groups of characters all writes stay within every buffer that is accepted; otherwise within two bytes more |
| `Base64Stream.OutputFitsExactlyWhen` | helper/util/base64.cpp:75-141 | for every text and every size: all writes stay within it if and only if it holds three bytes for each four characters that are not padding up to the offending one, one for each further, and one more when two characters of a group are over at the end of the text and its last character is padding or `9`, whose value is the code of the padding; whole groups fit every accepted size |
| `Base64Stream.ScanStops` | helper/util/base64.cpp:89-122 | the loop gives up exactly at the first character without a value, or at padding behind one character of a group that something else follows |
| `Base64Stream.AcceptedBufferOverrun` | helper/util/base64.cpp:77-136 | any two characters and one padding: room for two bytes is accepted, decoding succeeds and three are written |
| `Base64Stream.EncodingOutputFits` | helper/util/base64.cpp:75-141 | decoding an encoding never writes outside an accepted buffer |
| `Base64Stream.ReadAll` | helper/util/base64.cpp:89-122 | the loop: what was scanned, what was written, and the last character seen |
| `Base64Stream.MopUp` | helper/util/base64.cpp:126-136 | fails on one character too many before padding; otherwise clears the byte behind the result |
| `Crc32.Crc32.Checksum` | util/crc/crc32/crc32.cc:25-38 | the table-driven checksum is the bit-at-a-time division, from every starting value, on the first and on later calls |
| `Crc32.Crc32.InitCrcTable` | util/crc/crc32/crc32.cc:8-23 | every entry of the table is its index times x to the eighth |
| `Crc32.CrcIsRemainder` | util/crc/crc32/crc32.cc:25-38 | the division has a closed form: the starting value times a power of x plus a power of x for each bit that is set |
| `Crc32.CrcLinear` | util/crc/crc32/crc32.cc:25-38 | the checksum of the exclusive or of two messages and starting values is that of their checksums |
| `Crc32.CrcComposes` | util/crc/crc32/crc32.cc:25-38 | the checksum of a concatenation is that of its second part started with that of its first |
| `Crc32.TableStep` | util/crc/crc32/crc32.cc:34-34 | the table entry of the low byte and the rest moved down are eight steps of the division |
| `Crc32.RegisterLaws` | util/crc/crc32/crc32.cc:13-22 | exclusive or, lowest bit and shift of 32 bits obey the laws of a division register |
| `Crc32.PolynomialIs` | util/crc/crc32/crc32.cc:8-23 | in the register x^32 is the sum of the powers of x that the polynomial of IEEE 802.3 names |
| `Division.DivideIsRemainder` | util/crc/crc32/crc32.cc:13-22 | in any register that obeys the laws, division bit by bit leaves the remainder |

## Left out

- Sockets, polling, timeouts, event-loop adapters and logging: their results are parameters (what arrived, how much was written, which step comes next).
- malloc failure: allocation always succeeds, so the out-of-memory branches of the reader, the formatters, the strings and the table are not modelled.
- Integer widths: counts, lengths and reply integers are unbounded; the wrap-around of `int` lengths, `long long` values and `unsigned long` sizes, and the LONG_MAX cap of the table size, are not modelled. `Numerals` and `Crc32` state their widths.
- Numerals.SignedText: excludes the smallest 64-bit number, whose negation is undefined.
- Format.FormatCommand: excludes arguments that are missing or of another kind than the format asks for, and a format that ends inside a conversion, which are undefined in the source. What vsnprintf prints for a number under a conversion is a parameter.
- Format.FormatSdsCommandArgv: requires the argument count and lengths to fit the printf-like conversions that print them.
- The reader's user-defined object functions: the default ones of `hiredis.c` are modelled; the reader without object functions is not.
- Reader.Reader.Feed: the buffer is a sequence with its free space counted, not the array of the dynamic string, whose operations are proved in `Sds`.
- Publish/subscribe and MONITOR in `async.c`: with them callbacks are kept or found by channel, and the request/reply order does not hold.
- Async.AsyncContext.AsyncCommand: excludes the texts that `AsyncCommands.Classified` finds to be subscriptions or monitoring, after which the context is no longer in request/reply mode, and a text without arguments, which the source asserts not to be.
- Async.AsyncContext.HandleRead: the server answers each command at most once and may add error replies nobody asked for.
- Async.Run: the connect and disconnect callbacks of the user do not call back into the context.
- Dict.Dict.Add: the hash function is any function of the key, keys are compared for equality, and no key or value is duplicated or destroyed by user functions. Memory that was freed is not used again.
- DictIterator.Traverse: the caller deletes only entries that were just returned, and adds none during a pass.
- sdsclear, sdsupdatelen, sdsIncrLen, sdsRemoveFreeSpace, sdstolower, sdstoupper, sdsmapchars and sdscmp: they would only add easy members.
- Sds.Sds.CatFmt: excludes a format that ends in a lone percent sign and missing arguments.
- Split.SplitLen: the growth of the token array and negative lengths are not modelled.
- The locale: isspace and isprint are those of the C locale, on unsigned bytes.
- EventThread.RunSafe: the test of the queue in HandleStop, which takes no lock in the source, is one atomic step; Init, Start and the thread handles are not modelled.
- RingBuffer.Run: one writer and one reader, as the program has; with more of them a single notification may wake the wrong thread.
- Config.Load: excludes texts in which a piece that is read begins with a NUL, where the source writes before its buffer. Opening and closing files is not modelled. `trim` and `is_empty_str` are not part of the repository and follow the notes in `util/config.h`.
- The numeric getters of the configuration, the destructors and the line numbers of error messages.
- The string wrappers of both base64 codecs, and the block functions of `helper/util/base64.cpp` behind line 145.
- Crc32.Crc32.Checksum: the first call from two threads at once, which may fill the table twice, is not modelled.
- RedisConnPool, the compressors, hashes, memcached and thrift helpers, shared-memory and file helpers: thin wrappers or easy accounting.
