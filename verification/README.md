# A verified model of the async-server transport, hiredis and the service tree

The repository moves requests between one network process and a number of worker processes over byte rings in
shared memory, talks to Redis with a bundled hiredis, and keeps a tree of services with an availability flag each.
The modules here model the parts of it that hold state and prove what they are relied on for.
Code that updates objects, buffers and lists in place is a class with methods; each method is tied to a
specification function, and the promises are theorems about those functions and about whole runs.

## The modules

Redis protocol (hiredis)
- `Bytes.dfy`, `Arith.dfy`: byte strings, a little division.
- `Decimal.dfy`: canonical decimal text; the strict reader, the printers and the digit counter against one definition.
- `Resp.dfy`: the protocol (RESP2: "Integers", "Bulk Strings", "Arrays") as a recursive decoder over whole byte strings.
- `Wire.dfy`: the same protocol written down form by form. Main results: `DecodesExactly`, which characterises the
  decoder on every input, `ReadWritten` and `ReadViolation` for the incremental reader.
- `Resume.dfy`: what a half-read reply still means, independent of buffers.
- `Reader.dfy`: the incremental reader with its task stack, buffer and reply object under construction. Main result:
  `ParseStream`, for every stream and every way of cutting it into chunks.
- `Conversion.dfy`: the scanner for printf conversions against their grammar (`ConversionExact`).
- `Format.dfy`: the three command formatters, their exact sizes, and format strings. Main results:
  `CommandsReadBack`, `ReadCommands`, `VFormatCommand`.
- `FormatSpelling.dfy`: format strings as they are written, word by word. Main results: `FormatWords`,
  `FormatMeaningless`.
- `Async.dfy`: the asynchronous context, with callbacks that call back into the library. Main result: `RunEvents`,
  over every run from construction to teardown.
- `Dict.dfy`: the resizing hash table. Entries are heap nodes, relinked in place when the table grows and spliced
  out and freed by a deletion; a freed node holds anything. Main results: the contracts of the operations.
- `DictIterator.dfy`: its iterator, with deletions between the steps. Main results: `DeleteDuring`, `VisitAll`.
- `Quoting.dfy`: the quoting printer and the argument splitter. Main result: `QuoteThenSplit`.
- `QuoteGrammar.dfy`: the lines the splitter accepts, as a grammar. Main result: `SplitsExactly`.

Transport (async-server)
- `RingLayout.dfy`: cursors in 0..size and the stream positions they stand for.
- `RingProtocol.dfy`: producer and consumer of a ring as processes that interleave at every load, single-byte copy
  and publication of a cursor, with the overflow list. Main results: `RingSafety`, `NeverOverwrites`,
  `ReadsOnlyPublished`.
- `ShmQueue.dfy`: the same operations as methods on an array.
- `LinkIds.dfy`: connections, reused descriptors, workers and the link-id guard. Main results:
  `AnswersReachTheirConnection` and, for its bound, `OverflowMisdelivers`.
- `LinkNews.dfy`: what workers, plugins and connections are told, in every run. Main results: `GoneIsTold`,
  `PluginsHear`, `AnswerArrives`.
- `TcpSocket.dfy`: packet framing and the send list. Main results: `FramesExactly`, `ReceiveStream`, `ReceivePackets`
  and the invariant of `Sender`.

Services (common)
- `Elements.dfy`: the availability tree and the choosers. Main results: `RunEvents`, `ChooseService`.
- `Services.dfy`: `AsyncService` objects, the descriptor map and the retry set. Main result: `RunEvents`.

Inputs that stand for the outside: what `recv`, `send` and `connect` answer, the time, failing allocations (where
they are modelled), what a user's callback or plugin decides.

## What the code does where its documentation says otherwise

- The two bytes after a bulk payload are skipped without a look (hiredis/read.c:336-353), and integers must be
  canonical: `+1`, `01` and `-0` are errors (hiredis/read.c:181-190). The decoder follows the code.
- `make_id` (async-server/src/reactor.h:70-73) is meant to give every connection its own id. It does for fewer than
  2^31 connections and not for more (`IdsDistinct`); with 2^31 an answer can reach a stranger (`OverflowMisdelivers`).
- The length check of `recv_push` (async-server/src/shmq.cpp:201) lets through payloads of size-16 to size-1 bytes,
  which can never enter the ring and block everything behind them (`OversizedBlocksTheQueue`).
- `recv_push` with `safe=false` returns 0 for some blocks it did not queue (async-server/src/shmq.cpp:211-212): exactly
  those of fitting length for which the bytes already queued, ring and list together, are fewer than the ring's size,
  but no longer are with the block. `RecvPush` says so, and `UnqueuedZero` gets there with two pushes.
- "An element is enabled iff one of its children is" (common/strategy.h:11-12) fails after `AddChild` exactly in the
  cases named in its contract: an enabled child under a disabled element (common/strategy.cpp:37-39 notifies the
  element's ancestors, not the element), or a disabled first child under an enabled one. A child that already has
  another parent stays in that one's list, so that the lists no longer agree with the `parent` fields.
  `AdditionThatBreaks` builds both kinds of broken tree.
- A printf conversion of 14 bytes or more is not handed to printf (hiredis/hiredis.c:354-364): its value is used up,
  nothing is written for it, and its bytes from the third on are read as text. It is the `Blank` of `Format.dfy`.
- The user of the iterator may delete the entry it was given (hiredis/dict.c:277-278). Deleting any other entry is
  safe too, except the one remembered as the next: the iterator stays valid iff it is not that one (`DeleteDuring`).
- `SetServiceConnected` and `SetServiceDisconnected` look descriptors up with `operator[]` (common/service.h:143,153),
  which enters NULL for an unknown one. The map stays exact iff only known descriptors are reported; otherwise a
  later connection on that descriptor is never entered (`StaleEntryHidesConnection`).
- `AsyncService::Init` on an enabled service, or with an address that does not parse, leaves the service neither
  enabled nor due for a retry; the contract of `Init` says exactly when it is in the retry set.

## Model

| member | source | states |
|---|---|---|
| Decimals.DigitsInjective | hiredis/read.c:157-218 | two numbers never print the same, so strict text has at most one value |
| Decimals.ParseDecimal | hiredis/read.c:157-218 | the canonical decimal of every long long is read as that number |
| Decimals.String2ll | hiredis/read.c:157-218 | succeeds exactly on canonical decimals of LLONG_MIN..LLONG_MAX, with the value; every other text, empty, signed, padded or overflowing, is refused |
| Decimals.ReadMagnitude | hiredis/read.c:181-203 | yields the number whose canonical digits the text is, or nothing, and then the text is no canonical long long |
| Decimals.PrefixOverflow | hiredis/read.c:192-203 | the overflow guards are sound: once a prefix exceeds the bound, so does the number |
| Decimals.DigitsLength | hiredis/hiredis.c:191-201 | the number of digits is at most k iff the number is below 10^k |
| Decimals.ReverseInPlace | hiredis/sds.c:451-459 | the prefix is reversed, the rest of the buffer untouched |
| Decimals.PrintBackwards | hiredis/sds.c:439-444 | the loop writes the digits backwards and no byte behind them |
| Decimals.Sdsll2str | hiredis/sds.c:431-461 | writes the canonical decimal and a terminator within 21 bytes for every long long, LLONG_MIN included |
| Decimals.Sdsull2str | hiredis/sds.c:463-490 | the same for every unsigned long long |
| Decimals.PrintThenRead | hiredis/sds.c:431-461 | reading back what was printed gives the number, on every long long |
| Decimals.CountDigits | hiredis/hiredis.c:191-201 | returns the length of the printed decimal |
| Decimals.DigitsDenote | hiredis/sds.c:439-444 | the digits of a number, read as base ten, are that number |
| Resp.LineExtends | hiredis/read.c:119-142 | a line once found is found again whatever follows |
| Resumption.MovedMeaning | hiredis/read.c:235-258 | moving to the next task means what the decoder does with the rest of every open array |
| Resumption.LeafStep | hiredis/read.c:260-299 | a leaf item read takes the half-read reply to the state after it, for every continuation |
| Resumption.ArrayStep | hiredis/read.c:365-439 | opening an array keeps the meaning of the half-read reply |
| Resumption.BodyFails | hiredis/read.c:260-439 | a protocol violation does not depend on the bytes that follow |
| Resumption.PlugSet | hiredis/hiredis.c:124-128 | storing an element through its parent fills exactly the slot being read |
| Reader.SeekNewline | hiredis/read.c:119-142 | finds the first CRLF, or that there is none |
| Reader.RedisReader.LinkToParent | hiredis/hiredis.c:124-128 | the object lands in the slot of its parent named by the task |
| Reader.RedisReader.MoveToNextTask | hiredis/read.c:235-258 | closes every array the item completes and advances the innermost open one, keeping the task stack in range |
| Reader.RedisReader.ProcessLineItem | hiredis/read.c:260-299 | consumes exactly one line item, waits, or fails, as the decoder does |
| Reader.RedisReader.ProcessBulkItem | hiredis/read.c:301-363 | the same for a bulk string |
| Reader.RedisReader.ProcessMultiBulkItem | hiredis/read.c:365-439 | the same for an array header, with the nesting limit |
| Reader.RedisReader.ProcessItem | hiredis/read.c:441-488 | the same for one item with its type byte |
| Reader.RedisReader.Feed | hiredis/read.c:518-548 | appends to the stream fed so far; refuses once the reader has failed |
| Reader.RedisReader.Discard | hiredis/read.c:583-589 | dropping the consumed part of the buffer changes nothing unread |
| Reader.RedisReader.GetReply | hiredis/read.c:550-598 | hands out the next reply of the stream, or none when the decoder too needs more |
| Reader.EmitsOne | hiredis/read.c:591-597 | a finished reply is the decoder's next one |
| Reader.StreamPending | hiredis/read.c:550-598 | an unfinished reply is where the decoder stops too |
| Reader.StreamFailed | hiredis/read.c:550-598 | a failed reader fails where, and how, the decoder fails |
| Reader.ParseStream | hiredis/read.c:518-598 | for every byte string and every cut into chunks: the replies, then pending or the error, are those of the recursive decoder on the whole string |
| Wire.WrittenReads | hiredis/read.c:441-488 | a status, error or integer line, a bulk string, either nil, or an array of such forms down to the limit is read as what it means, whatever follows |
| Wire.ReadForm | hiredis/read.c:260-488 | whatever is read was written in one of these forms |
| Wire.ViolationFails | hiredis/read.c:260-488 | an unknown type byte, a bad number, a length out of range or too deep an array, behind well-formed elements or not, fails with its own error |
| Wire.FailureViolates | hiredis/read.c:260-488 | nothing else fails |
| Wire.DecodesExactly | hiredis/read.c:260-488 | both at once: for every byte string, read iff it starts with a form, failed iff it violates one, otherwise waiting |
| Wire.StreamReads | hiredis/read.c:550-598 | forms one after the other give their replies, then what follows them |
| Wire.StreamForms | hiredis/read.c:550-598 | every stream is such forms, then something that fails or waits at once |
| Wire.ReadWritten | hiredis/read.c:518-598 | the incremental reader hands out what was written, however the bytes arrive |
| Wire.ReadViolation | hiredis/read.c:518-598 | and stops at the first violation behind it, with its error |
| Format.BulksReadBack | hiredis/read.c:301-439 | the decoder inverts any list of formatted arguments, leaving what follows |
| Format.CommandReadsBack | hiredis/hiredis.c:524-560 | the decoder inverts the formatter on one command |
| Format.CommandsReadBack | hiredis/hiredis.c:524-560 | and on any concatenation of commands, with arbitrary binary arguments, consuming every byte |
| Format.ReadCommands | hiredis/read.c:518-598 | so does the incremental reader, however the bytes arrive |
| Format.BulkLen | hiredis/hiredis.c:203-206 | the exact size of a bulk string |
| Format.TotalLength | hiredis/hiredis.c:483-488 | the precomputed size is the size of the command |
| Format.BuildCommand | hiredis/hiredis.c:538-557 | fills a buffer of exactly the computed size plus a terminator |
| Format.FormatCommandArgv | hiredis/hiredis.c:524-560 | writes the command of the argument vector; the assertion on the written length holds |
| Format.FormatSdsCommandArgv | hiredis/hiredis.c:471-513 | appends the same bytes piece by piece |
| Conversions.ConversionExact | hiredis/hiredis.c:283-348 | the greedy scan takes a text iff the grammar of conversions allows it, so that at most one prefix is a conversion |
| Conversions.ScanConversion | hiredis/hiredis.c:279-352 | finds the letter that ends a conversion, or that there is none |
| Format.ScanInside | hiredis/hiredis.c:228-378 | inside an argument the scanner fills the current template |
| Format.ScanOutside | hiredis/hiredis.c:228-378 | argument count and boundaries come from the format alone, never from interpolated values |
| Format.ScanNext | hiredis/hiredis.c:228-378 | each step of the loop does to the argument vector what the piece of the format it reads means |
| Format.Interpolate | hiredis/hiredis.c:254-369 | the switch on the byte behind a `%`: what it appends, whether it uses up a value, and where the scan goes on |
| Format.ScanFormat | hiredis/hiredis.c:228-389 | the scanning loop computes that argument vector and the size of its bulks, or fails exactly on a `%` without a meaning |
| Format.VFormatCommand | hiredis/hiredis.c:208-436 | the output is the command of the format's templates filled with the values in order, or -2 for a bad format |
| FormatSpelling.FrontIs | hiredis/hiredis.c:254-369 | what the scanner takes of each way to write a piece of a word |
| FormatSpelling.LineReads | hiredis/hiredis.c:228-389 | a format of non-empty words with blanks between is scanned into those words, each piece standing for itself, `%%` for a percent sign, `%s`, `%b` and conversions for the next value |
| FormatSpelling.FormatWords | hiredis/hiredis.c:208-436 | the formatter writes the command of exactly those filled words |
| FormatSpelling.FormatMeaningless | hiredis/hiredis.c:350-352 | a `%` that neither a known letter nor a conversion follows makes the whole format fail |
| Format.FormatBothWays | hiredis/hiredis.c:394-415 | format-string and argument-vector formatter write the same bytes |
| Async.CallbackList.Push | hiredis/async.c:227-246 | appends to the linked list |
| Async.CallbackList.Shift | hiredis/async.c:249-263 | takes the head off, or reports an empty list |
| Async.AsyncContext.AsyncCommand | hiredis/async.c:597-675 | accepts and queues at the tail, unless the context is disconnecting or being freed |
| Async.AsyncContext.RunCallback | hiredis/async.c:265-272 | the callback runs once, with whatever it does to the context on the way |
| Async.AsyncContext.FreeContext | hiredis/async.c:275-317 | every pending callback gets NULL, in order; the drain ends because no command is accepted any more |
| Async.AsyncContext.AsyncFree | hiredis/async.c:323-328 | inside a callback only notes the wish; else tears down |
| Async.AsyncContext.DisconnectContext | hiredis/async.c:331-350 | tears down; its assertion that nothing is pending on a clean disconnect holds |
| Async.AsyncContext.AsyncDisconnect | hiredis/async.c:358-363 | at once only when idle and outside callbacks |
| Async.AsyncContext.ProcessCallbacks | hiredis/async.c:425-503 | replies go to the oldest pending callbacks in order, whatever those do; the rest get NULL only at teardown; a free noted by a callback is carried out before it returns, and so is a disconnect once nothing is pending or unwritten |
| Async.AsyncContext.HandleRead | hiredis/async.c:530-549 | keeps all this over a readable event; while disconnecting nothing is accepted, and each reply shortens the list by one until the disconnect |
| Async.AsyncContext.HandleWrite | hiredis/async.c:551-576 | and over a writable one |
| Async.AsyncContext.HandleConnect | hiredis/async.c:508-525 | a failed connect tears the context down, a pending one changes nothing |
| Async.LedgerShift | hiredis/async.c:249-263 | taking a callback off keeps "accepted = taken + pending" and "the k-th taken got the k-th reply", and makes exactly one call due |
| Async.CallsInOrder | hiredis/async.c:265-272 | the calls due are the non-NULL callbacks, in order of acceptance, the k-th accepted with the k-th outcome |
| Async.EveryCallbackOnce | hiredis/async.c:275-317 | when the context is gone every accepted command's callback has run exactly once, in order, the k-th with the k-th reply received and with NULL when there is none |
| Async.RunEvents | hiredis/async.c:275-675 | over every run of commands, disconnects, frees, readable and writable events, from construction on: at teardown the k-th accepted command's callback was called once, with the k-th reply of the server's stream or else with NULL, and the disconnect callback once iff connected; a free, asked for from outside or inside a callback, has torn the context down; a disconnect with nothing left to wait for has too after a readable event; a command is turned away only while disconnecting |
| Dicts.MaskIsRemainder | hiredis/dict.c:327-328 | masking with size-1 is the remainder by a power of two |
| Dicts.InsertKeeps | hiredis/dict.c:135-154 | prepending a new key's node keeps placement, adds one node and one to the count |
| Dicts.RemoveKeeps | hiredis/dict.c:182-210 | taking a node out of its row removes one key and one of the count |
| Dicts.SpliceKeeps | hiredis/dict.c:194-199 | writing the predecessor's `next`, or the bucket's head, leaves every bucket a list of exactly its other nodes |
| Dicts.PushKeeps | hiredis/dict.c:116-117 | writing a node's `next` and the bucket's head puts that node in front and disturbs no other bucket |
| Dicts.RelinkKeeps | hiredis/dict.c:113-117 | so a table of lists gains that node, in the bucket of its hash |
| Dicts.MidwayStep | hiredis/dict.c:109-121 | the successor saved before the write is the next node of the old row, which the write leaves linked |
| Dicts.MovingStep | hiredis/dict.c:99-123 | moving a whole bucket leaves all later buckets of the old table linked as they were |
| Dicts.NextPower | hiredis/dict.c:306-315 | the least power of two at or above size and 4, or LONG_MAX |
| Dicts.Dict.WriteNext | hiredis/dict.c:116-117 | the two pointer writes of the growth |
| Dicts.Dict.MoveRow | hiredis/dict.c:106-122 | relinks one bucket in place, node by node, into the new table |
| Dicts.Dict.MoveAll | hiredis/dict.c:99-126 | relinks them all; the assertion at line 126 holds |
| Dicts.Dict.Expand | hiredis/dict.c:86-132 | growing keeps the map, the nodes and the count; refuses to shrink below the entries |
| Dicts.Dict.ExpandIfNeeded | hiredis/dict.c:295-303 | four buckets at first, doubled when full |
| Dicts.Dict.KeyIndex | hiredis/dict.c:320-337 | the bucket of a new key, or that the key is there |
| Dicts.Dict.Add | hiredis/dict.c:135-154 | adds the binding iff the key is new |
| Dicts.Dict.Replace | hiredis/dict.c:160-179 | sets the binding, says whether it was new |
| Dicts.Dict.Splice | hiredis/dict.c:194-199 | the two ways to unlink a node, through `prevde` or the head |
| Dicts.Dict.Unlink | hiredis/dict.c:193-205 | after either, the table is valid without that node, which is no longer live |
| Dicts.Dict.Delete | hiredis/dict.c:182-210 | removes the binding and frees its node iff it is there, touching no other node or bucket |
| Dicts.Dict.FindEntry | hiredis/dict.c:243-256 | finds exactly the map's node for the key, live and with the map's value |
| DictIterators.DictIterator.Next | hiredis/dict.c:268-286 | returns the first entry of what is left, leaves the rest, and never looks at the entry returned before |
| DictIterators.AfterSpliced | hiredis/dict.c:182-210 | a deletion takes one key out of what is listed after any bucket and nothing else |
| DictIterators.InPlaceSpliced | hiredis/dict.c:268-286 | the remembered successor still heads the rest of its row after a deletion iff its key is not the one deleted |
| DictIterators.AheadSpliced | hiredis/dict.c:268-286 | what is ahead of the iterator loses exactly the deleted key |
| DictIterators.DeleteDuring | hiredis/dict.c:268-286 | between two steps any key may be deleted: the iterator stays valid iff it is not the remembered successor's, and then goes on with exactly what is left |
| DictIterators.DeleteReturned | hiredis/dict.c:276-280 | deleting the entry just returned does not disturb the iteration |
| DictIterators.ListsAll | hiredis/dict.c:258-286 | the listing of the table has every key of the map exactly once |
| DictIterators.VisitAll | hiredis/dict.c:258-286 | a full iteration visits every entry once, with its value, though the caller deletes any of them as soon as it has it; what is left is the map without those |
| Quoting.CatRepr | hiredis/sds.c:867-890 | appends the quoted representation |
| Quoting.GetToken | hiredis/sds.c:950-1037 | one argument of a line in any of the three modes, or that its quotes are wrong |
| Quoting.SplitArgs | hiredis/sds.c:942-1058 | computes the arguments of a line, or that its quotes are wrong |
| Quoting.ReadEscaped | hiredis/sds.c:960-990 | between double quotes the splitter undoes the printer byte for byte |
| Quoting.ReadSpelled | hiredis/sds.c:953-1032 | an argument written quoted, bare or between single quotes is read as itself |
| Quoting.SplitFrom | hiredis/sds.c:942-1058 | a line of so written arguments with any blanks between splits into exactly them |
| Quoting.QuoteThenSplit | hiredis/sds.c:867-1058 | splitting the space-joined representations of any list of byte strings gives the list |
| QuoteGrammar.WordReads | hiredis/sds.c:953-1032 | a word of the grammar, bare bytes and a quoted part with its escapes, followed as it must be, is read as what it means |
| QuoteGrammar.DoubleReads | hiredis/sds.c:960-994 | a double-quoted part is read iff a blank or the end follows its closing quote, else the splitter fails |
| QuoteGrammar.LineReads | hiredis/sds.c:942-1058 | a line of such words splits into what they mean |
| QuoteGrammar.LineWas | hiredis/sds.c:942-1058 | whatever is split is such a line |
| QuoteGrammar.SplitsExactly | hiredis/sds.c:942-1058 | for every text: it splits into `args` iff its bytes before the first NUL are a line that means `args`, and fails iff they are no line |
| RingLayout.DistanceCounts | async-server/src/shmq.cpp:62-70 | the cursor arithmetic counts the bytes between the processes, also across laps and with a cursor equal to size |
| RingLayout.CopyCounts | async-server/src/shmq.cpp:31-56 | a possibly wrapping memcpy moves along the stream and ends on the right cursor |
| RingLayout.BlockWritten | async-server/src/shmq.h:13-19 | a header with the payload's length in its third word makes a block |
| RingLayout.ListCopy | async-server/src/shmq.cpp:215-223 | the copy on the overflow list means the same block |
| RingProtocol.ProducerInv | async-server/src/shmq.cpp:14-58 | every producer step keeps the invariant |
| RingProtocol.ConsumerInv | async-server/src/shmq.cpp:60-121 | every consumer step keeps the invariant |
| RingProtocol.RunInv | async-server/src/shmq.cpp:14-121 | the invariant holds at the end of every interleaving |
| RingProtocol.NeverOverwrites | async-server/src/shmq.cpp:14-58 | no byte written by the producer lies in a published block that is not released |
| RingProtocol.ReadsOnlyPublished | async-server/src/shmq.cpp:60-121 | every byte read by the consumer is published and unreleased |
| RingProtocol.NoWrap | async-server/src/shmq.cpp:18-107 | no 32-bit cursor, size or sum of them wraps around in either process, the consumer's position plus payload length included |
| RingProtocol.RefusedExactly | async-server/src/shmq.cpp:18-28 | an unsafe push of fitting length ends refused iff it finds the ring, or the list's front, without room |
| RingProtocol.RingSafety | async-server/src/shmq.cpp:14-297 | in every run pulled blocks are a prefix of accepted ones, byte for byte; ring then overflow list hold the rest in order; safe pushes are refused only for length or memory, unsafe ones for lack of room only if there was none at some moment during them |
| RingProtocol.OversizedBlocksTheQueue | async-server/src/shmq.cpp:201-223 | an accepted block that cannot fit is never published, nor is anything behind it |
| ShmQueues.StoreView | async-server/src/shmq.cpp:31-56 | a wrapping copy into the buffer extends the published stretch by exactly the data |
| ShmQueues.ShmQueue.Push | async-server/src/shmq.cpp:14-58 | appends the block, or refuses it exactly when it would not leave a free byte |
| ShmQueues.ShmQueue.PurgeList | async-server/src/shmq.cpp:263-277 | moves the list's front into the ring without changing the whole queue; makes progress on an empty ring unless the first block is too long; stops only at a block that does not fit; empties the list iff all queued bytes are fewer than the ring's size |
| ShmQueues.ShmQueue.RecvPush | async-server/src/shmq.cpp:197-223 | appends the block whole at the tail iff its length fits and, by the bytes queued before the call, it has room or is safe and there is memory; otherwise leaves the queue alone; returns 0 without queueing exactly for an unsafe block that alone lacks room |
| ShmQueues.UnqueuedZero | async-server/src/shmq.cpp:211-212 | two unsafe pushes that both return 0, the second of which queues nothing |
| ShmQueues.ShmQueue.Pull | async-server/src/shmq.cpp:60-121 | hands out the first block whole, drops it exactly when memory for a longer buffer is refused, or reports an empty ring |
| LinkIds.IdsDistinct | async-server/src/reactor.h:70-73 | ids of the first n connections differ iff n < 2^31 |
| LinkIds.AnswersReachTheirConnection | async-server/src/shm_sevent.cpp:44-78 | over every run with fewer than 2^31 connections an answer is handed to the connection it was sent for, or to none |
| LinkIds.GuardExact | async-server/src/shm_sevent.cpp:44-78 | over the same runs an answer is handed over, or closes its connection, iff that connection still has the descriptor; otherwise it is dropped and nothing else changes |
| LinkIds.OverflowMisdelivers | async-server/src/reactor.h:70-73 | a run with 2^31 connections whose last gets the first one's answer |
| LinkIds.HandOutNamed | async-server/src/shm_sevent.cpp:44-78 | handing out, shutting and failing keep every id with its connection |
| LinkIds.WorkerNamedStep | async-server/src/net.cpp:130-163 | so do the worker's sends, hang-ups and callbacks |
| LinkIds.RunViews | async-server/src/tcp_socket.cpp:36-77 | in every run each worker's block stream is ordered by connection on every descriptor, login first |
| LinkIds.CallbackOrder | async-server/src/shm_revent.cpp:43-82 | a plugin sees a descriptor's connections in order and nothing of one after its close |
| LinkIds.LinkDownIsRight | async-server/src/shm_revent.cpp:43-82 | a reported close is that of the connection the worker's flag stands for, unless a push was lost |
| LinkNews.GoneIsTold | async-server/src/tcp_socket.cpp:239-284 | in every run without lost blocks a worker's stream has the close of every connection it was told of that is gone or being shut; once it has pulled all, its flag does not stand for such a connection |
| LinkNews.PluginsHear | async-server/src/shm_revent.cpp:43-82 | in every run every login and packet pulled reached the plugin, and, without lost blocks, so did the first close of a connection the plugin had not closed; a close sent by a plugin waits in order or has taken effect |
| LinkNews.AnswerArrives | async-server/src/net.cpp:130-163 | from every reachable state a packet of an open connection can be handled by an idle worker and its answer delivered to that connection |
| TcpSocket.FramesConserve | async-server/src/tcp_socket.cpp:103-187 | packets and rest are the stream |
| TcpSocket.FramesResume | async-server/src/tcp_socket.cpp:103-198 | cutting can stop anywhere and go on with what is left |
| TcpSocket.FramesStayBad | async-server/src/tcp_socket.cpp:105-109 | after a bad length no further byte helps |
| TcpSocket.FramesStayStuck | async-server/src/tcp_socket.cpp:111-119 | a length of zero is never got past |
| TcpSocket.FramesGrow | async-server/src/tcp_socket.cpp:103-187 | more bytes never change the packets already cut |
| TcpSocket.Receiver.HandleInput | async-server/src/tcp_socket.cpp:79-200 | the packets offered are exactly the frames of the stream so far; on success there is room to receive, and the buffer stays within max(4096, max_pkg_len); it fails exactly on a bad length, a zero length filling the buffer, or the plugin's objection to the last packet |
| TcpSocket.Receiver.Cut | async-server/src/tcp_socket.cpp:103-198 | the packet loop, with growth and the final move |
| TcpSocket.ReceiveStream | async-server/src/tcp_socket.cpp:79-200 | the same for a whole stream in pieces of any size that fit; when the plugin objects, the packets offered are a prefix of the stream's frames |
| TcpSocket.PacketsCut | async-proxy/src/server.cpp:118-125 | packets written as four base-256 digits of their length, least significant first, and a payload come out as written, with what follows cut on its own |
| TcpSocket.FramesExactly | async-server/src/tcp_socket.cpp:103-187 | for every stream: the packets, the rest and whether it is bad are the only ones for which each packet starts with its own length and the rest with no whole one |
| TcpSocket.ReceivePackets | async-server/src/tcp_socket.cpp:79-200 | so a client's packets are offered one by one as written, in pieces of any sizes, up to the plugin's objection |
| TcpSocket.DrainAll | async-server/src/tcp_socket.cpp:206-228 | a kernel that goes on taking gets every waiting byte |
| TcpSocket.DrainStops | async-server/src/tcp_socket.cpp:217-227 | the first refusal ends the round, and the connection iff it is an error |
| TcpSocket.Sender.AppendBuffers | async-server/src/tcp_socket.cpp:342-362 | queues the rest of a packet in buffers, byte for byte |
| TcpSocket.Sender.SendPkg | async-server/src/tcp_socket.cpp:292-364 | accepts the packet whole, or drops it whole when the list is full; kernel bytes then waiting bytes stay the accepted packets; EPOLLOUT armed iff bytes wait |
| TcpSocket.Sender.HandleOutput | async-server/src/tcp_socket.cpp:202-237 | gives the kernel exactly what it takes, in order, losing nothing; says when the connection ends; EPOLLOUT is given up only when nothing waits on a connection that goes on |
| Elements.Element.Enable | common/strategy.cpp:10-16 | after a leaf is enabled the whole tree is consistent again, no other leaf changed |
| Elements.Element.AfterEnable | common/strategy.cpp:44-56 | the climb ends and repairs every ancestor |
| Elements.Element.Disable | common/strategy.cpp:18-25 | after a leaf is disabled the whole tree is consistent again, no other leaf changed |
| Elements.Element.AfterDisable | common/strategy.cpp:58-81 | the climb goes on exactly while all children are disabled |
| Elements.Element.AddChild | common/strategy.cpp:27-42 | adds the child; the flags stay consistent iff the stated condition on child and parent holds, the lists iff the child had no other parent |
| Elements.FlagsTellServices | common/strategy.h:11-12 | in a consistent tree of any depth an element is enabled iff a service below it is |
| Elements.AdditionThatBreaks | common/strategy.cpp:27-42 | two-element trees for both cases in which adding a child leaves a wrong flag |
| Elements.FlagsTellEvents | common/strategy.h:11-12 | when objects agree with the additions and switches so far, every flag is what those alone determine |
| Elements.RunEvents | common/strategy.cpp:10-81 | after any run that builds a tree and lets services go up and down, every object is what the events determine: children are those added, in order; services have the state of their last event; every inner element, at any depth, is enabled iff a service below it is |
| Elements.ChooseFixed | common/strategy.cpp:95-106 | the first enabled element, or none iff none is enabled |
| Elements.Covers | common/strategy.cpp:131-139 | going round once from any start meets every index exactly once |
| Elements.RollStrategy.Choose | common/strategy.cpp:125-143 | the first enabled element from the current one on, the current one itself if it is enabled, or none iff none is |
| Elements.ChooseRound | common/strategy.cpp:125-143 | while all are enabled, as many choices as elements take each once, in order from the current one |
| Elements.ChooseBy | common/strategy.cpp:95-143 | by either strategy: none iff none is enabled, else an enabled one |
| Elements.ChooseService | common/service_group.cpp:256-285 | whatever the strategy at either level, a group, forbidden replicas without services in it or not, is enabled iff choosing through both reaches an enabled service of it |
| Services.AsyncService.Init | common/service.cpp:305-361 | the whole new state for every answer of the network; in the retry set iff it succeeds and is not forbidden |
| Services.AsyncService.LinkUp | common/service.cpp:364-371 | enabled and no longer due for a retry, tables consistent |
| Services.AsyncService.Shut | common/service.cpp:373-386 | gives up the descriptor, leaves both tables |
| Services.AsyncService.ReInit | common/service.cpp:388-398 | restarts the attempt unless one is still waiting |
| Services.AsyncService.LinkDown | common/service.cpp:401-414 | gives up the descriptor and asks for a retry |
| Services.AsyncService.Send | common/service.cpp:416-436 | a failed or breaking send takes the service down into the retry set, any other changes nothing |
| Services.Statics.SetServiceConnected | common/service.h:136-150 | brings up the service of the descriptor; the map keeps no NULL iff the descriptor was known |
| Services.Statics.SetServiceDisconnected | common/service.h:152-160 | takes down the service of the descriptor; same condition |
| Services.StatusSound | common/service.cpp:305-436 | by the events alone, a connecting service is due for a retry and an enabled one is not |
| Services.RetryTimesOut | common/service.cpp:321-356 | by the events alone, a retry at most the timeout after the attempt changes nothing; a later one gives the descriptor up and connects anew |
| Services.StartedAlive | common/service.cpp:305-436 | by the events alone, a service started, while not enabled, and not stopped is enabled or due for a retry, unless an address was unusable |
| Services.RunEvents | common/service.cpp:305-436 | after any run from construction on, with starts, stops, connection events, retries and sends over many services, every service's flags, descriptor and retry membership are what the events alone determine, and the map is exact; enabled services hold a descriptor and are out of the retry set, connecting ones hold one and are in it, and every service started and not stopped is enabled or due |
| Services.StaleEntryHidesConnection | common/service.h:152-160 | one unknown descriptor is enough for a later connection on it to be missed |

## Left out

Of the code modelled
- Reader: the reply tree and the tasks' parent pointers are a value updated at a path; lines and buffers beyond 2 GB (`int` lengths), failing allocations, custom reply functions and the texts of errors are not modelled.
- Format.VFormatCommand: the value of a printf conversion is the text the C library makes of it; a format that ends inside a conversion of fewer than 14 bytes makes the source step over the terminator, and is excluded (`Closed`); as many values as the format uses up is a demand on the caller, and totals must fit an `int`.
- RingProtocol.RingSafety: memory is sequentially consistent; a ring is at most 0x7FFFFFEF bytes, the `int` shmq_size less the 16-byte head (async-server/src/main.cpp:189); a ring of size 0 and the wake-up byte in the pipe are left out. `send_push` and `pruge_send` are the same code as `recv_push` and `pruge_recv`.
- LinkIds.AnswersReachTheirConnection: the rings are FIFO lists here (their own proofs are in `RingProtocol.dfy`); a notice to all workers is one step; connections to other servers are only occupants of descriptors; the shutdown loop of the worker is left out.
- Async.AsyncContext.HandleConnect: that `redisCheckSocketError` leaves an error rests on connect(2) setting a positive `errno` when it fails (the type `Errno`).
- Async: subscribe and monitor modes, timers and the event-library hooks; the connect callback is left out and the disconnect callback is a counter.
- Dicts.Dict.Delete: freeing a node makes its fields arbitrary and takes it out of the live set; that its memory may be handed out again is not modelled, nor are failing allocations and the destructors of keys and values.
- Dicts.Dict.Add: tables of fewer than 2^31 entries; keys are compared by equality and never change in a node.
- TcpSocket.Receiver.HandleInput: the length function is that of the proxy plugin (async-proxy/src/server.cpp:118-125); the overlapping memcpy (async-server/src/tcp_socket.cpp:195) is a move; which worker gets a packet, and `realloc` failing, are left out. Receiving and sending are two objects.
- TcpSocket.Sender.SendPkg: buffers never run out and `epoll_ctl` succeeds.
- Elements.RollStrategy.Choose: the overflow of `m_current`; the strategies by region of an integer or a string.
- Services.AsyncService.LinkUp: the enable flag is a plain field; the climb of `Enable` and `Disable` through the tree is in `Elements.dfy`.
- Services.RunEvents: the loop of `ProcessReInit` (common/service.cpp:28-40) changes the set it walks; single retries are events instead. The count that `SetServiceConnected` logs is left out, except that it may not meet NULL.
- Quoting.SplitArgs: failing allocations; `isspace` and `isprint` are those of the C locale.

Not modelled
- `sdsMakeRoomFor`, `sdsrange` and the sds headers: strings are values.
- The linkers of the async-server, near copies of the socket.
- Sockets, epoll, fork, pipes, signals, plugin loading, hiredis/net.c and the adapters.
- The proxy's Redis commands, configuration, logging, timers, scripts; destructors.
