# Verified models of the event_loop repository

Dafny models of the algorithmic code of the repository, with proofs of what that code keeps, promises
or fails to promise. `dafny verify dfyconfig.toml` checks everything.

| files | what they model |
|---|---|
| `LogFormat`, `FileIO`, `LogSearch`, `LogRange`, `LineSplit`, `LfsContext`, `LogQuery`, `LogRoundTrip` | the log file of `logfile/lfs_read.c`: the binary search over raw byte offsets, the range of a time query, the chunked line reader, opening and appending |
| `Exceptions`, `ExceptionMachine`, `ExceptionProof` | the Try/Catch/Throw macros of `eloop/cexcept.h`, with `return`, as a translation to a machine with saved continuations |
| `PoolCursor`, `PoolRun`, `PoolAllocator` | the allocator of `etc/tdxagwDbgMalloc.cpp`: three pools of 1024 slots with cyclic cursors, in front of the heap |
| `WsFrame`, `WsCodec`, `WsReceive` | WebSocket framing of `etc/ws_transcode.c`, `etc/ws_encode.c` and `etc/ws_decode.c` (sections 5.2 and 5.3 of RFC 6455) |
| `JsonText` | the filters `etc/jss_encode.c` and `etc/jss_decode.c` (section 7 of RFC 8259) |
| `NtpTime` | time comparison and the NTP timestamp (section 6 of RFC 5905) |
| `Getopt`, `HexText`, `FiberCopy` | `getopt`, hexadecimal text and the byte counter of `eloop/common.c`; the copying fibers of `eloop/fiberSample.c` |
| `Bytes` | bytes, hexadecimal digits, words |

## How the models are built

A file is a byte sequence with a position; `read` returns any number of the bytes it may, or an error,
unless the file is marked as giving whole reads. A log is a sequence of records and the file is their
concatenation. Code that works in place is a class or a method over arrays, proved against a function;
what the source promises is then proved about that function. Widths are written out where they matter:
64-bit `unsigned long`, `size_t` and `off_t`, 32-bit `int`, `unsigned int` and `DWORD`.

A well-formed log is a nonempty sequence of records of at most 512 bytes, each eight hexadecimal
digits, a comma, a payload without a newline, and a newline.

## What the code does that its comments do not say

- A range query whose end falls strictly between the last two timestamps also returns the last record
  (`LogRange.TakesLastInGap`), and one whose end is the largest `unsigned long` returns nothing
  (`LogRange.RangeSelects` has the exact condition). So asking for the first record of a log of two
  records returns both (`LogQuery.FirstQuery`).
- The line reader asks for less than the range when its offset is not a multiple of 512, and counts
  carried bytes twice in its offset, so it can stop before the end of the range and lose records
  (`LogQuery.LostRecord` is a query that loses one of two). With d = 512 - soff % 512 and e = eoff % 512,
  a range that fits the 1 MB buffer is answered in full exactly when soff is a multiple of 512, or the
  range is longer than d, e divides d and a record starts at eoff - j * e for each j from 2 to d / e
  (`LogQuery.AnsweredInFull`); for ranges of any length the exact condition is
  `LogQuery.AnsweredAtAnyLength`.
- `decodeWebSockMsg` returns a number that is not negative, like a message length, without a message
  exactly when bytes follow a whole frame, or the low 32 bits of a long length are a negative `int` from
  which the difference of the lengths is still an `int` (`WsFrame.NoMessage`). Ten bytes can make it return
  65537, more than the 65536 bytes of the receive loop's buffer, or overflow to the least `int`, which
  reads as a wait for more (`WsFrame.NegativeLengths`).
- The receive loop stays inside its buffers exactly on input that, cut into frames and headers with a
  negative length, fits them piece by piece (`WsReceive.BoundedIsHoldable`). One frame with an opcode that
  the decoder does not know, such as a binary one, ends the reception for good
  (`WsReceive.RefusedFrame`).
- In `getopt` an option that takes an argument and is not the first of its word gets everything after
  the first option character of that word (`Getopt.ArgumentOfSecondOption`, and
  `Getopt.GetoptMatches` for the exact condition).
- `wpa_snprintf_hex` with an even buffer size that is too small leaves one more digit than the number
  it returns (`HexText.SnprintfHex`).
- The third pool serves requests of 26 bytes from blocks whose recorded size is 25, and that size is
  what `my_realloc` copies: the last byte is lost (`PoolAllocator.LastOf26IsLost`). The recorded size is
  the requested one exactly for requests below 2^32 outside the third pool
  (`PoolAllocator.RecordedIsRequested`, `PoolAllocator.ReallocKeepsRequest`).
- A `return` out of a Try clause, which the documentation forbids, always leaves the context pointing at
  the dead jump buffer; no other end of a Try does (`ExceptionProof.TryReturns`; `ExceptionProof.ReturnFromTryClause`
  is a program that crashes on it). Out of a Catch clause it is harmless, as promised
  (`ExceptionProof.Simulates`).

## Model

| member | source | states |
|---|---|---|
| LogSearch.GetNearSeq | logfile/lfs_read.c:57-82 | one probe reads from the byte before the offset (from wherever the file stands if that is negative), any number of the bytes it may, and answers the offset after the first newline read with the number scanned there |
| LogSearch.ProbeFindsNext | logfile/lfs_read.c:64-81 | wherever a probe lands in a record it resynchronises on the next record and reads its timestamp |
| LogSearch.SearchBetween | logfile/lfs_read.c:83-138 | the recursive offset search finds a record with the least timestamp that is at least t; it terminates; d recursive calls need an interval of at least 2^(d-1) + 1022 bytes, and on increasing timestamps it probes at most 103 times more than it recurses |
| LogSearch.ScanBetween | logfile/lfs_read.c:94-103 | the linear fallback finds the same record, within 103 probes on increasing timestamps |
| LogSearch.GetSeqPosition | logfile/lfs_read.c:139-153 | for every t from the first to the last timestamp the answer is the offset and time of the record at which a plain linear scan stops; -1 before, a sentinel after |
| LogSearch.LandsInside | logfile/lfs_read.c:94-127 | with records of at most 512 bytes the midpoint probe of a large interval lands on a record strictly inside it, less than 512 bytes past the middle |
| LogSearch.ProbeMiddle | logfile/lfs_read.c:110-128 | both half intervals, less 1022 bytes, are at most half of the interval less 1022 bytes |
| LogSearch.FrugalStep | logfile/lfs_read.c:119-128 | the depth and probe bounds survive one recursive call |
| LogSearch.SmallHasFewRecords | logfile/lfs_read.c:94-103 | an interval handed to the linear fallback spans at most 102 records |
| LogSearch.ProbeStalls | logfile/lfs_read.c:94-128 | a probe resynchronises on the upper end exactly when the record before it starts below the probed offset |
| LogSearch.OneByteMoreStalls | logfile/lfs_read.c:94-128 | 512 is tight: with one record of 513 bytes the lower search repeats its own arguments |
| LogFormat.LeastIsFirst | logfile/lfs_read.c:83-138 | on increasing timestamps the least one not below t is where the linear scan stops |
| LogFormat.RecordBytes | logfile/lfs_read.c:436-440 | each record is exactly the bytes of the file between two consecutive record offsets |
| LogFormat.FormatIsRecord | logfile/lfs_read.c:436-438 | a line that the writer formats is a record exactly when the time has 32 bits and the payload up to its NUL has no newline; the time is read back |
| LogFormat.LineText | logfile/lfs_read.c:436-438 | a line character by character: eight lower-case hexadecimal digits, most significant first, a comma, the payload up to its NUL, a newline |
| LogFormat.WrittenLog | logfile/lfs_read.c:426-442 | a run of writes leaves a well-formed, increasing log exactly when every entry fits and the times increase |
| LogQuery.WriteOut | logfile/lfs_read.c:426-442 | a message of 32768 bytes or more is refused; otherwise the log grows by exactly one formatted line of the encoded message |
| LogQuery.WriteThenOpen | logfile/lfs_read.c:166-226 | messages written to an empty file and then opened: the context describes exactly the log of the messages, increasing exactly when their times are |
| LfsContext.Lfs.Init | logfile/lfs_read.c:166-226 | opening a well-formed log, even of one record, finds its size, first and last timestamps and the offset of its last record |
| LfsContext.LastRecord | logfile/lfs_read.c:181-207 | the backward scan of the last window finds the last record |
| LfsContext.FirstRecord | logfile/lfs_read.c:210-221 | the forward scan of the first window finds the first timestamp |
| LfsContext.LastRecordFound | logfile/lfs_read.c:193-205 | any backward scan to the nearest newline of the last window starts the last record |
| LfsContext.Lfs.FindStart | logfile/lfs_read.c:243-246 | the start offset is that of the first record at or after st, or the sentinel |
| LfsContext.Lfs.FindEnd | logfile/lfs_read.c:249-267 | the end offset in all cases, with the second search after an exact hit |
| LfsContext.Lfs.Filter1 | logfile/lfs_read.c:233-270 | the range holds exactly the records in [st, et] and the tolerated last one, if and only if no sentinel and no wrap-around is hit |
| LogRange.RangeSelects | logfile/lfs_read.c:233-270 | for every st and et: the exact condition for the offsets to select the records in [st, et], with and without the tolerated last one |
| LogRange.EndIsSelectedSize | logfile/lfs_read.c:249-267 | the end offset stays within the sentinel exactly when the bytes selected from the start of the file do |
| LogRange.TakesLastInGap | logfile/lfs_read.c:255-261 | the last record is taken beyond et exactly when et falls strictly between the last two timestamps |
| LogRange.SelectionIsSlice | logfile/lfs_read.c:233-270 | what a query selects is one contiguous run of records |
| LfsContext.MetAtEnd | logfile/lfs_read.c:255-264 | where the search for et ends, and where the search for et + 1 would |
| LfsContext.Lfs.EmitLines | logfile/lfs_read.c:333-351 | the inner loop hands over exactly the complete lines of the buffer and moves the unfinished one to its front |
| LfsContext.Lfs.ReadChunk | logfile/lfs_read.c:318-359 | one iteration extends the lines handed over by those of the bytes read, and never reads past the end offset |
| LfsContext.Lfs.Filter2 | logfile/lfs_read.c:307-362 | whatever sizes read returns, the lines handed over are in order and once each the complete lines of a prefix of the range; with whole reads it is the prefix that the offset arithmetic determines |
| LineSplit.LinesConcat | logfile/lfs_read.c:331-351 | carrying the unfinished line over a chunk boundary splits into the same lines |
| LineSplit.LinesOfLog | logfile/lfs_read.c:338-350 | the lines of a log are its records |
| LineSplit.AlignedRangeIsComplete | logfile/lfs_read.c:318-332 | an aligned range that fits the buffer is read to its end |
| LineSplit.RangeInsideOneBlock | logfile/lfs_read.c:318-326 | a range inside one 512-byte block is read to its end if it starts the block, else not at all |
| LineSplit.ReachesEnd | logfile/lfs_read.c:318-359 | a range that fits the buffer is read to its end exactly when it is aligned, or eoff % 512 divides the distance from soff to the next block and lines end where the last reads begin |
| LineSplit.ReachesEndClean | logfile/lfs_read.c:318-359 | a range of any length is read to its end exactly when the reads, placed by the offsets alone, come out there and every one before the last begins at a line start |
| LineSplit.AheadNeverEnds | logfile/lfs_read.c:331-354 | once carried bytes have put the counter ahead of the file position the end of the range is never reached |
| LineSplit.OpenRangeIsComplete | logfile/lfs_read.c:318-359 | a range that ends a thousandth of the file and one buffer past the end of the file is read to the end of the file |
| LogQuery.ReadIn | logfile/lfs_read.c:378-407 | the option 2 answers exactly the last record; 1 the first, with the second where FirstQuery says so; without an option, for times that do not wrap, the answer is the records r with st <= time(r) + tOffset <= et (and the last one if et falls in the last gap), exactly if the reader reads the range to its end |
| LogQuery.OptionAnswers | logfile/lfs_read.c:387-393 | the same for the lines that any query hands over, by records |
| LogQuery.OpenQuery | logfile/lfs_read.c:250-267 | a query that ends after the last record answers exactly the records from st on, for files up to about 4.28 GB |
| LogQuery.LastQuery | logfile/lfs_read.c:387-387 | the range from the last time to one more is answered by exactly the last record, for files up to about 4.28 GB |
| LogQuery.FirstQuery | logfile/lfs_read.c:388-388 | the range from the first time to one more is answered by the first record alone exactly when the log has one record, or more than two with the second more than one unit later |
| LogQuery.AlignedQuery | logfile/lfs_read.c:393-398 | a range that starts on a 512-byte boundary and fits the buffer is answered in full |
| LogQuery.OneBlockQuery | logfile/lfs_read.c:318-326 | a query whose records lie inside one 512-byte block is answered in full if they start the block, else not at all |
| LogQuery.AnsweredInFull | logfile/lfs_read.c:318-359 | a query inside the log whose range fits the buffer returns every selected record if and only if the range is empty or its offsets and the record starts before its end meet the condition of ReachesEnd |
| LogQuery.AnsweredAtAnyLength | logfile/lfs_read.c:318-359 | the same for ranges of any length, with the condition of ReachesEndClean |
| LogQuery.LineEndIsRecordStart | logfile/lfs_read.c:436-440 | the places where a line ends in the file of a log are the record starts after the first and the end |
| LogQuery.LostRecord | logfile/lfs_read.c:318-326 | a log of four records and a range over three blocks for which one of the two selected records is not returned |
| LogQuery.LinesFromRecord | logfile/lfs_read.c:307-362 | bytes from a record on split into whole records from that one |
| LogRoundTrip.SelectedLines | logfile/lfs_read.c:233-270 | the records that an open-ended query selects from a log of JSON-encoded messages decode to the data of the messages from st on |
| LogRoundTrip.WriteThenAsk | logfile/lfs_read.c:378-442 | writing messages, opening the log, asking from st on and decoding gives exactly the data of the messages from st on, in order |
| Exceptions.MoreFuel | eloop/cexcept.h:115-180 | the outcome of a program does not depend on the call bound once one is found |
| Exceptions.TryMeans | eloop/cexcept.h:131-138 | a throw in the body starts the handler in the world of the throw with the thrown value in the variable and nothing else changed; any other outcome of the body is that of the Try |
| Exceptions.CaughtIsEmitted | eloop/cexcept.h:131-138 | a handler that emits one more than it caught emits one more than was thrown |
| Exceptions.DoesNotReturn | eloop/cexcept.h:146-153 | a statement without a return of its own does not leave its procedure, whatever it calls |
| ExceptionProof.Simulates | eloop/cexcept.h:276-310 | in every context, for programs that jump out of no Try clause, the macro expansion does what Try, Catch, Throw and return mean: the handler runs exactly when the body threw, with the thrown value; a throw inside it goes to the next Try, a return inside it to the caller; penv and the live blocks are restored; no value of caught or etmp from before matters |
| ExceptionProof.Unwinds | eloop/cexcept.h:146-153 | a return drops exactly the open blocks of its procedure and goes on at the caller |
| ExceptionProof.TryReturns | eloop/cexcept.h:146-153 | for every Try whose parts keep the rule, in any context: penv is restored exactly when the body does not return; when it does, the caller goes on with penv at the dead buffer, and a throw before the next Try crashes |
| ExceptionProof.SimulatesStaying | eloop/cexcept.h:276-310 | a Try whose body does not return on this run does what it means, even if it could return |
| ExceptionProof.ReturnFromTryClause | eloop/cexcept.h:146-153 | a concrete program that returns out of a Try clause: it means a handled throw, and crashes |
| ExceptionProof.EnterTry | eloop/cexcept.h:276-282 | entering a Try links the new jump buffer in front of the old one |
| ExceptionProof.LeaveTry | eloop/cexcept.h:284-295 | a body that completes clears caught, restores penv and drops the block |
| ExceptionProof.CatchTry | eloop/cexcept.h:288-310 | a throw returns through the setjmp of its own Try with caught set and penv restored |
| ExceptionProof.EndTry | eloop/cexcept.h:284-297 | after the block the handler starts with the exception bound if the body threw, and is skipped otherwise |
| ExceptionProof.HandlerStarts | eloop/cexcept.h:276-310 | when the body throws, the machine reaches the handler with penv and the blocks of the start, the thrown value assigned and nothing else changed |
| ExceptionProof.MachineEmitsCaught | eloop/cexcept.h:276-310 | the machine runs a program that throws 7 and emits what it caught: it emits 7, from any initial context |
| ExceptionProof.Terminates | eloop/cexcept.h:276-310 | if the machine halts, the program has an outcome |
| ExceptionProof.ProgramHalts | eloop/cexcept.h:274-310 | the machine halts on exactly the programs that have an outcome, from any initial caught and etmp |
| ExceptionProof.ProgramResult | eloop/cexcept.h:163-170 | a completed program leaves penv null and no live block; an uncaught throw jumps through the null penv with its value in etmp |
| PoolCursor.FairReuse | etc/tdxagwDbgMalloc.cpp:89-115 | over every run, between two hand-outs of one slot every other slot of the pool is in use at some moment |
| PoolCursor.Sweep | etc/tdxagwDbgMalloc.cpp:95-102 | the cursor meets in use every slot that it passes or hands out before it comes round |
| PoolCursor.NextIsFree | etc/tdxagwDbgMalloc.cpp:96-104 | a pool refuses exactly when all 1024 slots are in use, and hands out only a free slot |
| PoolRun.AfterCalls | etc/tdxagwDbgMalloc.cpp:89-115 | the pools after a run of allocator calls are those that the calls before it left, moved on by the rest |
| PoolRun.FairReuseOfCalls | etc/tdxagwDbgMalloc.cpp:89-177 | fair reuse over every run of my_malloc, my_free, my_realloc and my_calloc from the start, the first call included |
| PoolAllocator.Capacity | etc/tdxagwDbgMalloc.cpp:17-20 | a block has room for its request exactly when rounding up does not wrap, wastes less than 1024 bytes and is a multiple of them |
| PoolAllocator.RecordedIsRequested | etc/tdxagwDbgMalloc.cpp:17-22 | the size in a header is the requested one exactly for requests below 2^32 outside the third pool, and never more |
| PoolAllocator.GrowingFits | etc/tdxagwDbgMalloc.cpp:124-139 | when a block does not shrink, the copy of my_realloc stays inside both blocks |
| PoolAllocator.ReallocKeepsRequest | etc/tdxagwDbgMalloc.cpp:124-139 | growing keeps all requested bytes, whatever the blocks hold, exactly under that condition |
| PoolAllocator.LastOf26IsLost | etc/tdxagwDbgMalloc.cpp:147-147 | 26 bytes in the third pool: the copy is 25 bytes long and the last byte is what the new block held |
| PoolAllocator.Allocator.constructor | etc/tdxagwDbgMalloc.cpp:83-88 | the initial state satisfies the invariant |
| PoolAllocator.Allocator.Tmalloc | etc/tdxagwDbgMalloc.cpp:37-45 | a new heap block with its two 32-bit header words, or NULL and no change |
| PoolAllocator.Allocator.TakeSlot | etc/tdxagwDbgMalloc.cpp:95-102 | the scan marks exactly the next free slot of its pool and moves only that cursor |
| PoolAllocator.Allocator.TpoolAlloc | etc/tdxagwDbgMalloc.cpp:89-105 | the pointer is not live before; a pooled size gets the next free slot, the heap serves the rest, a full pool, and everything before the pools are filled; other pools do not change; a NULL answer means that a malloc failed |
| PoolAllocator.Allocator.TpoolFree | etc/tdxagwDbgMalloc.cpp:106-115 | a free releases the slot or the heap block that the pointer came from, and nothing else |
| PoolAllocator.Allocator.FillPool | etc/tdxagwDbgMalloc.cpp:141-148 | filling a pool keeps the table free of repeats and of live pointers; its entries are the answers of malloc, in order |
| PoolAllocator.Allocator.InitOnce | etc/tdxagwDbgMalloc.cpp:141-154 | the pools are filled once and no cursor or mark changes; after that nothing does |
| PoolAllocator.Allocator.MyMalloc | etc/tdxagwDbgMalloc.cpp:151-157 | every reachable state keeps live pointers distinct, marks exact, live blocks unchanged and the table fixed; 92, 12 and 26 bytes take the next free slot of pool 0, 1 and 2 and reach the heap only when its 1024 slots are in use, on the first call as on any other; any other size comes from the heap and moves no pool; NULL means that a malloc failed |
| PoolAllocator.Allocator.MyFree | etc/tdxagwDbgMalloc.cpp:158-163 | exactly the freed block stops being live, through the slot or the heap it came from; the other live blocks keep their contents |
| PoolAllocator.Allocator.MyRealloc | etc/tdxagwDbgMalloc.cpp:124-170 | the new block starts with the recorded size of the old one and is otherwise as it was; the old one is freed; slot, pool states and heap fallback are as for a request followed by a free |
| PoolAllocator.Allocator.ReuseIsFair | etc/tdxagwDbgMalloc.cpp:89-177 | in every reachable state, when the slot to be handed out next is the one an earlier call got, every other slot of that pool has been in use since |
| PoolAllocator.Allocator.MyCalloc | etc/tdxagwDbgMalloc.cpp:116-177 | the block is cleared, and holds the array exactly when the product of the sizes did not wrap; slot, pool states and heap fallback are as for my_malloc |
| WsFrame.DecodeEncode | etc/ws_transcode.c:16-226 | decoding an encoded frame gives back message, key and length, exactly for the opcodes text, close, ping and pong; any other is refused with -9999 |
| WsFrame.WireLayout | etc/ws_transcode.c:16-69 | an encoded frame byte by byte: opcode, mask bit and length form, the length in network order, the key, and each payload byte differing from the message byte in exactly the bits of key byte i mod 4 |
| WsFrame.XorBitAt | etc/ws_transcode.c:64-65 | the bits of an exclusive or |
| WsFrame.OpcodeIsRead | etc/ws_transcode.c:56-56 | the opcode nibble of an encoded frame is the sender's, and the close flag is set exactly for opcode 8 |
| WsFrame.HeadIsRead | etc/ws_transcode.c:111-153 | bytes that start with a header announce exactly its length, key and opcode |
| WsFrame.PrefixDeficit | etc/ws_transcode.c:112-154 | on a proper prefix the decoder asks for at least one byte and at most those missing, and exactly those once the length is in |
| WsFrame.PrefixFree | etc/ws_transcode.c:101-226 | no frame is a proper prefix of another |
| WsFrame.NoMessage | etc/ws_transcode.c:112-226 | for every input whose length is an int, in 32-bit arithmetic: a return that is not negative stands for no message exactly when bytes follow a whole frame (it is their number) or the long length is negative and the difference is an int; the raw input is then copied out; an overflowing difference reads as a wait |
| WsFrame.NegativeLengths | etc/ws_transcode.c:134-153 | three inputs of ten bytes with a negative length: the return is 1, 65537, or the least int |
| WsFrame.EncodeIsMinimal | etc/ws_transcode.c:22-53 | the encoder always uses the shortest length form |
| WsFrame.Reencode | etc/ws_transcode.c:16-226 | encoding a decoded frame again is never longer, and the identity exactly on frames in minimal form |
| WsFrame.MaskTwice | etc/ws_transcode.c:62-66 | masking twice with one key is the identity |
| WsCodec.EncodeWebSockMsg | etc/ws_encode.c:9-67 | the frame is written at the start of the buffer, its payload masked bit by bit with key byte i mod 4, and nothing behind it changes |
| WsCodec.Analyse | etc/ws_decode.c:28-70 | the length analysis in buffer form |
| WsCodec.DecodeWebSockMsg | etc/ws_decode.c:17-142 | return value, message buffer, close flag and opcode nibble of one call; the message of a masked frame is unmasked bit by bit with the four bytes in front of the payload |
| WsCodec.StreamIsReceived | etc/ws_decode.c:159-189 | after any number of bytes of a stream of frames exactly the messages of the complete frames are out, in order, and the buffer holds exactly the part of the frame in progress |
| WsReceive.ReceiveLoop | etc/ws_decode.c:159-189 | the byte-at-a-time loop, on any input that fits piece by piece: the payloads of the frames, and for a negative length as many raw header bytes |
| WsReceive.BoundedIsHoldable | etc/ws_decode.c:159-189 | no turn leaves the buffers if and only if the input, cut into pieces by its own headers, fits: a condition on the bytes alone |
| WsReceive.AnyInput | etc/ws_decode.c:159-189 | what any such input leaves in the buffer and has written |
| WsReceive.Silenced | etc/ws_decode.c:159-189 | after a first byte that is refused nothing is ever written again |
| WsReceive.RefusedFrame | etc/ws_decode.c:159-189 | a frame with a refused opcode in a stream: the messages before it are written, and nothing after |
| WsReceive.StreamIsHoldable | etc/ws_decode.c:159-189 | any prefix of a stream of frames that fit keeps the loop inside its buffers, and exactly the messages of the complete frames are written |
| JsonText.RoundTrip | etc/jss_decode.c:11-34 | decoding with nothing to skip or cut inverts encoding, for all bytes |
| JsonText.FramedRoundTrip | etc/jss_decode.c:7-34 | a backslash-free prefix is skipped and a closing quote with one byte is cut, leaving the data |
| JsonText.DecodeOne | etc/jss_decode.c:14-25 | each escape is read back whatever follows |
| JsonText.EncodeIsClean | etc/jss_encode.c:13-27 | encoded text has no control byte, and no quote outside an escape |
| JsonText.EncodedIsStorable | etc/jss_encode.c:13-27 | encoded text is one log payload, stored exactly when it fits the record |
| JsonText.RecordHoldsData | logfile/lfs_read.c:434-438 | the payload of a stored record decodes to the data |
| JsonText.EncodeFilter | etc/jss_encode.c:4-29 | the loop writes prefix, for each byte the text that the source gives it, character by character, and suffix |
| JsonText.DecodedEscape | etc/jss_decode.c:14-25 | what each escape prints, whatever is still to be skipped or cut; an unknown one prints nothing |
| JsonText.DecodedCode | etc/jss_decode.c:24-24 | a code of one to four digits prints the low byte of its number |
| JsonText.DecodedPlain | etc/jss_decode.c:27-34 | skipping, cutting of quotes and plain bytes for all values of the two counters |
| JsonText.DecodeFilter | etc/jss_decode.c:4-35 | the loop with its two countdowns is the recursive decoder |
| NtpTime.OrderWithinEra | eloop/os.h:44-46 | within one era byte order of timestamps is os_time_before; across eras the exact rule |
| NtpTime.TimestampOrder | eloop/common.c:131-144 | byte order of timestamps is the order of the times reduced to one era |
| NtpTime.TwoWords | eloop/common.c:131-144 | the first four bytes count the seconds since 1900, 70 years with 17 leap days before 1970, and the last four are the fraction, both in network order |
| NtpTime.SwappedIsBigEndian | eloop/common.h:77-81 | swapping on a little-endian host puts the most significant byte first |
| NtpTime.FractionIsExact | eloop/common.c:139-141 | the 32-bit fraction is exact although the product passes 2^32 |
| NtpTime.FractionIncreases | eloop/common.c:139-141 | the fraction is strictly increasing |
| NtpTime.FractionError | eloop/common.c:139-141 | the fraction differs from the true one by less than 500 units, and is less than 2 too large |
| NtpTime.GetNtpTimestamp | eloop/common.c:131-144 | the eight bytes written |
| NtpTime.SubIsExact | eloop/os.h:48-55 | differences of normal times are normal, exact, and negative exactly when the first is earlier |
| Getopt.GetoptMatches | eloop/common.c:482-537 | what the caller sees of all calls is the recursive parse of argv exactly when options with arguments come first in their words |
| Getopt.ArgumentOfSecondOption | eloop/common.c:515-520 | a concrete argv on which it is not |
| Getopt.Progress | eloop/common.c:482-537 | every call that reports something makes progress, so repeated calls reach EOF |
| Getopt.Parser.GetOpt | eloop/common.c:478-537 | one call: EOF exactly at the end of the arguments, at a word that does not start with a dash, at "-" and at "--"; otherwise return value, optarg, optopt and the new indices by the first occurrence of the character in the option string |
| HexText.SnprintfHex | eloop/common.c:417-436 | how much is printed, in which letters, what the buffer holds and where it is closed, for every buffer size |
| HexText.HexStr2Bin | eloop/common.c:92-107 | parsing succeeds exactly on enough digits; what is written before a bad digit |
| HexText.ParsePrinted | eloop/common.c:31-53 | printed text of either case parses to the data |
| HexText.PrintedLetters | eloop/common.c:417-436 | the two digits of each byte, high half first, by their letters of either case |
| HexText.PrintAndParse | eloop/common.c:92-107 | parsing the digits that printing reported gives exactly the data that fitted, for every buffer size |
| HexText.IncByteArray | eloop/common.c:119-128 | the number that the bytes stand for goes up by one, modulo 256 to their count |
| HexText.IncrementedIsNext | eloop/common.c:110-118 | incrementing with carries is adding one modulo 256 to the number of bytes |
| FiberCopy.Copy.ReadTurn | eloop/fiberSample.c:215-250 | one turn of the read fiber keeps the hand-off invariant |
| FiberCopy.Copy.WriteTurn | eloop/fiberSample.c:281-317 | one turn of the write fiber makes the destination all that was read |
| FiberCopy.Copy.Run | eloop/fiberSample.c:213-317 | the hand-off ends; at the end of the source the destination is the source and both counters agree; after a failure it is a prefix |

## Left out

- LogSearch.GetNearSeq: `sscanf` is modelled on hexadecimal digits only, without leading blanks, sign, `0x` or saturation at 64 bits; records start with eight digits, where these do not occur.
- LogSearch.SearchBetween: t differs from both end times, as its caller and its comment demand.
- LogSearch.GetSeqPosition: requires whole reads (the single probe does not); after a short read a probe may fail, or take a part of the next timestamp for all of it, and the search is not modelled from there.
- LfsContext.Lfs.Filter1: describes a file that does not grow between opening and the query.
- LfsContext.Lfs.Filter2: the substring filter, the printed form and the output counter of `outfilter` are not modelled, and lines longer than the 1024 bytes of its line buffer are excluded; the carry is moved as by `memmove`.
- LogQuery.WriteOut: the encoding is a parameter, because the `jss_encode` that it calls is not part of this model, nor is the size of the buffer it fills; `JsonText` shows that the encoding of etc/jss_encode.c would do.
- LogQuery.ReadIn: stops at the lines handed to `outfilter`; decoding the collected output is not modelled.
- ExceptionProof.Simulates: excludes a return out of a Try clause (forbidden at eloop/cexcept.h:146); other jumps than `return` (break, goto), non-volatile locals, signals and the thread-state table are not modelled.
- ExceptionMachine.Step: the exception context is part of a configuration value instead of a mutable object, because a jump restores a whole continuation; two threads sharing one context are not modelled.
- PoolAllocator.Allocator.MyRealloc: excludes a copy that does not fit both blocks, which the original does not guard; it can happen only when a block shrinks or a size wraps (`PoolAllocator.GrowingFits`).
- PoolAllocator.Allocator.MyCalloc: excludes sizes whose rounding up wraps, where the original clears past the block.
- PoolAllocator.Allocator.TpoolFree: a pointer that is neither NULL nor live is excluded, as by the C library.
- WsFrame.DecodeEncode: admits messages of up to 2^31 - 1 bytes; the frames of the last 14 of these lengths are longer than an `int` counts, and the original cannot be given them whole.
- WsReceive.ReceiveLoop: excludes exactly the input on which the original leaves its 65536-byte buffers or prints bytes that the decoder did not write. The output modes and sleeps of the command-line tools are not modelled.
- JsonText.DecodeFilter: a `\u` without a hexadecimal digit prints an indeterminate byte in the original and nothing here; blanks, sign and `0x` that `scanf` accepts there are not modelled.
- NtpTime.GetNtpTimestamp: models the little-endian host; the clock is a parameter.
- FiberCopy.Copy.WriteTurn: writes are whole or fail; partial writes that report success are not modelled.
- The event loop, timers, tasks and I/O buffers: only their interfaces are in the repository.
- `TaskTry` in eloop/taskimpl.h and the register code of eloop/asm.S: they depend on the return convention of `getmcontext`.
- The string routines of eloop/os_internal.c, etc/mutex_lock.c, the operating-system wrappers, build files and samples: they would add only easy members.
