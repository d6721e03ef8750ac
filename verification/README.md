# Skip list, asynchronous log, serializer and calendar: what the code guarantees

This project models the core of a C++ network library in Dafny 4.11 and proves what it promises
its callers.  `dafny verify dfyconfig.toml` checks all of it.

The model takes the source's form.  Objects whose methods update fields are classes over arrays and
linked nodes, loops are loops with invariants, and each method is tied to a function of its inputs
or of the old state; properties of those functions are lemmas.  The concurrent parts (the logging
backend with its producers, the blocking queue) are transition systems whose steps are the regions
under the lock, and the classes of `AsyncLogging.dfy` refine those steps.

| files | what they cover |
|---|---|
| `Levels.dfy`, `SkipList.dfy` | the key-value skip list: every level of every node, splicing, unlinking, the floating current level, refinement of a map over whole runs |
| `LogStream.dfy`, `Backend.dfy`, `AsyncLogging.dfy`, `LoggingProtocol.dfy` | the per-thread log stream, the buffers shared with the backend thread, the roll decision, the `stop` handshake, and the end-to-end theorem over all interleavings |
| `Bits.dfy`, `ZigZag.dfy`, `Varint.dfy`, `Wire.dfy`, `ChunkChain.dfy`, `Deserializer.dfy`, `Message.dfy` | machine words, the varint and ZigZag codes, byte order, the chain of chunks, the readers, whole messages |
| `Calendar.dfy` | the loop-free conversion from Unix seconds to a date, against a day-by-day calendar and the POSIX formula |
| `MessageQueue.dfy`, `LinkedList.dfy` | the blocking queue as a monitor; the list with negative positions and its stack sentinel |
| `Sequences.dfy`, `Division.dfy`, `Wrappers.dfy` | small facts and types shared by the others |

## Where the code departs from its intent

Each departure is kept in the model as the code has it, and the condition under which the code is
right is proved exactly; where a repair is obvious, the repaired operation stands beside it.

- `erase` unlinks only below `_curLevel` (`ds/kv_skiplist.h:213`), decrements the count and deletes
  the successor for an absent key (`ds/kv_skiplist.h:221-222`).  `SkipList.SkipList.Erase` is right
  if and only if the key is present and its node's level is at most `_curLevel`; otherwise nothing
  a client can reach is a working list.  As long as nothing has been erased this holds for every
  present key; after any `erase` that leaves a key behind, some present key violates it.
  `SkipList.SkipList.EraseRepaired` is right on every key.
- After a spill into a new chunk, `write` advances the cursor in the old chunk
  (`serialize/serialize.cpp:123`).  The flag `repositions` selects the code (`false`) or the
  repair (`true`).  As written, `toString` is right if and only if no write of at least one byte
  followed a spill into a chunk that still had room; `AfterWrites` computes this from the lengths
  of the writes alone.
- `readBit32` and `readBit64` test a function's name and so always swap bytes
  (`serialize/serialize.cpp:268`, `serialize/serialize.cpp:276`).  A fixed word survives if and
  only if the host is little-endian or the word reads the same in both byte orders.
- `toString` counts in a `uint32_t`, `writeString` stores its length in one, and `_readed` is one: each
  is right if and only if the count is below 2^32.
- `FastSecondToDate` narrows the minute count to `int` and divides toward zero.  It is right if and
  only if the count fits, neither the time nor the shifted hour has a negative part, and the day is
  not before 1 March -4800; there it never gives a date at all.
- `LogStream::append` returns if and only if the record in progress stays shorter than the buffer.
- `stop` takes a current buffer of size zero for a sign that nothing waits
  (`log/asyncLogging.h:57-75`).  It is wrong if and only if the payloads since the last batch end
  with one of exactly a buffer's size followed by empty ones, at least one.  The streams send no
  payload of that size.
- The public `flush` of a stream sends the complete records and keeps them
  (`log/logStream.cpp:49-52`).  A thread's records reach the files exactly once each if and only if
  no such call found a complete record; none is ever lost.
- With a maximum level of 0 `getRandomLevel` returns 0, and `insert` counts a node that it links
  nowhere (`ds/kv_skiplist.h:231`).
- The comment above `posPos` promises that `insert` accepts position -n-1 (`ds/list.h:131-132`); the
  code turns it into its error value.

## Model

| member | source | states |
|---|---|---|
| SkipList.SkipList.constructor | ds/kv_skiplist.h:102-112 | a new list is well-formed and stands for the empty map, whatever the head's key and value are |
| SkipList.SkipList.Walk | ds/kv_skiplist.h:147-148 | the inner loop ends, on level i, at the last node of that level with a key below the target, and on level 0 at the node a scan of the whole bottom level finds |
| SkipList.SkipList.Descend | ds/kv_skiplist.h:162-167 | the descent ends, and for every i up to the current level `update[i]` is the last node of level i before the key, or the head |
| SkipList.SkipList.FindPre | ds/kv_skiplist.h:139-152 | the predecessor depends on the keys only, not on any level: it is the one a plain scan of level 0 finds |
| SkipList.SkipList.Find | ds/kv_skiplist.h:129-136 | returns a node if and only if the key is in the map, and then one of the list with that key and the map's value |
| SkipList.SkipList.GetRandomLevel | ds/kv_skiplist.h:225-233 | the level is one more than the number of heads, or the maximum if that is smaller |
| SkipList.SkipList.RaiseTo | ds/kv_skiplist.h:178-182 | when the list grows taller, every `update[i]` below the new level is set, and to the right predecessor |
| SkipList.SkipList.Splice | ds/kv_skiplist.h:184-188 | on each level of the new node exactly the link that passes over its place leads to it, its own link goes where that one went, and no other link changes |
| SkipList.SkipList.Insert | ds/kv_skiplist.h:156-193 | returns 1 and changes nothing exactly when the key is present, else adds one node of the drawn level at its place among the same old nodes and returns 0; keeps all levels sorted, nested and in bounds, and the count; with a maximum level of 0 no working list is left |
| SkipList.SkipList.InsertNew | ds/kv_skiplist.h:175-192 | the second half of `insert` on an absent key: the current level becomes the larger of itself and the drawn level, also where that is 0 |
| SkipList.SkipList.LinkNew | ds/kv_skiplist.h:184-191 | the chain gains exactly one node, of the given level, and the map its pair; a node of level 0 is counted and not linked |
| SkipList.SkipList.Unlink | ds/kv_skiplist.h:213-216 | the loop redirects exactly the links to the node below the smaller of its height and the loop's bound, to where the node's own links lead |
| SkipList.SkipList.Lower | ds/kv_skiplist.h:218-219 | only levels on which the head links nothing are given up, and the current level is then 0 or in use |
| SkipList.SkipList.EraseNode | ds/kv_skiplist.h:210-222 | with any bound on the unlink loop: a node within the bound leaves the map, the chain and nothing else; a taller one leaves no working list behind |
| SkipList.SkipList.Erase | ds/kv_skiplist.h:196-223 | as written: removes exactly the key if it is present and not linked on the current level; in every other case no chain reachable from the head is a working list; and a successful erase leaves a key that a next one cannot remove |
| SkipList.SkipList.EraseRepaired | ds/kv_skiplist.h:196-223 | repaired: removes exactly the key's node, frees exactly that node, lowers the current level as far as possible, and changes nothing on an absent key |
| SkipList.SkipList.WhenErasable | ds/kv_skiplist.h:208-216 | the condition for `Erase` in a caller's terms: the node behind the key's place has that key and a level of at most the current one |
| SkipList.SkipList.FirstErase | ds/kv_skiplist.h:196-223 | while no node is linked on the current level (so after any run of inserts), the keys that `Erase` handles are exactly those present |
| SkipList.SkipList.StuckKey | ds/kv_skiplist.h:218-219 | once the current level has come down to a level in use, a non-empty list holds a key that `Erase` as written cannot remove |
| SkipList.SkipList.AbsentKeyBreaks | ds/kv_skiplist.h:221-222 | an absent key: the count is off or a linked node is freed, and no chain is a working list any more |
| SkipList.SkipList.TallNodeBreaks | ds/kv_skiplist.h:213-222 | unlinking that stops below a node's height: a freed node stays linked, whichever chain one follows |
| SkipList.Replay | ds/kv_skiplist.h:129-233 | every run of insert, find and the repaired erase, with any coin flips, gives the answers of an insert-if-absent map, and the count is the map's size |
| SkipList.Apply | ds/kv_skiplist.h:129-223 | each operation answers as the map does and steps to the map's next value |
| SkipList.PresentAtRank | ds/kv_skiplist.h:133-135 | a key is present if and only if the node right behind its rank has it, and that node has the map's value |
| SkipList.InsertedContents | ds/kv_skiplist.h:184-191 | a node put behind its rank adds exactly its pair to the map |
| SkipList.RemovedContents | ds/kv_skiplist.h:213-216 | a node taken out removes exactly its key |
| SkipList.LinkedAfterInsert | ds/kv_skiplist.h:184-188 | redirecting one link a level gives all links of the longer list, on all levels |
| SkipList.LinkedAfterRemove | ds/kv_skiplist.h:213-216 | redirecting the links to a node to where its own lead gives all links of the shorter list |
| Levels.PassesOver | ds/kv_skiplist.h:146-150 | on each level exactly one link passes over a given place: that of the last tall enough node before it |
| Levels.NextAfterInsert | ds/kv_skiplist.h:185-188 | which successor each node has on each level once a node of a given height stands in the gap |
| Levels.NextOfInserted | ds/kv_skiplist.h:186 | the new node's successor on each level is that of its predecessor on that level |
| Levels.NextIsRemoved | ds/kv_skiplist.h:214 | a link leads to a node if and only if it is on one of that node's levels and comes from its predecessor there; this is the test of the unlink loop |
| Levels.NextAfterRemove | ds/kv_skiplist.h:215 | which successor each node has on each level once a node is gone |
| LogStream.LogStreamObject.constructor | log/logStream.cpp:38-41 | a new stream is empty and has sent nothing |
| LogStream.LogStreamObject.Flush | log/logStream.cpp:49-52 | `g_output` gets exactly the bytes up to `_end`, and the buffer stays as it is |
| LogStream.LogStreamObject.MoveToFront | log/logStream.cpp:111-113 | the record in progress moves to the front of the buffer unchanged |
| LogStream.LogStreamObject.AppendBytes | log/logStream.cpp:88-116 | bytes that fit behind the content go there and nothing goes out; otherwise the complete records go out, once, and the record in progress grows at the front |
| LogStream.LogStreamObject.Append | log/logStream.cpp:88-116 | the same for the output and the cursors, the record in progress grows by the bytes, and nothing streamed before is lost or sent twice |
| LogStream.LogStreamObject.Cut | log/logStream.cpp:54-61 | a pending flush passes on the whole buffer, in one call, and empties it; without one nothing goes out and all of the buffer is complete |
| LogStream.LogStreamObject.BeginRecord | log/logStream.cpp:54-61 | the same, and a new record starts with nothing streamed before lost |
| LogStream.LogStreamObject.MakeLog | log/logStream.cpp:54-67 | the thread's log gains one record that holds exactly the header; a pending flush passes on exactly what was in the buffer, and without one a header that fits sends nothing |
| LogStream.LogStreamObject.TakeBack | log/logStream.cpp:72 | taking three bytes back never reaches bytes that went out |
| LogStream.LogStreamObject.MakeLogWithFunc | log/logStream.cpp:70-74 | the log gains one record: place, then the function's name, then the mark, and not the mark twice; the output as for the shorter form |
| LogStream.LogStreamObject.UserFlush | log/logStream.cpp:49-52 | the complete records go out and stay, so as many records are repeated as were complete |
| LogStream.LogStreamObject.Destroy | log/logStream.cpp:44-47 | after the destructor every record streamed has gone out, in order; exactly those went out if and only if nothing was repeated |
| LogStream.HeaderReads | log/logStream.cpp:62-66 | the header is time, thread, level, file and line with their separators, and the mark |
| LogStream.BeginSends | log/logStream.cpp:56-61 | a pending flush sends everything and leaves nothing; without one nothing is sent |
| LogStream.PutSends | log/logStream.cpp:88-116 | records go out only when the bytes do not fit, and then exactly the complete ones |
| LogStream.BeginKeeps | log/logStream.cpp:54-61 | records out, then records kept, are the old ones and a new empty one |
| LogStream.PutKeeps | log/logStream.cpp:88-116 | records out, then records kept, are the old ones with the last one extended |
| LogStream.CloseKeeps | log/logStream.cpp:44-47 | closing passes on everything that was pending |
| LogStream.PayloadsFit | log/logStream.cpp:49-52 | no payload is as long as a stream's buffer, so it fits a backend buffer |
| LogStream.AppendReturns | log/logStream.cpp:102-115 | the recursion ends, after any number of calls, if and only if the record in progress stays shorter than the buffer, and then with the effect of one compaction at most |
| LogStream.NeverReturns | log/logStream.cpp:102-115 | for a longer record no number of calls is enough |
| LogStream.BeginLog | log/logStream.cpp:54-61 | a thread's log gains a record, and what went out and what is pending still account for it |
| LogStream.PutLog | log/logStream.cpp:88-116 | the same for streamed bytes |
| LogStream.RetractLog | log/logStream.cpp:72 | the same for the three bytes taken back |
| LogStream.CloseLog | log/logStream.cpp:44-47 | the same for the destructor, with nothing pending behind it |
| LogStream.KeptFlush | log/logStream.cpp:49-52 | a flush in between repeats as many records as it finds complete |
| LogStream.KeptExactly | log/logStream.cpp:49-52 | what went out and what is pending contain the log in order, and are the log if and only if nothing was repeated |
| Backend.AcceptKeeps | log/asyncLogging.cpp:48-70 | a payload smaller than a buffer goes behind everything that waits, and there is always room for one more byte |
| Backend.AcceptHandsOver | log/asyncLogging.cpp:52-68 | a buffer is handed over only when the payload does not fit, and the spare one is used up then |
| Backend.TakenIsWaiting | log/asyncLogging.cpp:123-138 | the batch is everything that waited, in order |
| Backend.ZeroMeansDrained | log/asyncLogging.h:61-71 | reading a size of zero once means that nothing waits in any buffer |
| Backend.AllAreWaiting | log/asyncLogging.cpp:48-70 | what waits after any payloads is those payloads, in order, whatever their sizes |
| Backend.CurrentAfter | log/asyncLogging.cpp:52-68 | how full the current buffer is: full exactly after a payload of a buffer's size, empty behind full buffers exactly after one and then empty payloads |
| Backend.StopIsFooled | log/asyncLogging.h:61-71 | after any payloads that fit a buffer, the size reads zero while bytes wait if and only if they end with one of a buffer's size and then empty ones |
| Backend.FullPayloadFoolsStop | log/asyncLogging.cpp:52-68 | the shortest such case: a payload of a buffer's size and an empty one |
| Backend.NewFileKeeps | log/asyncLogging.cpp:146-151 | a new file for a batch that does not fit moves no byte and keeps all files right |
| Backend.BookKeeps | log/asyncLogging.cpp:146-151 | so does one more batch for a file with room |
| Backend.RollKeeps | log/asyncLogging.cpp:143-151 | the roll decision keeps each file within the limit or at one batch, begins no file early, books exactly this batch, and `written` is exact |
| Backend.WriteKeeps | log/asyncLogging.cpp:154-155 | each buffer lands behind everything written before |
| AsyncLogging.LogBuffer.constructor | log/asyncLogging.h:15-19 | a new buffer is empty |
| AsyncLogging.LogBuffer.Append | log/asyncLogging.h:21-24 | the bytes go behind the content and stay inside the buffer |
| AsyncLogging.AsyncLogging.constructor | log/asyncLogging.cpp:31-46 | a backend begins with one empty current buffer and one empty spare |
| AsyncLogging.AsyncLogging.Append | log/asyncLogging.cpp:48-70 | the region under the lock does the protocol's step: a payload that fits changes no buffer but the current one; otherwise that one is handed over and the spare, or else a new one, takes its place |
| AsyncLogging.AsyncLogging.CurrentSize | log/asyncLogging.h:61-71 | what `stop` reads is the length of what the current buffer holds |
| AsyncLogging.AsyncLogging.Take | log/asyncLogging.cpp:121-138 | given two empty spare buffers, hands over all buffers, shares none of them with the producers any more, and leaves the shared state as at the start |
| AsyncLogging.AsyncLogging.Refill | log/asyncLogging.cpp:140-142 | both spare buffers are there again, different and empty |
| AsyncLogging.AsyncLogging.SizeOf | log/asyncLogging.cpp:143-145 | the loop adds up the bytes of the batch |
| AsyncLogging.AsyncLogging.WriteEach | log/asyncLogging.cpp:154-155 | the loop puts every buffer's bytes behind the file's, in order |
| AsyncLogging.AsyncLogging.WriteBatch | log/asyncLogging.cpp:143-157 | the branch on the limit is the roll decision; the files hold the whole batch in order, and `written` is the size of the current file's batches |
| AsyncLogging.AsyncLogging.AppendAll | log/asyncLogging.cpp:48-70 | any payloads shorter than a buffer wait behind what waited before |
| AsyncLogging.AsyncLogging.Collect | log/asyncLogging.cpp:121-142 | the batch is what waited, both spare buffers are there again and empty, and what producers append meanwhile waits for the next turn |
| AsyncLogging.AsyncLogging.Round | log/asyncLogging.cpp:121-157 | what waited is in the files by the rules of the roll decision, `written` follows, and what arrives during the writing is kept |
| AsyncLogging.AsyncLogging.OneTurn | log/asyncLogging.cpp:119-157 | on every turn, also while running, the files get everything that has arrived and only what came during the work waits; if nothing waits and the backend runs, nothing is written; the sizes booked are those of the one batch |
| AsyncLogging.AsyncLogging.MainRoutine | log/asyncLogging.cpp:114-158 | after each turn the files hold every payload that has arrived, in order, but those of the last turn's work; one batch was written for each turn on which something waited or the flag was down, with its size; and the files keep to the roll rule |
| AsyncLogging.WriteAllKeeps | log/asyncLogging.cpp:154-155 | writing out a batch keeps the files right and ends exactly at its booked size |
| AsyncLogging.BatchKeepsFiles | log/asyncLogging.cpp:143-157 | a whole batch keeps to the roll rule, and `written` is the current file's length again |
| AsyncLogging.DrainWrites | log/asyncLogging.cpp:154-155 | writing a batch buffer by buffer in the protocol is writing it in one go |
| AsyncLogging.BatchInProtocol | log/asyncLogging.cpp:143-157 | from batch taken to batch written, the transition system does what `WriteBatch` does |
| LoggingProtocol.EmitKeeps | log/logStream.cpp:49-52 | whatever a stream passes on is accepted once, behind the records accepted before, under its own thread's name |
| LoggingProtocol.ThreadStep | log/logStream.cpp:54-116 | any producer's step keeps the whole invariant if it accounts for that thread's records |
| LoggingProtocol.TakeStep | log/asyncLogging.cpp:121-138 | taking the batch keeps the invariant |
| LoggingProtocol.StepKeeps | log/asyncLogging.cpp:48-158 | every step of producers, backend and stopper keeps the invariant: no byte or record lost, files within bounds, handshake sound |
| LoggingProtocol.AlwaysInv | log/asyncLogging.cpp:48-158 | the invariant holds after every interleaving of any number of threads |
| LoggingProtocol.LogIsStreamed | log/logStream.cpp:54-116 | in every run the history of a thread is what its own calls stream, computed from the events alone |
| LoggingProtocol.WhatStaysPending | log/logStream.cpp:44-116 | what each kind of call leaves in the streams: a flush leaves only the new record, a destructor nothing, bytes that fit all of it |
| LoggingProtocol.WhoStreams | log/logger.cpp:44-72 | a thread has a stream from its first record to the destructor |
| LoggingProtocol.WritesThatReturn | log/logStream.cpp:88-116 | a write is a step of the system exactly where the source's recursion returns, and leaves the stream as that does |
| LoggingProtocol.WaitsForNothingOnly | log/asyncLogging.cpp:121-125 | in every state the backend waits on exactly while it runs and nothing waits, and else can take a batch |
| LoggingProtocol.NothingLost | log/asyncLogging.cpp:48-158 | in every reachable state the accepted bytes are the files, then the backend's unwritten batch, then `_buffers`, then `_currentBuffer`; what each thread has streamed is in order among the accepted records and those in its stream, and is exactly those if and only if none was repeated |
| LoggingProtocol.Delivered | log/flog.h:18-22 | when `stop` has returned after the streams were destroyed, the files are a sequence of whole records in which every record that a thread streamed appears, contiguous and in its thread's order; each exactly once if and only if no user's flush repeated any |
| LoggingProtocol.RecordReachesFile | log/flog.h:18-22 | such runs exist: one record of any thread, of any bytes shorter than a stream's buffer, and any limit, and the files hold those bytes |
| LoggingProtocol.RepeatedByFlush | log/logStream.cpp:49-52 | in every run, something of a thread is repeated if and only if one of its flushes by a user found a complete record |
| LoggingProtocol.SizesAreBatches | log/asyncLogging.cpp:143-157 | the sizes booked file by file are those of the batches of the run, one each, in order |
| LoggingProtocol.RollsOnlyWhenNeeded | log/asyncLogging.cpp:143-157 | in every run the batches fill the files in order, each file is within the limit or holds one batch, each file and the first batch of the next exceed the limit, lengths are those of the batches, and `written` is the current file's length between batches |
| LoggingProtocol.ShutdownAdvances | log/asyncLogging.h:57-75 | once `stop` is called, each step of stopper or backend that changes something brings its return closer |
| LoggingProtocol.ShutdownNeverStuck | log/asyncLogging.h:57-75 | until `stop` has returned, such a step is possible |
| LoggingProtocol.OtherStepsIdle | log/asyncLogging.h:67-71 | every other step that is possible then leaves the state as it is |
| LoggingProtocol.StopReturns | log/asyncLogging.h:57-75 | in any schedule at most a fixed number of further steps change anything; after that many, and wherever none is possible any more, `stop` has returned |
| ChunkChain.Serializer.constructor | serialize/serialize.cpp:35-43 | a new serializer holds the empty message |
| ChunkChain.Serializer.Fill | serialize/serialize.cpp:96-107 | the bytes go where the cursor stands: behind the message if that is in the last chunk, else over the first chunk, and the last keeps a hole |
| ChunkChain.Serializer.Grow | serialize/serialize.cpp:119-125 | a new last chunk extends the flat byte string by its data |
| ChunkChain.Serializer.Spill | serialize/serialize.cpp:109-125 | the rest of a write of any length fills new chunks, each full but the last, and extends the flat byte string by exactly that rest |
| ChunkChain.Serializer.WriteInPlace | serialize/serialize.cpp:96-100 | the branch with room to spare keeps the chain and its relation to what was written |
| ChunkChain.Serializer.WriteAcross | serialize/serialize.cpp:101-126 | so does the branch that fills the last chunk, also at exact boundaries |
| ChunkChain.Serializer.Write | serialize/serialize.cpp:94-127 | where every byte goes, the room left in the last chunk by its remainder, and how far the cursor moves; every chunk but the last is full; and the chain is the writes' concatenation exactly as long as every write was sound |
| ChunkChain.Serializer.ToString | serialize/serialize.cpp:376-387 | the result is the concatenation of all writes if and only if every write was sound and the total is below 2^32 |
| ChunkChain.SoundWhileItFits | serialize/serialize.cpp:96-100 | the chain has one chunk if and only if the total is below its size, and then every write was sound |
| ChunkChain.NeverSoundAgain | serialize/serialize.cpp:123 | after an unsound write no further writes make the message right |
| ChunkChain.OneByteAfterAFullChunk | serialize/serialize.cpp:109-125 | the smallest failure: a write of exactly one chunk, then a byte |
| ChunkChain.LastPartIs | serialize/serialize.cpp:109-125 | a spill fills all chunks but the last, and leaves that one empty only if nothing spills; its remainder in closed form |
| ChunkChain.ByteAfterTwoChunks | serialize/serialize.cpp:109-125 | a write that ends with a chunk leaves it full, and a byte after it is right also as written |
| ChunkChain.StoresStep | serialize/serialize.cpp:94-127 | a write through a cursor outside the last chunk leaves an unwritten cell there for good |
| ZigZag.EncodeValue | serialize/serialize.cpp:139-149 | the wrapped arithmetic gives 2x or -2x-1, also at the smallest word |
| ZigZag.DecodeValue | serialize/serialize.cpp:151-161 | shift, mask and exclusive or give w/2 or -(w/2)-1 |
| ZigZag.DecodeEncode | serialize/serialize.cpp:139-161 | the bitwise decoder inverts the arithmetic encoder on every signed word, at every width |
| ZigZag.EncodeDecode | serialize/serialize.cpp:139-161 | and the other way round: a bijection |
| ZigZag.EncodeSize | serialize/serialize.cpp:139-149 | a code fits k bits if and only if the value fits k signed bits |
| Bits.AndMask | serialize/serialize.cpp:325 | masking with ones is the remainder |
| Bits.XorOnes | serialize/serialize.cpp:152 | exclusive or with ones is the complement |
| Bits.OrDisjoint | serialize/serialize.cpp:322 | or-ing in a group above everything read is addition |
| Bits.OrTopBit | serialize/serialize.cpp:216 | setting the continuation bit |
| Varint.Write | serialize/serialize.cpp:212-220 | the loop writes exactly the base-128 encoding and never leaves its buffer |
| Varint.FitsInGroups | serialize/serialize.cpp:226-244 | buffers of 3, 5 and 10 bytes are enough for 16, 32 and 64 bits |
| Varint.RoundTrip | serialize/serialize.cpp:212-245 | the reader returns the value and takes exactly the written bytes, whatever follows |
| Varint.PrefixFree | serialize/serialize.cpp:212-220 | encodings are injective and none is a prefix of another |
| Varint.EncodedLength | serialize/serialize.cpp:212-220 | at most k bytes if and only if below 2^(7k) |
| Varint.EncodeDigits | serialize/serialize.cpp:212-220 | byte i is the i-th group of seven bits, lowest first, and all but the last carry the continuation bit |
| Varint.CutOffIsShort | serialize/serialize.cpp:316-327 | an encoding without its last bytes is not read |
| Varint.SignedLength | serialize/serialize.cpp:222-243 | a signed value takes at most k bytes if and only if it fits 7k signed bits |
| Varint.ParseShort | serialize/serialize.cpp:316-327 | on arbitrary input the reader runs out if and only if fewer bytes than it may take are left and all of them continue |
| Varint.ParseWithin | serialize/serialize.cpp:316-327 | otherwise it takes at least one byte, at most its number of groups, and the sum is below 2^(7 used) |
| Varint.WriterIsShortest | serialize/serialize.cpp:212-220 | re-encoding whatever the reader made of any input is never longer than what it took |
| Wire.BigEndianDigits | serialize/serialize.cpp:167-185 | the most significant byte comes first |
| Wire.FixedIsBigEndian | serialize/serialize.cpp:167-193 | a fixed word goes out big-endian from every host |
| Wire.ReadFixedValue | serialize/serialize.cpp:266-292 | what comes in is read big-endian on a little-endian host and little-endian on a big-endian one |
| Wire.FixedRoundTrip | serialize/serialize.cpp:266-280 | a fixed word survives if and only if the host is little-endian or the word is its own byte reversal |
| Wire.FieldRoundTrip | serialize/serialize.cpp:167-374 | for each kind of field the reader takes exactly its bytes, and returns its value if and only if the field survives |
| Wire.CutOffAborts | serialize/serialize.cpp:130-137 | every proper prefix of a field makes its reader abort |
| Wire.IntegersAreShort | serialize/serialize.cpp:222-243 | no bytes that read as the same integer are fewer than the writer's; signed fields take k bytes at most if and only if 7k signed bits hold them |
| Wire.CutOffMessage | serialize/serialize.cpp:130-137 | every proper prefix of a message makes its reader abort |
| Wire.MessageReads | serialize/serialize.cpp:130-374 | reading the same kinds in the same order never aborts, takes exactly the message, and returns the surviving values and only those |
| Wire.MessageRoundTrip | serialize/serialize.cpp:94-387 | the message comes back whole if and only if every field survives |
| Deserializer.Reader.constructor | serialize/serialize.cpp:45-56 | a reader starts at the front of a copy of the bytes; its position can count all of them if and only if they are fewer than 2^32 |
| Deserializer.Reader.Reset | serialize/serialize.cpp:72-91 | after a reset the reader starts over with the new bytes, of any number |
| Deserializer.Reader.Read | serialize/serialize.cpp:130-137 | takes the next bytes, or aborts exactly when there are too few; goes on behind them if and only if the position stays below 2^32 |
| Deserializer.Reader.ReadVarUint | serialize/serialize.cpp:316-353 | the loop of shifts and ors computes the base-128 sum cut to the word, or aborts, on every input |
| Deserializer.Reader.ReadVarInt | serialize/serialize.cpp:329-347 | the same for signed words |
| Deserializer.Reader.ReadUint8 | serialize/serialize.cpp:310-314 | one byte |
| Deserializer.Reader.ReadInt8 | serialize/serialize.cpp:304-308 | one byte, signed |
| Deserializer.Reader.ReadFixed | serialize/serialize.cpp:266-292 | a fixed word with the swap that always happens |
| Deserializer.Reader.ReadSFixed | serialize/serialize.cpp:294-300 | a fixed word in ZigZag |
| Deserializer.Reader.ReadString | serialize/serialize.cpp:367-374 | length, then that many bytes, or an abort |
| Deserializer.Reader.ReadField | serialize/serialize.cpp:282-374 | the reader of each kind consumes exactly the field at the front |
| Message.WriteVarUint | serialize/serialize.cpp:226-244 | the message grows by the varint, in one write |
| Message.WriteFixed | serialize/serialize.cpp:167-185 | the message grows by the word's big-endian bytes, in one write |
| Message.WriteString | serialize/serialize.cpp:255-263 | the message grows by length and bytes, in one write if the length is 0 and two otherwise |
| Message.WriteField | serialize/serialize.cpp:187-263 | the message grows by the bytes of the field |
| Message.MessageLensSum | serialize/serialize.cpp:94-127 | the lengths of the writes behind a message add up to its bytes |
| Message.SmallMessagesArrive | serialize/serialize.cpp:376-387 | every message shorter than a chunk is delivered by the code as written |
| Message.SerializeToString | serialize/example.hpp:23-30 | the string is the encoding of the fields if and only if the lengths of the writes are sound and the total is below 2^32 |
| Message.DeserializeFrom | serialize/example.hpp:32-40 | reads the fields in turn and says how much is left, or stops where the source aborts |
| Message.Transmit | serialize/example.hpp:23-40 | a delivered message is read without an abort to its very end, and each value comes back if and only if its field survives |
| Calendar.FastSecondToDate | log/logStream.cpp:197-222 | no intermediate overflows an `int`, and the fields are those of the reference conversion |
| Calendar.SetDate | log/logStream.cpp:210-220 | the magic constants with truncating division give the civil date of every day count from the algorithm's epoch on, and a day of the month below 1 before it |
| Calendar.WrapIs | log/logStream.cpp:206 | the narrowed minute count is the one `int` with the same low 32 bits |
| Calendar.PartsAreCivil | log/logStream.cpp:211-220 | the code's divisions of negated products are the divisions of the calendar, and every intermediate is small |
| Calendar.NoDateBeforeEra | log/logStream.cpp:211-220 | for a negative day count the truncated parts never give a date |
| Calendar.ConversionIsExact | log/logStream.cpp:197-222 | for every input with a defined sum of hours and zone the result is a valid date and time of that very second if and only if the guard holds |
| Calendar.ConversionIsCalendar | log/logStream.cpp:197-222 | then the date is n-fold "next day" from the algorithm's epoch, from 1970-01-01 if not before it, and hour, minute and second are those of the day |
| Calendar.CivilStep | log/logStream.cpp:211-220 | one more day count is the next day of a leap-year-aware calendar |
| Calendar.CivilIsCalendar | log/logStream.cpp:211-220 | counted from the algorithm's own epoch |
| Calendar.CivilFromUnixEpoch | log/logStream.cpp:203-220 | and counted from 1970-01-01 |
| Calendar.CivilDayNumber | log/logStream.cpp:203-220 | the day number of the date, in the formula of section 4.16 of the POSIX.1-2017 Base Definitions, recovers the day |
| Calendar.DaysAfterCounts | log/logStream.cpp:197-222 | the two references, day by day and formula, agree |
| Calendar.WestOfTheEpochFails | log/logStream.cpp:205-209 | an input on which the code leaves a negative hour |
| MessageQueue.MQ.constructor | itc/mq.h:8-12 | the queue begins where the transition system begins |
| MessageQueue.MQ.Push | itc/mq.h:24-29 | the message joins at the back, nobody sleeps any more, and this is the system's push |
| MessageQueue.MQ.TryPull | itc/mq.h:31-40 | a turn of a thread in `pull`: it sleeps if the queue is empty, else leaves with the front message, which the history records as its own |
| MessageQueue.MQ.Clear | itc/mq.h:42-47 | the loop empties the queue, every message in order being cleared, and wakes nobody |
| MessageQueue.StepKeeps | itc/mq.h:24-47 | every step keeps: messages conserved in order, and a sleeper means an empty queue |
| MessageQueue.AlwaysInv | itc/mq.h:24-47 | so after every interleaving, spurious wakeups included |
| MessageQueue.PushedIsData | itc/mq.h:24-29 | in every run what was pushed is the data of its pushes, computed from the events alone |
| MessageQueue.Conserved | itc/mq.h:24-47 | what left, then what is in the queue, is the data of the run's pushes: first in, first out, each once |
| MessageQueue.EachCallGetsOne | itc/mq.h:31-40 | every call of `pull` gets one message or is still inside |
| MessageQueue.NothingCleared | itc/mq.h:31-40 | without `clear`, all that left was pulled, each message by one thread |
| MessageQueue.NoLostWakeup | itc/mq.h:24-40 | while a message is there nobody sleeps, and every thread in `pull` gets one at its turn |
| MessageQueue.PullReturnsWithMessage | itc/mq.h:34-39 | a thread leaves `pull` only with the front of a non-empty queue |
| LinkedList.InsertPositions | ds/list.h:131-144 | `insert` accepts exactly -n to n, and negative positions count from the end |
| LinkedList.RemovePositions | ds/list.h:131-144 | `remove` and `get` accept exactly -n to n-1 |
| LinkedList.LinkedPutIn | ds/list.h:90-93 | relinking two nodes gives the chain with one more |
| LinkedList.LinkedRemoved | ds/list.h:120-122 | relinking one node gives the chain with one fewer |
| LinkedList.List.constructor | ds/list.h:50-55 | a new list is empty |
| LinkedList.List.PToPos | ds/list.h:63-69 | the node at a position, or null just behind the last |
| LinkedList.List.Insert | ds/list.h:71-98 | on an accepted position the sequence gains the element there and every other node is the same as before; otherwise nothing changes |
| LinkedList.List.InsertTail | ds/list.h:100-103 | the element joins at the end |
| LinkedList.List.Remove | ds/list.h:105-129 | on an accepted position exactly that node is gone; otherwise nothing changes |
| LinkedList.List.RemoveAt | ds/list.h:114-127 | the sentinel is in the chain only during the call, and `_len` is the chain's length again |
| LinkedList.List.Get | ds/list.h:146-154 | the element at an accepted position; the end of the program on an empty list; a walk past the end otherwise |
| LinkedList.List.Destroy | ds/list.h:57-61 | the loop ends and empties the list |

## Left out

- SkipList.Replay: runs with an insert need a maximum level of at least 1; what happens with 0 is proved of `Insert`.
- SkipList.Apply: the same.
- SkipList.SkipList.Find: sequential; the source drops the lock between the descent and the key test (`ds/kv_skiplist.h:131-134`).
- SkipList.SkipList.Erase: "no working list" means a freed node that is still linked, a wrong count or a link out of the list; what a program then does is undefined in C++.
- SkipList.SkipList.constructor: keys are integers and the order is that of the integers.
- LogStream.LogStreamObject.Append: full-buffer mode only; in line-buffer mode `flushLine` can move `_end` below `_buf` (`log/logStream.cpp:76-86`).  It needs the record to stay shorter than the buffer, exactly the inputs on which the source returns.
- LogStream.LogStreamObject.AppendBytes: the same.
- AsyncLogging.AsyncLogging.Append: needs a payload of at most a buffer's size; a longer one overruns the buffer in the source.
- AsyncLogging.AsyncLogging.WriteBatch: `needWrite` and `written` are unbounded; the source adds them in an `int`, which a batch of 2 GiB overflows.
- AsyncLogging.AsyncLogging.MainRoutine: producers append before and after each region of the backend under the lock, which are the only moments that make a difference; interleavings inside the writing are the subject of `LoggingProtocol`.
- Backend.StopIsFooled: payloads longer than a buffer overrun it in the source and are not considered.
- LoggingProtocol.StepKeeps: each region under the lock is one step; data races on `_running` and memory ordering are not modelled, and `_rollSize` is not negative.
- LoggingProtocol.Delivered: threads have ended before the streams are destroyed and `stop` is called, as the source's comment demands.
- ChunkChain.Serializer.constructor: chunk sizes from 1 to 2^32 - 1, because `_capacity` is a `uint32_t`; with 0 a write of at least one byte never ends.
- ChunkChain.Serializer.Write: bytes that a stale cursor would put beyond its chunk are dropped; in C++ they overwrite foreign memory.
- ChunkChain.Serializer.ToString: an unwritten cell differs from every byte; uninitialised memory could hold the right one by chance.
- Deserializer.Reader.ReadField: buffers below 4 GiB, as long as `_readed` does not wrap; the other typed readers likewise.
- Message.DeserializeFrom: the same, and at least one byte, as the source asserts.
- Wire.FieldRoundTrip: float and double are carried as bit patterns.
- Calendar.FastSecondToDate: inputs whose sum of hours and zone overflows an `int`, which C++ leaves undefined.
- LinkedList.List.Get: fewer than 2^32 - 1 items, so that the position -1 as a `uint32` is behind the list.
- LinkedList.List.Insert: `_len` narrowed to `int` for the position check is not modelled, here and in `remove` and `get`.
- The type tags SERIALIZER and DESERIALIZER: two classes, so that the wrong kind of call cannot be written.
- `formatInteger` and `formatHex`: digit loops, which would add easy members only.
- `Serialize::toFile` and `fromFile`, log files on disk, `fork`, `execv` and the packing of old logs: input and output.
- Configuration, fibers, threads, semaphores, hooks and the hash table's declarations: not part of this model.
- Allocation failure, the release of memory in destructors, printing and the clock: not part of this model.
