# A verified model of the byte ring, the Redis client core and the Lua bridge

The project models four parts of the server and proves what they promise.

* **The byte ring** (`CircularBuffer.dfy`, `RingProtocol.dfy`, `RingRuns.dfy`). `CircularBuffer` is the class with
  its array and its two free-running 32-bit counters, proved against the queue of bytes between two
  unbounded positions, so wrap-around of the counters is invisible. `RingProtocol` is one writer
  and one reader on that ring, interleaved between any two accesses to shared memory, and
  `RingRuns` says what each whole call comes to there.
* **The Redis client core** (`Resp.dfy`, `RedisCmdBuilder.dfy`, `RedisHelper.dfy`,
  `RedisResult.dfy`, `RedisMgr.dfy`, `RedisExec.dfy`, `AsyncDrain.dfy`, `ListOrder.dfy`). The builder
  prints commands in the Redis serialization protocol (RESP2); `Resp` also holds the parser, and
  the two undo each other. The send loop and the reply loops run against a script of what the
  kernel answers, and `RedisExec` follows a context through whole sequences of commands and
  batches. `AsyncDrain` is the two-thread protocol that posts a drain once and runs commands in
  batches, in every variant of how its three delicate lines could be written.
* **The Lua bridge** (`LuaState.dfy`, `LuaInterchange.dfy`, `ScriptTrees.dfy`, `ScriptEngine.dfy`).
  A run of nested calls C++ → Lua → C++ is a tree; `ScriptTrees` gives its meaning without a stack,
  `ScriptEngines` runs it on an explicit Lua stack as the code does, raised errors included, and is
  proved to give the same observations and to leave every stack as it found it.
* **The codecs** (`ByteOrder.dfy`). Low-byte-first readers and stores, and the trailing-space skip
  that compares eight bytes at a time.

`MachineInts.dfy` holds two's complement wrap-around, bitwise operations and masks.

Values the outside world decides are parameters: what `send` and the socket deliver, the clock, whether
connecting succeeds, and what a script does in a run.

## Where the code departs from its evident intent

The model keeps the code; the lemmas say exactly when it does what it should.

* `RoundupPowerOf2` starts from `~32767` in a signed integer, so it returns a negative number;
  `CircularBuffers.Create` therefore gives a buffer only for size 0 and positive powers of two.
* `GetCanReadBuff` samples the write counter three times. Run alone it is right; against a
  concurrent writer its span leaves the ring exactly if the writer passed the end of the ring
  between the last two samples (`ReadViewOverrunsIff`); `ReadViewCanOverrun` is such a run.
  Everything else holds in every run up to the access that leaves the ring, and no run in which the
  writer never does that has one (`Conservation`). A length computed from the second sample alone
  would be right in every run (`SecondSampleSuffices`).
* A transient `send` failure is counted as −1 bytes sent, so the cursor moves back one byte: the
  command is sent exactly once if and only if there was no such failure
  (`RedisWrapper.RedisBufferWriteInner`).
* The send loop uses up the length slot of the builder. A second attempt sends only as many bytes
  as were left, from the front (`RedisExec.Resend`); of a batch it sends nothing of the builders
  that went out and the rest again, and appends one reply for each builder to those of the first
  attempt (`RedisExec.BatchResend`). The retry that would do so is not reached: it
  waits for `REDIS_ERR_IO` where the callees return `REDIS_ERR`, and `execCmd` and `batchExecCmd`
  report success in any case. Nothing replaces a context in error, so after one failure every later
  command goes unsent and is reported REDIS_OK (`RedisExec.ExecInTurn`); a drain goes on freeing the
  builders of batches it does not send (`RedisExec.ExecInBatches`). Were the retry reached, its own
  test for the same code would end it with the first new context, whether or not the command went
  through on it (`RedisMgr.ExecTaskAsWritten`).
* `if (connection._postTask = false)` assigns: no drain is ever started
  (`AsyncDrain.AsWrittenNothingRuns`). With the comparison, commands can still be stranded unless
  the flag is set before the drain is posted and cleared before the list is cut (`NeverStrandsIff`).
  That repair costs something: with the early clearing a second drain can be posted while one is
  running (`AtMostOneDrain`).
* `_threadIdx` keeps its initial 1 on every connection, so all drains run on worker 1 and its
  connection: every command runs on the connection its id chose only if there is just one
  (`RedisMgr.DrainedOnItsOwnConnection`).
* An id is taken modulo 2^64 first, so neighbours on both sides of zero may share a connection
  (`RedisMgr.AsyncSlotsCollide`).
* `ParseStringMap` computes `elements - 1` on an unsigned count and reads past the end of an empty
  array, and only then.
* `ExecGlobalFunction` leaves its arguments on the stack when the global is not a function. A
  callback that makes such calls unbalances `ExecFunction` as well, and a native function that goes
  on after one can return values it never wrote (`ScriptTrees.LeakedArgumentsAreReturned`): it
  returns what it wrote, whatever values these are, exactly if the entry function exists or it
  writes nothing before a call (`ScriptTrees.ReturnsWrittenIff`).

## Model

| member | source | states |
|---|---|---|
| `RingProtocol.Conservation` | Thridlibrary/include/GridSeed/include/CircularBuffer.h:26-115 | over every interleaving of one writer and one reader, as long as no access left the ring, bytes read followed by bytes in the ring equal the bytes written; none ever does unless the writer passes the end between two samples of one GetCanReadBuff |
| `RingProtocol.FaultFreeIff` | Thridlibrary/include/GridSeed/include/CircularBuffer.h:26-115 | an access leaves the ring exactly in runs in which the reader consumes past its end through a span it was given |
| `RingProtocol.StepKeepsInv` | Thridlibrary/include/GridSeed/include/CircularBuffer.h:26-115 | each single access of either thread keeps the invariant that ties counters, cells, locals and streams together; after TryReadBuff the reader may go on or consume what it was shown by the one-argument Read |
| `RingProtocol.RunKeepsInv` | Thridlibrary/include/GridSeed/include/CircularBuffer.h:26-115 | so does every run |
| `RingProtocol.CopiesNeverOverlap` | Thridlibrary/include/GridSeed/include/CircularBuffer.h:32-54 | no cell the writer copies into or holds is one the reader copies out of or holds |
| `RingProtocol.WriterTouchesFree` | Thridlibrary/include/GridSeed/include/CircularBuffer.h:32-54 | the writer copies into and holds free cells only, whatever the reader does |
| `RingProtocol.ReaderTouchesQueued` | Thridlibrary/include/GridSeed/include/CircularBuffer.h:61-106 | the reader copies out of and holds queued cells only |
| `RingProtocol.StepsChangeFreeCells` | Thridlibrary/include/GridSeed/include/CircularBuffer.h:26-115 | no step of either thread changes a queued cell or one the reader touches |
| `RingProtocol.PeekSeesFront` | Thridlibrary/include/GridSeed/include/CircularBuffer.h:75-91 | whatever the writer does between the samples of TryReadBuff, it shows the front of the queue |
| `RingProtocol.ReadViewOverrunsIff` | Thridlibrary/include/GridSeed/include/CircularBuffer.h:61-73 | the span of GetCanReadBuff leaves the ring exactly if the writer passed the end of the ring between the second sample and the third |
| `RingProtocol.PassingFaults` | Thridlibrary/include/GridSeed/include/CircularBuffer.h:61-73 | and whenever it did, consuming the span leaves the ring |
| `RingProtocol.ReadViewHoldsFront` | Thridlibrary/include/GridSeed/include/CircularBuffer.h:61-73 | a span that stays in the ring holds the front of the queue |
| `RingProtocol.ReadViewOfOneSnapshot` | Thridlibrary/include/GridSeed/include/CircularBuffer.h:61-73 | with no write between the samples the span is the longest filled run |
| `RingProtocol.SecondSampleSuffices` | Thridlibrary/include/GridSeed/include/CircularBuffer.h:61-73 | computed from the second sample alone, the span stays in the ring and holds queued bytes in every interleaving |
| `RingProtocol.ReadViewCanOverrun` | Thridlibrary/include/GridSeed/include/CircularBuffer.h:61-73 | a run from an empty ring in which the span ends outside it |
| `RingProtocol.WriteViewIsFree` | Thridlibrary/include/GridSeed/include/CircularBuffer.h:43-54 | the span of GetCanWriteBuff is the longest free run, even with a stale first sample |
| `RingRuns.WriteRun` | Thridlibrary/include/GridSeed/include/CircularBuffer.h:26-41 | a Write interleaved with any reader puts in exactly the longest prefix of its data that fits the free cells at its sample |
| `RingRuns.ReadRun` | Thridlibrary/include/GridSeed/include/CircularBuffer.h:93-110 | a Read interleaved with any writer takes exactly the oldest bytes, as many as asked for or as were queued at its sample |
| `RingRuns.PeekRun` | Thridlibrary/include/GridSeed/include/CircularBuffer.h:75-91 | TryReadBuff for bytes that are queued shows exactly them, in the ring or copied, and consumes nothing, whatever the writer does |
| `RingRuns.AfterPeek` | Thridlibrary/include/GridSeed/include/CircularBuffer.h:75-115 | ending the peek consumes nothing; the one-argument Read after it consumes exactly as many of the bytes shown as it is told |
| `RingRuns.FillRun` | Thridlibrary/include/GridSeed/include/CircularBuffer.h:43-59 | writing through a span publishes exactly what the caller last stored there, whatever the reader does |
| `RingRuns.ConsumeRun` | Thridlibrary/include/GridSeed/include/CircularBuffer.h:61-115 | reading through a span that fits consumes exactly as many of the oldest bytes as the caller says |
| `RingRuns.GoesOnIff` | Thridlibrary/include/GridSeed/include/CircularBuffer.h:43-106 | GetCanWriteBuff goes on exactly with free cells, GetCanReadBuff and Read exactly with queued bytes, TryReadBuff exactly with as many as asked for; otherwise nothing changes |
| `RingRuns.WriteOnce` | Thridlibrary/include/GridSeed/include/CircularBuffer.h:26-41 | from every state with an idle writer a Write can be completed |
| `RingRuns.ReadOnce` | Thridlibrary/include/GridSeed/include/CircularBuffer.h:93-110 | so can a Read |
| `RingRuns.PeekOnce` | Thridlibrary/include/GridSeed/include/CircularBuffer.h:75-91 | and a peek |
| `RingRuns.FillOnce` | Thridlibrary/include/GridSeed/include/CircularBuffer.h:43-59 | and a write through a span of any length up to the longest free run |
| `RingCells.OffsetOfCounter` | Thridlibrary/include/GridSeed/include/CircularBuffer.h:32 | masking the wrapped 32-bit counter gives the cell of the unbounded position |
| `RingCells.WindowAppend` | Thridlibrary/include/GridSeed/include/CircularBuffer.h:35-36 | storing bytes after a window appends them and disturbs nothing queued |
| `RingCells.TwoSlicesStore` | Thridlibrary/include/GridSeed/include/CircularBuffer.h:33-36 | the two-part copy stores the bytes at consecutive positions, wrapping once |
| `CircularBuffers.CircularBuffer.constructor` | Thridlibrary/include/GridSeed/include/CircularBuffer.h:11-16 | an empty queue |
| `CircularBuffers.CircularBuffer.Write` | Thridlibrary/include/GridSeed/include/CircularBuffer.h:26-41 | appends the longest prefix that fits and returns its length |
| `CircularBuffers.CircularBuffer.Read` | Thridlibrary/include/GridSeed/include/CircularBuffer.h:93-110 | removes the oldest bytes, at most `len`, into the caller's buffer and touches nothing behind them |
| `CircularBuffers.CircularBuffer.Consume` | Thridlibrary/include/GridSeed/include/CircularBuffer.h:112-115 | drops the oldest bytes |
| `CircularBuffers.CircularBuffer.GetCanWriteBuff` | Thridlibrary/include/GridSeed/include/CircularBuffer.h:43-54 | null exactly when full; otherwise the maximal contiguous free run |
| `CircularBuffers.CircularBuffer.FillView` | Thridlibrary/include/GridSeed/include/CircularBuffer.h:43-54 | a caller filling that run changes nothing queued |
| `CircularBuffers.CircularBuffer.WriteBuff` | Thridlibrary/include/GridSeed/include/CircularBuffer.h:56-59 | queues the bytes already stored there |
| `CircularBuffers.CircularBuffer.GetCanReadBuff` | Thridlibrary/include/GridSeed/include/CircularBuffer.h:61-73 | null exactly when empty; otherwise the maximal contiguous run of oldest bytes |
| `CircularBuffers.CircularBuffer.TryReadBuff` | Thridlibrary/include/GridSeed/include/CircularBuffer.h:75-91 | shows the first `len` queued bytes without consuming them, in the ring or in the caller's buffer; nothing when there are fewer |
| `CircularBuffers.CircularBuffer.GetUnUsed` | Thridlibrary/include/GridSeed/include/CircularBuffer.h:118 | the free cells, on wrapping counters |
| `CircularBuffers.CircularBuffer.DataSize` | Thridlibrary/include/GridSeed/include/CircularBuffer.h:119 | the queued bytes, on wrapping counters |
| `CircularBuffers.RoundupPowerOf2` | Thridlibrary/include/GridSeed/include/CircularBuffer.h:121-126 | what the shift loop returns: minus twice the highest set bit, at most 2^15 |
| `CircularBuffers.Create` | Thridlibrary/include/GridSeed/include/CircularBuffer.h:11-16 | a buffer exactly for size 0 and positive powers of two |
| `Resp.EncodeParses` | logic/Core/RedisMgr/RedisHelper.h:34-96 | printed command and parser undo each other, whatever bytes the arguments hold, if and only if every printed length is below 2^31 |
| `Resp.StreamParses` | logic/Core/RedisMgr/RedisMgr.cpp:292-304 | the bytes of several commands parse back to exactly these commands if and only if every printed length is below 2^31 |
| `Resp.StreamInjective` | logic/Core/RedisMgr/RedisMgr.cpp:292-304 | no two lists of commands whose printed lengths are below 2^31 have the same bytes |
| `Resp.LongCommandsCollide` | logic/Core/RedisMgr/RedisHelper.h:34-44 | beyond that bound they can: one command with an argument of 2^32 bytes has the bytes of two commands |
| `Resp.ReplyParses` | logic/Core/RedisMgr/RedisMgr.cpp:306-325 | a reply of any kind, nested to any depth, as a server prints it, reads back as exactly that reply and leaves what follows, if and only if every status and error text in it is a single line |
| `Resp.RepliesParse` | logic/Core/RedisMgr/RedisMgr.cpp:306-325 | so do several of them |
| `Resp.IncompleteWaits` | logic/Core/RedisMgr/RedisHelper.cpp:155-161 | while a printed reply has not arrived whole, the reader asks for more |
| `Resp.MalformedIsBad` | logic/Core/RedisMgr/RedisHelper.cpp:155-161 | bytes that are no reply are rejected: an unknown type, a number that is none, a length below -1, data without CR LF |
| `Resp.EncodeIsPrinted` | logic/Core/RedisMgr/RedisHelper.h:34-96 | a command whose lengths fit is printed like the array of bulk strings it stands for |
| `Resp.ParseManyStable` | logic/Core/RedisMgr/RedisMgr.cpp:306-325 | more input never changes replies already complete |
| `Decimal.ParsePrinted` | logic/Core/RedisMgr/RedisHelper.h:70-75 | a printed integer reads back as itself |
| `Decimal.Canonical` | logic/Core/RedisMgr/RedisHelper.h:70-75 | and is printed with a sign exactly if it is negative and without leading zeros |
| `RedisCmdBuilders.RedisCmdBuilder.AppendString` | logic/Core/RedisMgr/RedisHelper.h:34-44 | appends one bulk string and keeps what is there |
| `RedisCmdBuilders.RedisCmdBuilder.AppendCStr` | logic/Core/RedisMgr/RedisHelper.h:46-56 | the same for the bytes before the first NUL |
| `RedisCmdBuilders.RedisCmdBuilder.AppendInteger` | logic/Core/RedisMgr/RedisHelper.h:70-75 | the same for a printed integer |
| `RedisCmdBuilders.RedisCmdBuilder.Commit` | logic/Core/RedisMgr/RedisHelper.h:78-96 | header back-filled to end at offset 20, length slot before it holds the command's length as a 32-bit number, argument bytes unchanged, second commit changes nothing |
| `RedisCmdBuilders.HeaderLength` | logic/Core/RedisMgr/RedisHelper.h:82-88 | every header fits the reserve |
| `RedisCmdBuilders.RedisCmdBuilder.FreshPayload` | logic/Core/RedisMgr/RedisHelper.h:98 | what a fresh commit makes sendable is the whole command |
| `RedisWrapper.RedisBufferWriteInner` | logic/Core/RedisMgr/RedisHelper.cpp:122-146 | bytes sent followed by bytes pending are the command at every exit without transient failures; on REDIS_OK the command went out exactly once if and only if there was none, else one byte longer for each; while every send makes progress, sends and pending bytes together never exceed the command's length, so as many sends as bytes end in REDIS_OK; an error on a sound context means that the last send failed, other than by an interrupt or by blocking on a non-blocking socket, and only these two are counted as −1 and tried again; without failures as much goes out as the kernel offers to take; nothing is sent on a context in error |
| `RedisWrapper.SendFromEnds` | logic/Core/RedisMgr/RedisHelper.cpp:122-146 | what a script of send events makes of a command: an error has its cause in the last event used, waiting means that no event is left, and only a good end leaves nothing unsent |
| `RedisWrapper.TransientsAre` | logic/Core/RedisMgr/RedisHelper.cpp:133-135 | the failures tried again are the interrupted calls and, on a non-blocking socket, those that would block |
| `RedisWrapper.SendFromAccepts` | logic/Core/RedisMgr/RedisHelper.cpp:130-143 | if no call fails, as much goes out as the kernel offers to take, at most the whole command |
| `RedisWrapper.SendOnce` | logic/Core/RedisMgr/RedisHelper.cpp:132-143 | one `send` and its updates of slot and cursor, for each kind of event |
| `RedisWrapper.ReadUntilReply` | logic/Core/RedisMgr/RedisHelper.cpp:155-161 | reads at least once and no more than needed; the reply is what the grammar reads from the stream |
| `RedisWrapper.RedisGetReplyInner` | logic/Core/RedisMgr/RedisHelper.cpp:149-172 | one command out, one reply in |
| `RedisWrapper.SendAll` | logic/Core/RedisMgr/RedisMgr.cpp:291-304 | a batch goes out in order, whole and once exactly without transient failures; on an error, which the last send caused, a prefix of it; with as many sends that make progress as there are bytes, all of it; what the slots of all builders hold afterwards; nothing on a context in error |
| `RedisWrapper.SendBuilder` | logic/Core/RedisMgr/RedisMgr.cpp:301-303 | one builder of it, and the count its slot is left with |
| `RedisWrapper.CollectReplies` | logic/Core/RedisMgr/RedisMgr.cpp:306-325 | REDIS_OK exactly with n replies appended, the i-th in the stream i-th, the rest kept in the reader; on an error, caused by a failed read or by bytes that are no reply, a correct prefix; waiting only for a reply that is incomplete |
| `RedisWrapper.PrintedCollected` | logic/Core/RedisMgr/RedisMgr.cpp:306-325 | if what arrives is what a server prints for n replies, however it is cut into arrivals, exactly these replies are collected, in order, and what follows is kept |
| `RedisWrapper.PipelineSendAndGetReply` | logic/Core/RedisMgr/RedisMgr.cpp:289-328 | the outcome is the one of sending if that does not end well, and then nothing is read; otherwise the one of collecting one reply for each builder; the causes and the progress of both |
| `RedisWrapper.ChunkIndependent` | logic/Core/RedisMgr/RedisMgr.cpp:306-325 | however one stream is cut into arrivals, the replies and what follows them are the same |
| `RedisWrapper.BatchParses` | logic/Core/RedisMgr/RedisMgr.cpp:292-304 | a server reads from the bytes of a batch exactly its commands, in order, if and only if every printed length is below 2^31 |
| `RedisResults.ParseStringArray` | logic/Core/RedisMgr/RedisHelper.cpp:85-99 | appends the bytes of each bulk string and an empty string for any other element, or nothing if it is no array |
| `RedisResults.ParseStringMap` | logic/Core/RedisMgr/RedisHelper.cpp:101-120 | each key holds its first value, existing keys stay; pairs of bulk strings with different new keys are added exactly; out of bounds exactly on an empty array |
| `AsyncDrain.NothingLost` | logic/Core/RedisMgr/RedisMgr.cpp:90-163 | in every interleaving and variant each command is in exactly one of queue, batch, and handed over and freed |
| `AsyncDrain.NeverStrandsIff` | logic/Core/RedisMgr/RedisMgr.cpp:90-163 | no command is ever stranded if and only if the test compares, the flag is set before posting and cleared before the cut |
| `AsyncDrain.RestMeansDone` | logic/Core/RedisMgr/RedisMgr.cpp:90-163 | in that variant, when both threads rest everything submitted has been handed over and freed |
| `AsyncDrain.AtMostOneDrain` | logic/Core/RedisMgr/RedisMgr.cpp:121-162 | at most one drain per connection is posted or running, ever, if and only if the test assigns or the flag is cleared at the end |
| `AsyncDrain.AtMostOneWaits` | logic/Core/RedisMgr/RedisMgr.cpp:121-162 | in the variant that never strands, at most one waits to begin |
| `AsyncDrain.ComesToRest` | logic/Core/RedisMgr/RedisMgr.cpp:90-163 | in that variant, with nothing new submitted, every order of steps comes to rest within as many steps as commands are waiting plus 14, with everything handed over and freed; before rest a step is always possible |
| `AsyncDrain.AsWrittenNothingRuns` | logic/Core/RedisMgr/RedisMgr.cpp:158 | as written, for either order of cutList, nothing is ever drained |
| `AsyncDrain.KeepsOrderIff` | logic/Core/RedisMgr/RedisMgr.cpp:92-103 | in the safe variant commands are handed over in submission order exactly when cutList keeps insertion order |
| `RedisMgr.GetRedisConnection` | logic/Core/RedisMgr/RedisMgr.cpp:377-385 | slot 0 exactly for the main thread |
| `RedisMgr.WorkersOwnTheirConnection` | logic/Core/RedisMgr/RedisMgr.cpp:377-385 | on workers 1 to connectNum the slots are a permutation of 1 to connectNum |
| `RedisMgr.GetRedisConnectionInAsync` | logic/Core/RedisMgr/RedisMgr.cpp:387-391 | every 64-bit id, negative ones included, has a slot from 1 to connectNum |
| `RedisMgr.ThreadsGoRound` | logic/Core/RedisMgr/RedisMgr.cpp:377-385 | consecutive threads go round the slots, except at the main thread and where the number wraps to it |
| `RedisMgr.IdsGoRound` | logic/Core/RedisMgr/RedisMgr.cpp:387-391 | consecutive ids go round the slots from 1 at id 0, except from -1 to 0 |
| `RedisMgr.AsyncSlotsCollide` | logic/Core/RedisMgr/RedisMgr.cpp:387-391 | ids less than connectNum apart share a connection exactly if they lie on both sides of zero and 2^64 leaves their distance modulo connectNum |
| `RedisMgr.DrainedOnItsOwnConnection` | logic/Core/RedisMgr/RedisMgr.cpp:105-160 | every id is drained on its own connection if and only if there is only one |
| `RedisMgr.RedisConnection.AddAsyncTask` | logic/Core/RedisMgr/RedisMgr.cpp:150-163 | inserts at the head; starts a drain, on thread 1, exactly when the test compares and none is promised; as written it clears the flag |
| `RedisMgr.RedisConnection.CutList` | logic/Core/RedisMgr/RedisMgr.cpp:92 | takes the whole list, relinked oldest first if cutList keeps insertion order |
| `RedisMgr.CutAgrees` | logic/Core/RedisMgr/RedisMgr.cpp:92-103 | list and queue of the protocol are cut in the same order |
| `RedisMgr.ChainHasNoRepeats` | logic/Core/RedisMgr/RedisMgr.cpp:96-119 | a list that ends holds no node twice, so each is freed once |
| `RedisMgr.OnExecRedisTask` | logic/Core/RedisMgr/RedisMgr.cpp:90-122 | batches of 16, the last possibly smaller, that together are the cut list in its order; nodes freed once each, builders and replies too when they are different ones; both vectors emptied after each batch; all of it on worker 1's connection |
| `RedisMgr.PartitionCount` | logic/Core/RedisMgr/RedisMgr.cpp:102 | the number of batches is n/16 rounded up |
| `RedisExec.ExecCmd` | logic/Core/RedisMgr/RedisMgr.cpp:165-179 | never retries; success reported in any case, a reply exactly if the command succeeded, and then the next one of the stream; what it makes of the context is what its script of events says; on a context in error nothing is sent and nothing changes |
| `RedisExec.StepMeans` | logic/Core/RedisMgr/RedisMgr.cpp:289-328 | one command or batch on a context: it ends well exactly with one reply for each builder, the next ones of the stream, all its bytes are out then, and exactly an error stays in the context |
| `RedisExec.RunAnswered` | logic/Core/RedisMgr/RedisMgr.cpp:165-195 | over any sequence of commands or batches on one context: up to the first that does not end well, their bytes follow each other on the wire, once exactly without transient failures, and the replies are the first of all that was received, in order |
| `RedisExec.RunFailsOn` | logic/Core/RedisMgr/RedisMgr.cpp:165-195 | from the first error on, or from the start on a context in error, every one fails, uses no event, brings nothing and leaves the context as it is |
| `RedisExec.ExecInTurn` | logic/Core/RedisMgr/RedisMgr.cpp:165-179 | a caller's commands, one after another, are such a sequence on this context, from its state before to its state after: the first ones go out in order and are answered by the first replies of the stream; after the first that fails every one is unsent, unanswered and reported REDIS_OK |
| `RedisExec.BatchExecCmd` | logic/Core/RedisMgr/RedisMgr.cpp:181-195 | never retries; success reported in any case; a prefix of the batch goes out and the first replies of the stream are appended; nothing on a context in error |
| `RedisExec.ExecInBatches` | logic/Core/RedisMgr/RedisMgr.cpp:90-122 | a drain's batches of 16 are such a sequence on this context: up to the first that fails, the commands go out in order and one reply for each is read, in order; after it all are unsent and unanswered, and every builder is freed all the same; a batch that waits keeps its builders |
| `RedisExec.BatchesAre` | logic/Core/RedisMgr/RedisMgr.cpp:96-116 | what the first batches have to send is what the first commands have to send, and they have as many builders |
| `RedisExec.Resend` | logic/Core/RedisMgr/RedisMgr.cpp:169-177 | if the count left reaches past the buffer, a second attempt on a context without error runs past it, where the model stops; if it succeeds without transient failures it has put that many first bytes on the other connection, the whole command exactly if the first attempt sent as many bytes as it saw transient failures |
| `RedisExec.BatchResend` | logic/Core/RedisMgr/RedisMgr.cpp:187-192 | a retried batch: the replies of the first attempt stay and those of the second, one for each builder on success, are appended; it sends nothing of the builders that went out, as many first bytes of the next one as are left, and all others; what the first attempt sent and what the retry has to send add up to the batch, plus one byte for each transient failure of the first; without these the retry has the whole batch to send exactly if nothing went out |
| `RedisMgr.ExecTaskByTimeOut` | logic/Core/RedisMgr/RedisMgr.cpp:330-350 | at most reattemptTime/1000 + 2 attempts, stops at the first success or past the deadline; one live context at the end, every replaced one freed once |
| `RedisMgr.ExecTaskAsWritten` | logic/Core/RedisMgr/RedisMgr.cpp:169-192 | with the retry calls as they are, it ends with the first new context whatever the command came to, and replaces at most one |
| `ScriptEngines.ExecFunction` | logic/Core/ScriptEngine/ScriptEngine.cpp:242-285 | on every path that fails and returns, exactly function and arguments are gone; on success they are and nothing is left if and only if the entry function exists or the callback makes no call; the run observes what its tree says |
| `ScriptEngines.ExecGlobalFunction` | logic/Core/ScriptEngine/ScriptEngine.cpp:176-194 | arguments consumed when the global is a function, under the same condition on the callback; left in place when not |
| `ScriptTrees.ResidueIff` | logic/Core/ScriptEngine/ScriptEngine.cpp:277-282 | a callback that returns leaves nothing exactly if the entry function exists or it makes no call |
| `ScriptEngines.CallScriptFunc` | logic/Core/ScriptEngine/ScriptEngine.cpp:79-98 | the caller's stack is as before if and only if the entry function exists; result and observations as in the tree |
| `ScriptEngines.LuaCall` | logic/Core/ScriptEngine/ScriptEngine.cpp:138-147 | reads its own arguments and returns the values its tree says |
| `ScriptTrees.NativeSeesArguments` | logic/Core/ScriptEngine/ScriptEngine.cpp:138-147 | a native function counts and reads the typed arguments Lua passes, any number of them, in order from the first on, and again after Reset |
| `ScriptTrees.NativeReads` | logic/Core/ScriptEngine/LuaInterchange.cpp:4-130 | its i-th read converts its i-th argument, whatever kind and value these are, and past the end gives nothing |
| `ScriptTrees.RunInOrder` | logic/Core/ScriptEngine/ScriptEngine.cpp:138-147 | the native calls of a Lua function happen in order, once each, up to the first that raises uncaught |
| `ScriptTrees.FailsIff` | logic/Core/ScriptEngine/ScriptEngine.cpp:262-285 | a script call fails exactly if its function ends in an error or one of its native calls raised uncaught, and its callback is then not run |
| `ScriptEngines.RunLua` | logic/Core/ScriptEngine/ScriptEngine.cpp:138-147 | each native call in a frame of its own, errors caught or passed on |
| `ScriptEngines.PCall` | logic/Core/ScriptEngine/ScriptEngine.cpp:262-276 | eight results or one error object in place of function and arguments, whatever an error left behind; without a handler the error a script raised itself |
| `ScriptEngines.RunBlock` | logic/Core/ScriptEngine/ScriptEngine.cpp:79-98 | code with streams on a shared stack observes and pushes what its tree says, and changes nothing else |
| `ScriptEngines.ExecScriptFile` | logic/Core/ScriptEngine/ScriptEngine.cpp:122-136 | stack neutral whether the file loads, fails to load or raises; the chunk runs exactly if it loads, without arguments |
| `ScriptEngines.ExecWithName` | logic/Core/ScriptEngine/ScriptEngine.cpp:230-240 | the global is called with exactly the name exactly if it is a function, and exactly then the stack is left as it was |
| `ScriptTrees.ReturnsWhatItWrote` | logic/Core/ScriptEngine/ScriptEngine.cpp:138-147 | where the entry function exists, a native function gives Lua exactly the values it wrote, in order, whatever it calls in between |
| `ScriptTrees.ReturnsWrittenIff` | logic/Core/ScriptEngine/ScriptEngine.cpp:138-185 | a native function that ends normally gives Lua what it wrote, whatever values it writes, if and only if the entry function exists or it writes nothing before a script call |
| `ScriptTrees.LeftIsReturned` | logic/Core/ScriptEngine/ScriptEngine.cpp:138-185 | where it is missing: if the value written last before the last call is not the one that call left on top, the function returns values it did not write |
| `ScriptTrees.ScriptGetsWhatWasWritten` | logic/Core/ScriptEngine/LuaInterchange.cpp:204-220 | the entry function receives module, function and exactly the written arguments |
| `ScriptTrees.CallsDisturbNothing` | logic/Core/ScriptEngine/ScriptEngine.cpp:79-98 | where the entry function exists, replacing the script calls inside a block by any others that return, failing ones included, changes neither its stream, nor what it reads, nor what it pushes |
| `ScriptTrees.LeakedArgumentsAreReturned` | logic/Core/ScriptEngine/ScriptEngine.cpp:180-185 | a run of a native function that returns a leaked argument |
| `ScriptTrees.TypedValuesSurvive` | logic/Core/ScriptEngine/LuaInterchange.cpp:4-136 | up to eight returned values are counted and read back, in order, and again after Reset |
| `ScriptTrees.IdenticalIff` | logic/Core/ScriptEngine/LuaInterchange.cpp:107-136 | the callback gets every value back identically, twice, exactly if every pointer has a type name |
| `ScriptTrees.EchoRoundTrip` | logic/Core/ScriptEngine/LuaInterchange.cpp:145-220 | values written as arguments and returned by the script come back |
| `ScriptTrees.VisibleResults` | logic/Core/ScriptEngine/LuaInterchange.cpp:13-23 | of more than eight results the first eight are visible |
| `LuaInterchange.WrittenReadsBack` | logic/Core/ScriptEngine/LuaInterchange.cpp:145-202 | one value of each kind, both ways |
| `LuaInterchange.NumbersAtEveryWidth` | logic/Core/ScriptEngine/LuaInterchange.cpp:40-83 | two numbers read alike at a width exactly if they differ by a multiple of 2^width, a 64-bit one as it is; a numeral in a string reads as the number |
| `LuaInterchange.NoNumberReadsZero` | logic/Core/ScriptEngine/LuaInterchange.cpp:40-83 | what is no number reads as 0 |
| `LuaInterchange.NumbersWiden` | logic/Core/ScriptEngine/LuaInterchange.cpp:76-83 | a narrow number that was written reads back widened |
| `LuaInterchange.TruthOfAnything` | logic/Core/ScriptEngine/LuaInterchange.cpp:29-38 | any value reads as a boolean, false exactly for nil and false |
| `LuaInterchange.PointerNeedsItsType` | logic/Core/ScriptEngine/LuaInterchange.cpp:107-130 | a pointer is given exactly for the type name it was written with; another name leaves the variable, another value raises |
| `LuaInterchange.StringOfAnything` | logic/Core/ScriptEngine/LuaInterchange.cpp:84-98 | strings are cut at their first NUL; tables give null; anything but strings and numbers raises |
| `LuaInterchange.PrintedInPlace` | logic/Core/ScriptEngine/LuaInterchange.cpp:84-98 | reading an integer as a string rewrites the stack slot without losing the integer |
| `LuaInterchange.LuaInputStream.constructor` | logic/Core/ScriptEngine/LuaInterchange.cpp:4-24 | the whole frame, or the top eight values up to the first nil |
| `LuaInterchange.CountResults` | logic/Core/ScriptEngine/LuaInterchange.cpp:15-21 | counts the results before the first nil |
| `LuaInterchange.LuaInputStream.Read` | logic/Core/ScriptEngine/LuaInterchange.cpp:26-130 | converts the next value and leaves the rest of the stack alone; past the end it does nothing |
| `LuaInterchange.LuaOutputStream.Write` | logic/Core/ScriptEngine/LuaInterchange.cpp:145-202 | pushes one value and counts it |
| `ScriptRegistration.RegModuleFunc` | logic/Core/ScriptEngine/ScriptEngine.cpp:49-77 | stack neutral; the function is stored in the module's table, which is created if need be |
| `ScriptRegistration.RegisteredIsFound` | logic/Core/ScriptEngine/ScriptEngine.cpp:58-75 | it is found there, and every other function of every module is what it was |
| `ScriptRegistration.ModulePathsCollide` | logic/Core/ScriptEngine/ScriptEngine.cpp:51-52 | module names are told apart exactly by their first 251 bytes |
| `ScriptRegistration.SetSearchPath` | logic/Core/ScriptEngine/ScriptEngine.cpp:108-120 | stack neutral; only the search path changes |
| `TrailingSpace.SkipTrailingSpace` | Thridlibrary/include/mysql/include/m_string.h:317-329 | the position the plain byte-by-byte scan finds, for every buffer and length, inside the buffer |
| `TrailingSpace.TrimmedLengthIs` | Thridlibrary/include/mysql/include/m_string.h:326-328 | that scan stops right after the last byte that is no space |
| `TrailingSpace.EightSpaces` | Thridlibrary/include/mysql/include/m_string.h:322 | the 64-bit comparison holds exactly for eight spaces |
| `ByteOrder.StoreThenRead` | Thridlibrary/include/mysql/include/byte_order_generic.h:38-97 | reading what was stored gives the value modulo 256^width, widths 2 to 6 and 8 |
| `ByteOrder.Signed2StoreThenRead` | Thridlibrary/include/mysql/include/byte_order_generic.h:20-26 | a stored s16 reads back as itself, sign included |
| `ByteOrder.Signed3StoreThenRead` | Thridlibrary/include/mysql/include/my_byteorder.h:31-43 | a stored 24-bit signed number |
| `ByteOrder.Signed4StoreThenRead` | Thridlibrary/include/mysql/include/byte_order_generic.h:28-36 | a stored s32 |
| `ByteOrder.Signed8StoreThenRead` | Thridlibrary/include/mysql/include/byte_order_generic.h:71-74 | a stored s64 |
| `ByteOrder.ReadThenStore` | Thridlibrary/include/mysql/include/byte_order_generic.h:38-97 | storing what was read restores the bytes |
| `ByteOrder.Int2Store` | Thridlibrary/include/mysql/include/byte_order_generic.h:76-81 | writes the two low bytes, nothing else |
| `ByteOrder.Int3Store` | Thridlibrary/include/mysql/include/my_byteorder.h:77-82 | three bytes |
| `ByteOrder.Int4Store` | Thridlibrary/include/mysql/include/byte_order_generic.h:83-89 | four bytes |
| `ByteOrder.Int5Store` | Thridlibrary/include/mysql/include/my_byteorder.h:84-91 | five bytes |
| `ByteOrder.Int6Store` | Thridlibrary/include/mysql/include/my_byteorder.h:93-101 | six bytes |
| `ByteOrder.Int8Store` | Thridlibrary/include/mysql/include/byte_order_generic.h:91-97 | two words, low word first, are the eight bytes |
| `ByteOrder.Uint3Korr` | Thridlibrary/include/mysql/include/my_byteorder.h:45-52 | the value of the first three bytes |
| `ByteOrder.Uint4Korr` | Thridlibrary/include/mysql/include/byte_order_generic.h:46-54 | of four |
| `ByteOrder.Uint5Korr` | Thridlibrary/include/mysql/include/my_byteorder.h:54-63 | of five |
| `ByteOrder.Uint6Korr` | Thridlibrary/include/mysql/include/my_byteorder.h:65-75 | of six |
| `ByteOrder.Uint8Korr` | Thridlibrary/include/mysql/include/byte_order_generic.h:56-69 | of eight |
| `ByteOrder.Sint3KorrExtends` | Thridlibrary/include/mysql/include/my_byteorder.h:31-43 | sint3korr is the sign extension of uint3korr |

## Left out

- RingProtocol.Conservation: memory is sequentially consistent; fences and hardware reordering are not modelled, nor what lies behind the ring: a run ends its claims at the first access outside.
- CircularBuffers.CircularBuffer.Write: a negative `len`, which the code would pass to `memcpy`.
- CircularBuffers.CircularBuffer.Read: a negative `len`, likewise.
- CircularBuffers.CircularBuffer.TryReadBuff: a negative `len`, likewise.
- CircularBuffers.CircularBuffer.Consume: a size above the queued bytes, which the code adds to the counter unchecked; the caller keeps to the span it was given.
- CircularBuffers.CircularBuffer.WriteBuff: a size above the free cells, likewise.
- RedisExec.Resend: what a send of bytes outside the buffer would put on the wire.
- RedisExec.BatchResend: likewise.
- RedisMgr.ExecTaskByTimeOut: the code never loads `reattemptTime` from its configuration, so it is 0 there; here it is any number.
- RedisMgr.OnExecRedisTask: the replies of each batch are a parameter here, and RedisExec.ExecInBatches runs the batches on a context; the order in which cutList hands out commands is the parameter `fifo`, since AtomicIntrusiveLinkedList.h is not part of this model.
- RedisWrapper.SendAll: a builder listed twice in one batch; the first time uses up its slot, so the second would send nothing.
- RedisWrapper.PipelineSendAndGetReply: likewise.
- RedisExec.BatchExecCmd: likewise.
- RedisExec.ExecInTurn: a builder executed twice, likewise.
- RedisWrapper.CollectReplies: replies of types status, error, integer, bulk, array and null of RESP2; hiredis itself is not part of this model, nor its limits on nesting.
- RedisCmdBuilders.RedisCmdBuilder.AppendString: `operator<<` of StrView differs from this only in narrowing the length to 32 bits before it copies; that narrowing is not modelled.
- ScriptEngines.ExecGlobalFunction: the number of arguments, module and function name included, is at most 127 in every call of a tree; above that the code truncates it to 8 bits and no longer balances the stack.
- ScriptEngines.PCall: which error object a traceback handler makes, or a read that raises, is not stated.
- LuaInterchange.LuaInputStream.Read: floating-point numbers, numeric strings other than plain decimal, and metatables; ReadPtr raises here on any value that WritePtr did not build, where the code may compare with a null pointer instead.
- The sized constructor of RedisCmdBuilder, which resizes instead of reserving.
- RedisMgr's drains of different connections at once: AsyncDrain is one connection.
- The assertions that abort a debug build: the model is the code with ASSERT doing nothing.
- Lua coroutines, garbage collection and stack overflow; a single Lua thread is assumed, and scripts do not rebind `call` or `__G__TRACKBACK__` during a run or change the tables WritePtr builds.
- Log, PrintLuaStack and ReplacePrint, which only print; ReadBlob and WriteBlob, which only assert.
- Connecting and authenticating, configuration, statistics and profiling of RedisMgr, and the roughly fifty command wrappers of RedisSyncCall.cpp and RedisAsyncCall.cpp.
- DBConnection, MysqlMgr and MysqlBase; the rest of the vendored headers; floating-point codecs; the aligned-word variant of skip_trailing_space.
