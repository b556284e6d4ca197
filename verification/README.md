# Verification of the sofa-bolt-cpp client

This project models the concurrent parts and the byte-level codecs of the sofa-bolt-cpp RPC client in Dafny and proves
what they promise. Everything is checked with `dafny verify dfyconfig.toml`.

Concurrent code is a state machine: any number of threads, one step per atomic operation, sequentially consistent. A
property of it is proved of every reachable state (`Runs.dfy` has the notion of a run and the induction over it). Code
that works in place on its own object is a class whose methods are proved against functions on values; the properties
of those functions are lemmas.

- **Life-cycle lock, session hand-off, reconnect, pool** (`LifeCycleLock`, `SessionHandOff`, `ChannelReconnect`,
  `PoolAccounting`). One word packs a share count and two flags. It decides which of reader and timer delivers a
  result, when a session may be freed, and which thread replaces a dead socket.
- **Timer thread** (`TimerModel`, `TimerTasks`, `TimerOrder`, `TimerWaiting`, `TimerCancel`, `TimerRuns`). Producers
  with their own queues, a heap, the active ids, and the nearest run time that producers lower.
- **Lock-free containers** (`SpmcQueue`, `ConcurrentInsertion`).
- **LRU cache** (`LruSpec`, `LruList`, `LruMap`, `LruCache`). Linked hash chains, a linked recency list and a 64-bit
  counter, updated together by one thread.
- **IOBuffer** (`IOBlocks`, `IOBuffer`, `DescriptorAppend`, `OutputStream`). Slice lists over shared blocks. The ghost
  field `mem` of the thread's block chain records the used bytes of every block. Each way to append is proved to only
  grow blocks at their ends (`Extends`), and `Isolation` turns that into: no other buffer's bytes change.
- **Bolt framing and headers** (`Framing`, `BoundedReads`, `BoltFraming`, `BoltReader`, `BoltHeaders`, `BoltCodec`).
  The reader loop is proved for any parse function that finds frames from the front; `checkHeader` is one. Frames end
  in the buffers of the sessions that wait for them.
- **HTTP body phase** (`HttpBody`, `HttpParser`, `HttpSplitting`, `HttpDecoding`). A byte-at-a-time reference, the
  parser with its bulk copies proved to refine it, when the way the input is cut shows, and what the reference decodes
  (sections 3.6.1 and 4.4 of RFC 2616).

Properties that are false of the code are kept as results: a failing input or run, and the exact condition.

| property | fails at | holds if and only if |
|---|---|---|
| However a stream arrives in reads of up to 4096 bytes, every frame is cut | `BoltFraming.ZeroIdStalls` | `BoltReader.StreamSurvivesReading`: for every j, fewer than j frames with request id 0, the last frame aside, have fewer than 4096 j bytes behind them |
| The same in reads of any size | `BoltFraming.ZeroIdStalls` | `BoltFraming.FramesSurviveChunking`: no frame but the last has request id 0 |
| A header section round trips | `BoltHeaders.AliasedList` | `BoltHeaders.RoundTrip`: no suffix encodes to a multiple of 65536 bytes |
| A body over 64 MiB is refused | `BoltFraming.WrappingIsAccepted` | `BoltFraming.RefusedUnlessWrapped`: its lengths do not wrap 32 bits |
| `BoltFraming.HeaderVerdict` | include/protocol/bolt/bolt_response.h:74-88 | For any fields, written one after the other in network order, and any bytes behind them: the verdict, with the id field and the sum of the three length fields in 32 bits |
| `BoltFraming.FoundIsFrame` | src/protocol/bolt/bolt_response.cpp:166-191 | What is found is a frame with the fields of its header, unless its lengths wrap |
| `Bytes.Get32IsNetwork` | src/protocol/bolt/bolt_response.cpp:13-20 | Four bytes are read most significant first, and writing that number gives them back |
| `Bytes.Get16IsNetwork` | src/protocol/bolt/bolt_response.cpp:13-20 | The same for two bytes |
| `Bytes.Put32IsNetwork` | src/protocol/bolt/bolt_protocol.cpp:85-90 | A number is written in four bytes, most significant first |
| Appending a buffer concatenates | `IOBuffer.ConsumedByteComesBack` | `IOBuffer.AppendBufferConcatenates`: every consumed slice is empty |
| The cache counter is the sum of sizes | `LruSpec.TwoLargeEntries` | `LruSpec.CounterIsRight`: twice the limit fits in 64 bits |
| Nothing touches a freed asynchronous session | `SessionHandOff.AsyncSenderMayBeLate`, `SessionHandOff.AsyncTimerMayBeLate` | `SessionHandOff.AsyncReclamation`: worker and timer are done when the scan frees it |
| The timer's wait ends in time | `TimerRuns.WaitMayEndLate` | `TimerWaiting.WaitEnds`: no time passes before the call of wait_for, or an hour from it is early enough |
| destroy settles every accepted task | `TimerRuns.DestroyMayLoseATask`, `TimerRuns.DestroyMayMissAContainer` | `TimerOrder.DestroySettlesAll`: when the task was pushed, destroy had not drained its container, nor fixed the end of its loop before it |
| The body does not depend on how the input is cut | `HttpSplitting.SingleCall` | `HttpSplitting.BodyIndependentOfCuts`: no byte but the first is a wrong delimiter after a chunk's data |

## Model

| member | source | states |
|---|---|---|
| `LifeCycleLock.StepCountInv` | include/common/life_cycle_lock.h:39-99 | Every atomic operation keeps: the word is four times the threads that hold or are backing out of a share, plus its two flags |
| `LifeCycleLock.StepOwnerInv` | include/common/life_cycle_lock.h:64-99 | Every atomic operation keeps: the exclusive flag is set exactly when one thread owns the lock, and then no thread shares |
| `LifeCycleLock.Exclusion` | include/common/life_cycle_lock.h:39-99 | For any number of threads and every run: the word equals its count and flags, an exclusive holder excludes sharers and other holders, and the flag says whether there is one |
| `LifeCycleLock.SharesWhenFree` | include/common/life_cycle_lock.h:39-47 | A share is granted exactly when the word is a multiple of four, that is without a flag |
| `LifeCycleLock.FlagKeepsOut` | include/common/life_cycle_lock.h:39-99 | From any flagged word on every step leaves the sharers or makes them fewer, and only the owner's release takes the last flag away |
| `SessionHandOff.StepDelivery` | src/tcp/socket.h:77-102 | Every step of worker, reader, timer and scan keeps: a flag is set exactly when one thread won, which has delivered or is about to |
| `SessionHandOff.NotifyKeepsBalance` | src/tcp/socket.h:77-102 | Each step of a synchronous notify changes the word by exactly the share and flag it takes, keeps or gives back |
| `SessionHandOff.ExactlyOnce` | src/tcp/socket.h:77-102 | In every interleaving at most one notify wins and delivers; once the timer is past its notify exactly one has won; the worker collects the one result delivered |
| `SessionHandOff.RightResult` | src/tcp/socket.cpp:276-284 | In every interleaving, synchronous or not: the reader delivers the response and the timer the timeout; before the timer callback starts only the response can have been delivered, and before the reader has the session only the timeout |
| `SessionHandOff.LateNotifyBacksOut` | src/tcp/socket.h:77-102 | A notify is let in exactly before the decision |
| `SessionHandOff.SenderSteps` | src/session/session.cpp:146-186 | The session is handed over or deleted, a timer task exists exactly if it was added, and only a failed write has it cancelled |
| `SessionHandOff.SafeReclamation` | src/tcp/socket.cpp:288-306 | The scan frees a synchronous session only after the last access of worker, timer and notifiers; afterwards no step on it is left |
| `SessionHandOff.CompleteReclamation` | src/session/session.cpp:146-195 | With the worker done and no notify in flight the word is exactly UPGRADED if and only if the timer callback is done, so the next scan frees the session |
| `SessionHandOff.AsyncNotifyBalance` | src/tcp/socket.h:77-102 | Each step of an asynchronous notify changes the word by exactly the share and flag it takes or gives back |
| `SessionHandOff.AsyncReclamation` | src/tcp/socket.cpp:288-306 | In every run: when a scan frees an asynchronous session, one result was delivered and exactly one of worker and timer gave the timer's share back; no step on the object is left if and only if worker and timer are both done |
| `SessionHandOff.CarefulIsSafe` | src/session/session.cpp:146-195 | In every run in which writes succeed and the timer fires only after the sender has left, no step is left on a freed session |
| `SessionHandOff.AsyncSenderMayBeLate` | src/session/session.cpp:190-195 | A run in which an asynchronous session is freed while its sender has still to look at it |
| `SessionHandOff.AsyncTimerMayBeLate` | src/session/session.cpp:179-186 | A run in which the write fails and the session is freed while the timer callback has still to release it |
| `ChannelReconnect.RefinesLock` | src/channel/channel.cpp:151-205 | Every step of getSocketInternal is one step of the lock or leaves the lock alone |
| `ChannelReconnect.SingleReconnect` | src/channel/channel.cpp:151-205 | While a thread replaces the socket no other thread is inside the guard, waits for the lock or replaces it too |
| `ChannelReconnect.WinnerGetsIn` | src/channel/channel.cpp:179-187 | The waiting winner sees UPGRADED plus the shares still counted, and its swap succeeds exactly when none is |
| `ChannelReconnect.SurrenderedOnce` | src/channel/channel.cpp:189-223 | Every socket created is the current one or has been surrendered, and none twice |
| `ChannelReconnect.LooksAtTheSocket` | src/channel/channel.cpp:151-170 | A thread that looks gets the channel's socket exactly if there is one and it is active |
| `ChannelReconnect.ServedSocketIsHeld` | src/channel/channel.cpp:151-205 | In every run the socket a thread got is the channel's and not surrendered, until the thread leaves the guard or releases the channel |
| `ChannelReconnect.ConnectReplaces` | src/channel/channel.cpp:194-223 | A successful connect gives the channel an active socket it never had, which the thread gets; a failed one leaves it without |
| `PoolAccounting.StepCounts` | src/channel/channel.cpp:225-311 | A step changes a count exactly as it changes whether its thread counts there |
| `PoolAccounting.SharedIsHolders` | src/channel/channel.cpp:225-311 | In every run of threads that acquire, fail over and exit, each count is the number of threads on that sub-channel and never below zero |
| `PoolAccounting.ServedThreadIsCounted` | src/channel/channel.cpp:236-300 | A thread whose last call succeeded is counted on its sub-channel and on no other |
| `PoolAccounting.AllExited` | src/channel/channel.cpp:26-34 | When all threads have exited every count is zero |
| `PoolAccounting.AlwaysEnabled` | src/channel/channel.cpp:225-311 | A thread that has not exited can always take its next step: no index leaves the pool |
| `PoolAccounting.ClaimsTheMostIdle` | src/channel/channel.cpp:253-287 | In any pool that nobody else changes meanwhile, a thread goes for the first active sub-channel, other than its own, with the least count, and for a random one only if none is active |
| `PoolAccounting.AttemptsDecide` | src/channel/channel.cpp:236-311 | A thread stays on its sub-channel while that gives sockets; when it fails the thread counts itself off, and after a failed attempt elsewhere it is on none |
| `PoolAccounting.MarksItsOwn` | src/channel/channel.cpp:242-308 | A failed attempt marks the sub-channel inactive, a successful one active, and no step marks another |
| `TimerTasks.StepTasks` | src/schedule/time_thread.cpp:97-297 | Every step of producers, timer and destroy keeps queued, active, cancelled and fired ids apart |
| `TimerTasks.Conservation` | src/schedule/time_thread.cpp:146-297 | Every accepted id is in exactly one of queued, active in heap or hand, cancelled, fired; it fires at most once and in the loop never before its deadline |
| `TimerOrder.FiresInOrder` | src/schedule/time_thread.cpp:272-297 | Within one pass of the loop tasks fire in order of their deadlines |
| `TimerOrder.DestroySettlesAll` | src/schedule/time_thread.cpp:97-139 | After destroy an accepted task has fired or was cancelled if and only if it was not pushed to a container that destroy had drained or that came after the end of its loop was fixed; none was, if no thread was inside scheduleAbs |
| `TimerRuns.DestroyMayLoseATask` | src/schedule/time_thread.cpp:109-127 | A run that ends destroy with an accepted task neither fired nor cancelled, pushed to a drained container |
| `TimerRuns.DestroyMayMissAContainer` | src/schedule/time_thread.cpp:333-356 | A run in which a thread that found _exit unset gets its container after destroy has started its loop: its task is neither fired nor cancelled |
| `TimerCancel.CancelledNeverFires` | src/schedule/time_thread.cpp:200-213 | In every run: once a cancel record is taken while its id is active, the task never fires in any later state |
| `TimerCancel.OnlyRecordsCancel` | src/schedule/time_thread.cpp:200-213 | No step counts an id as cancelled but one that takes its record while the id is active |
| `TimerCancel.SweepComesFirst` | src/schedule/time_thread.cpp:285-297 | In every run: a task for which any container has a cancel record when it is popped does not fire, whatever producers do meanwhile |
| `TimerCancel.TakesTheEarliest` | src/schedule/time_thread.cpp:272-288 | The task the loop takes is due, and none in heap or containers is earlier, but for tasks whose producers have still to compare them |
| `TimerCancel.NothingDueIsLeft` | src/schedule/time_thread.cpp:272-303 | When the loop stops for lack of due tasks none in the heap is due, and the next run time is the earliest of them |
| `TimerCancel.FiresIfActive` | src/schedule/time_thread.cpp:292-296 | The task in hand fires exactly if its id is still active |
| `TimerCancel.PassTakesWhatItCounted` | src/schedule/time_thread.cpp:241-270 | A pass goes on to the next container when it has taken the tasks and then the cancel records it counted, and fires after the last |
| `TimerCancel.DestroyEmptiesContainers` | src/schedule/time_thread.cpp:109-128 | destroy goes on to the next container when it has found no task and then no cancel record in this one |
| `TimerCancel.ContainersAreBounded` | src/schedule/time_thread.cpp:146-197 | In every run no container has more than 4096 tasks or records, and a push is refused by a full one only |
| `TimerWaiting.NeverOversleeps` | src/schedule/time_thread.cpp:146-331 | Whenever the timer is blocked, the run time it waits for is no later than the deadline of any pending task, unless that task's producer is still updating or the wait is being ended |
| `TimerWaiting.WaitEnds` | src/schedule/time_thread.cpp:314-331 | The wait ends after that run time by at most what passed between reading the clock and calling wait_for; it ends in time if and only if nothing passed or an hour from the call is early enough |
| `TimerRuns.WaitMayEndLate` | src/schedule/time_thread.cpp:314-331 | A run whose wait ends after the deadline of the only task |
| `TimerWaiting.NoLostWakeUp` | src/schedule/time_thread.cpp:299-331 | If the timer is blocked although its wait predicate holds, a notify has reached it or is about to |
| `SpmcQueue.FifoPrefix` | include/common/lockfree_queue.h:128-159 | With one producer and any number of consumers, the values popped, in order of their index swaps, are a prefix of those pushed |
| `SpmcQueue.CopyIsGenuine` | include/common/lockfree_queue.h:143-159 | The copy made before the swap is the element itself whenever the swap succeeds, and no unfilled slot is copied |
| `SpmcQueue.AnswersWereTrue` | include/common/lockfree_queue.h:128-159 | pop answers "empty" only at a load at which the queue is empty, every other return of pop has the oldest element, and "full" is answered only if the queue was full at an instant of the call |
| `SpmcQueue.LonePop` | include/common/lockfree_queue.h:143-159 | From every reachable state a pop that nothing interrupts takes the oldest element, or answers "empty" if there is none |
| `SpmcQueue.LonePush` | include/common/lockfree_queue.h:128-140 | From every reachable state a push that nothing interrupts adds its value unless the queue is full |
| `ConcurrentInsertion.Is3Succeeds` | include/common/intrusive_list.h:223-234 | The swap at IS3 finds what it expects the first time |
| `ConcurrentInsertion.ListIsSound` | include/common/intrusive_list.h:72-102 | In every interleaving of pushes, also of the same node, the forward chain is a simple path from header to tail and every edge has its back pointer or exactly one thread about to set it |
| `ConcurrentInsertion.StepsLinearize` | include/common/intrusive_list.h:179-235 | Each step leaves the chain alone or does what push_front or push_back does to a sequence; no thread is ever stuck |
| `ConcurrentInsertion.Quiescent` | include/common/intrusive_list.h:72-102 | When all calls have returned the list is doubly linked, holds exactly the nodes pushed, each once, and its size is right |
| `ConcurrentInsertion.LonePush` | include/common/intrusive_list.h:179-235 | From every state at rest a push puts its node at its end of the list, unless it is in the list already |
| `LruSpec.EvictStops` | include/common/lru_cache.h:168-191 | Eviction stops where the sizes dropped make up the wanted size for the first time, however often the remaining size wraps |
| `LruSpec.EvictMakesRoom` | include/common/lru_cache.h:168-191 | Eviction keeps the most recent entries, and the new entry then fits within the limit |
| `LruSpec.PutFine` | include/common/lru_cache.h:56-67 | put keeps the counter equal to the sum of sizes and within the limit if and only if adding the size to it does not overflow 64 bits |
| `LruSpec.PutOrder` | include/common/lru_cache.h:117-129 | In every state, also with a wrong counter, put places the entry in front and drops only a tail of the recency order, never the entry itself |
| `LruSpec.PutEvicts` | include/common/lru_cache.h:56-67 | While the counter is right: put drops nothing if the entry fits, nor if the sum wraps; otherwise exactly the shortest tail whose sizes make up the entry's, or everything |
| `LruSpec.OrderIsByLastUse` | include/common/lru_cache.h:36-99 | Over every run of put, get and erase the order is strictly by last use, the latest first |
| `LruSpec.CallsChangeOneEntry` | include/common/lru_cache.h:112-153 | In every such state get changes no entry, erase takes exactly the one with the key, put adds exactly its own, and a refused put changes nothing |
| `LruSpec.GetFine` | include/common/lru_cache.h:47-55 | get keeps the counter equal to the sum of sizes and within the limit |
| `LruSpec.EraseFine` | include/common/lru_cache.h:84-93 | erase keeps the counter equal to the sum of sizes and within the limit |
| `LruSpec.CounterIsRight` | include/common/lru_cache.h:36-99 | Over every run of put, get and erase the counter is the sum of sizes and within the limit, if and only if twice the limit fits in 64 bits |
| `LruSpec.TwoLargeEntries` | include/common/lru_cache.h:56-67 | Two entries of the limit's size make the counter wrong when twice the limit does not fit |
| `LruList.RecencyList.PushFront` | include/common/intrusive_list.h:72-86 | The entry comes first in the list, which stays doubly linked; an entry that is in a list is left alone |
| `LruList.RecencyList.Remove` | include/common/intrusive_list.h:112-127 | Exactly that entry leaves the list, which stays doubly linked; false for an entry in no list |
| `LruList.RecencyList.PopBack` | include/common/intrusive_list.h:149-167 | The last entry leaves the list; null exactly for the empty list |
| `LruMap.HashMap.Put` | include/common/concurrent_hash_map.h:214-225 | The entry joins the chain of its bucket exactly when its key is not there; all chains stay exact |
| `LruMap.HashMap.Erase` | include/common/concurrent_hash_map.h:283-315 | Exactly the entry with the key leaves its chain; all chains stay exact |
| `LruMap.HashMap.Get` | include/common/concurrent_hash_map.h:270-281 | The entry with the key, or none |
| `LruCache.LRUCache.Put` | include/common/lru_cache.h:117-129 | For every hash function: chains and recency list hold the same entries again, and order and counter are those of the specification |
| `LruCache.LRUCache.Get` | include/common/lru_cache.h:112-115 | The value of the entry, which moves to the front; chains and list still agree; hits and queries are counted |
| `LruCache.LRUCache.Erase` | include/common/lru_cache.h:151-153 | The entry leaves chain and list and the counter; chains and list still agree |
| `LruCache.LRUCache.ReleaseNodes` | include/common/lru_cache.h:168-191 | Entries leave list and chains from the back as the specification says, never the entry being put, and no lock is taken that is held |
| `IOBlocks.Isolation` | src/common/io_buffer.cpp:35-41 | While blocks only grow at their ends, every slice stays inside its block's used bytes and every slice list keeps its bytes |
| `IOBlocks.Arena.ShareBlock` | src/common/io_buffer.cpp:55-74 | A block with room at the head of the chain, which holds at most one block; used bytes of all blocks unchanged |
| `IOBlocks.Arena.AcquireBlock` | src/common/io_buffer.cpp:84-100 | A block with room that is in no chain any more; the chain is empty afterwards |
| `IOBlocks.Arena.ReleaseBlock` | src/common/io_buffer.cpp:76-82 | A block with room becomes the only block of the chain; a full block is dropped |
| `IOBuffer.IOBuffer.Length` | src/common/io_buffer.h:98-104 | The number of bytes the buffer stands for |
| `IOBuffer.IOBuffer.Compact` | src/common/io_buffer.cpp:459-476 | Moving the live slices to the front in place leaves the bytes unchanged |
| `IOBuffer.IOBuffer.PopFront` | src/common/io_buffer.cpp:154-177 | Removes exactly the first min(n, length) bytes and reports that count |
| `IOBuffer.IOBuffer.PopBack` | src/common/io_buffer.cpp:179-199 | Removes exactly the last min(n, length) bytes and reports that count |
| `IOBuffer.IOBuffer.CutBuffer` | src/common/io_buffer.cpp:325-352 | Moves exactly the first min(n, length) bytes to the end of the other buffer |
| `IOBuffer.IOBuffer.CutString` | src/common/io_buffer.cpp:354-363 | Moves exactly the first min(n, length) bytes to the end of the string |
| `IOBuffer.IOBuffer.CutArray` | src/common/io_buffer.cpp:365-394 | Moves exactly the first min(n, length) bytes to the caller's memory and touches no more of it |
| `IOBuffer.IOBuffer.CopyTo` | src/common/io_buffer.cpp:420-444 | Copies exactly the first min(n, length) bytes and changes nothing else |
| `IOBuffer.IOBuffer.Append` | src/common/io_buffer.cpp:237-269 | The buffer's bytes are the old ones and the new ones, every slice is in range, and blocks only grew at their ends |
| `IOBuffer.IOBuffer.AppendChar` | src/common/io_buffer.cpp:214-235 | The same for one character |
| `IOBuffer.IOBuffer.AppendBuffer` | src/common/io_buffer.cpp:201-212 | The buffer gains all slices of the other, consumed ones included |
| `IOBuffer.ConsumedByteComesBack` | src/common/io_buffer.cpp:201-212 | A byte appended and popped comes back when its buffer, of no bytes, is appended to another |
| `IOBuffer.AppendBufferConcatenates` | src/common/io_buffer.cpp:201-212 | That is concatenation if and only if every consumed slice of the other buffer is empty |
| `DescriptorAppend.AcquireVector` | src/common/io_buffer.cpp:275-301 | The vector covers the free space of linked, distinct blocks in order, for at most maxSize bytes in at most 64 blocks; the chain is empty |
| `DescriptorAppend.PublishAll` | src/common/io_buffer.cpp:303-315 | The second loop, which looks at free space and follows links, refers to exactly the bytes read in order and meets no null block |
| `DescriptorAppend.Release` | src/common/io_buffer.cpp:317-320 | The release loop ends after at most one round and the chain holds at most one block |
| `DescriptorAppend.AppendFromDescriptor` | src/common/io_buffer.cpp:275-323 | Appends exactly the bytes read, as many as the descriptor has up to maxSize and 64 blocks, leaves all other buffers' bytes alone, and keeps the chain to one block |
| `OutputStream.OutputStream.Next` | src/common/io_buffer.cpp:593-604 | All free space of the shared block becomes the buffer's last slice |
| `OutputStream.OutputStream.BackUp` | src/common/io_buffer.cpp:606-625 | For any count the loop leaves the slices, used bytes and byte count of giving back slice by slice, unless a block has fewer bytes than are taken from it |
| `OutputStream.BackDropsLast` | src/common/io_buffer.cpp:606-625 | After any calls of Next, giving back up to all they handed out drops exactly the last bytes, and no byte from before them in any buffer |
| `OutputStream.NextStacks` | src/common/io_buffer.cpp:593-604 | Next keeps the slices handed out stacked: undone from the last on, each ends its block |
| `OutputStream.OutputStream.WriteSome` | src/common/io_buffer.cpp:593-625 | Next, a write and a BackUp within the size append what was written and change no byte of any other buffer |
| `Framing.CutExtend` | src/tcp/socket.cpp:206-216 | Cutting bytes in two goes is cutting them at once: what the first go leaves is what the second starts from |
| `Framing.DrainIsCut` | src/tcp/socket.cpp:206-216 | The inner loop cuts every frame there is if and only if no frame but the last has id 0, and none if bad bytes follow |
| `Framing.ChunkingDoesNotMatter` | src/tcp/socket.cpp:177-216 | For any such protocol and any bytes: every split into reads yields all frames and the same rest if and only if the ids let it |
| `BoundedReads.DrainPart` | src/tcp/socket.cpp:206-216 | The inner loop over the first part of any bytes cuts a front of their frames, and ends because nothing more is complete or behind exactly one frame with id 0 |
| `BoundedReads.CountIsCardinality` | src/tcp/socket.cpp:206-216 | The frames that stall the loop, counted from the front, are as many as the set of their positions has |
| `BoundedReads.FeedAllPaced` | src/tcp/socket.cpp:177-216 | Whatever was read before: while fewer frames stall the loop than reads remain, or nothing complete is unread, the remaining reads cut everything |
| `BoundedReads.BoundedChunking` | src/tcp/socket.cpp:170-216 | For any such protocol, any bytes and any bound on a read: every split within the bound yields all frames and the same rest, if and only if for every j fewer than j stalling frames have fewer than j bounds of bytes behind them |
| `Framing.BytesConserved` | src/tcp/socket.cpp:177-216 | Whatever the ids, frames cut and bytes left are what was read, all of it while the socket is fine |
| `BoltFraming.RefusedUnlessWrapped` | src/protocol/bolt/bolt_response.cpp:180-188 | A body over 64 MiB is refused if and only if the sum of its lengths does not wrap 32 bits |
| `BoltFraming.WrappingIsAccepted` | src/protocol/bolt/bolt_response.cpp:180-188 | A header whose lengths add up to exactly 4 GiB is taken for a whole frame of 20 bytes |
| `BoltFraming.CheckHeaderIsProper` | src/protocol/bolt/bolt_response.cpp:166-191 | A frame found lies inside the bytes and is found as soon as it is complete, and no verdict but "not enough" changes when more bytes arrive |
| `BoltFraming.StreamIsCut` | src/protocol/bolt/bolt_response.cpp:166-191 | A stream of frames, each a header with fields in network order and the body they announce, followed by part of another is cut back into those frames and that part |
| `BoltFraming.FramesSurviveChunking` | src/tcp/socket.cpp:177-216 | For every stream of Bolt frames, every split into reads of any size yields exactly these frames in order and leaves the rest, if and only if no frame but the last has request id 0 |
| `BoltFraming.FramesSurviveReads` | src/tcp/socket.cpp:170-216 | The same for reads of at most a given size, with its exact condition on where the frames with request id 0 are |
| `BoltFraming.ZeroBeforeLargeFrame` | src/tcp/socket.cpp:170-216 | Request id 0 before a frame as large as a read meets that condition |
| `BoltFraming.ZeroIdStalls` | src/tcp/socket.cpp:206-216 | Two frames with id 0 in one read: the second stays unread |
| `BoltReader.BoltReader.Check` | src/protocol/bolt/bolt_response.cpp:166-191 | checkHeader over the slices of the buffer gives the verdict on its bytes |
| `BoltReader.BoltReader.CutIntoMessage` | src/tcp/socket.cpp:224-286 | One step of the reader on values; the frame's bytes go to the end of the waiting session's own buffer, or nowhere, and no other session's buffer changes |
| `BoltReader.BoltReader.InnerLoop` | src/tcp/socket.cpp:206-213 | The loop over the buffer does what draining does to its bytes |
| `BoltReader.BoltReader.OnRead` | src/tcp/socket.cpp:170-222 | Reads until nothing is left, the stream ends, or an error; the read side is that of the events on values |
| `BoltReader.SessionsGetTheirFrames` | src/tcp/socket.cpp:262-284 | After any frames each session's buffer holds what it held and then the bytes of the frames with its request id, in order |
| `BoltReader.EventsFeedChunks` | src/tcp/socket.cpp:177-216 | Whatever happens on the descriptor, frames cut and bytes left are those of feeding the chunks read |
| `BoltReader.StaysOpen` | src/tcp/socket.cpp:170-222 | The read side stays open exactly if no bad bytes, no failed read and no end of the stream come before there is nothing more to read |
| `BoltReader.StreamSurvivesReading` | src/tcp/socket.cpp:170-222 | Whatever the descriptor does while it gives a stream of Bolt frames, exactly these frames are cut and the rest is kept, if and only if the frames with request id 0 are paced for reads of 4096 bytes |
| `BoltHeaders.RoundTrip` | src/protocol/bolt/bolt_response.cpp:94-136 | Decoding an encoded list given its 16-bit length yields the first value per key and consumes exactly the encoding, if and only if no suffix of the list encodes to a multiple of 65536 bytes |
| `BoltHeaders.PairOnTheWire` | src/protocol/bolt/bolt_protocol.cpp:79-93 | Key and value, in this order, each behind its length in network order |
| `BoltHeaders.ListOnTheWire` | src/protocol/bolt/bolt_protocol.cpp:110-130 | The pairs of a list follow each other |
| `BoltHeaders.AliasedList` | src/protocol/bolt/bolt_response.cpp:94-136 | A pair that encodes to 65536 bytes: nothing of it is decoded |
| `BoltHeaders.ShortListsDoNotAlias` | src/protocol/bolt/bolt_response.cpp:94-136 | That condition holds for every list that encodes to fewer than 65536 bytes |
| `BoltHeaders.FirstValuesMeaning` | src/protocol/bolt/bolt_response.cpp:135-135 | The map holds the first value of each key in the list and nothing else |
| `BoltHeaders.AlikeLoop` | src/protocol/bolt/bolt_response.cpp:94-136 | Decoding cannot tell counts apart that the 16-bit counter cannot |
| `BoltCodec.AppendHeaderKV` | src/protocol/bolt/bolt_protocol.cpp:79-93 | Appends the encoding of the pair and returns its size in 32 bits |
| `BoltCodec.DecodeHeaders` | src/protocol/bolt/bolt_response.cpp:94-136 | On arbitrary bytes the loop ends, and its result, map and leftover are those of decoding the bytes |
| `HttpBody.AssertsHold` | src/protocol/http/http_parser.c:1839-1996 | In every reachable body state the asserts on content_length and nread hold |
| `HttpParser.HttpParser.Execute` | src/protocol/http/http_parser.c:632-2046 | One call leaves the fields that single bytes would, stops at the first wrong byte, and hands over the same body except at a wrong chunk delimiter, where exactly the chunk bytes of that call are missing |
| `HttpParser.SplitIndependence` | src/protocol/http/http_parser.c:1791-2038 | For every cut into non-empty pieces the final state is the same, and so is the body unless the parser stopped at a wrong chunk delimiter |
| `HttpSplitting.SingleCall` | src/protocol/http/http_parser.c:1993-1999 | One call that meets a wrong delimiter after a chunk's data loses exactly that chunk's bytes of this call, at least one unless the delimiter comes first |
| `HttpSplitting.BodyIndependentOfCuts` | src/protocol/http/http_parser.c:1993-2038 | Every cut of the input into non-empty pieces hands over the body single bytes do, if and only if no byte but possibly the first is a wrong delimiter after a chunk's data |
| `HttpDecoding.ParseContentLength` | src/protocol/http/http_parser.c:1498-1537 | The decimal value of the digits if and only if the field is digits, then spaces, and passes the guard; then it fits 64 bits and is not the sentinel |
| `HttpDecoding.ChunkSizeDigits` | src/protocol/http/http_parser.c:1889-1940 | Hexadecimal digits accumulate to their value if and only if it is below the guard's limit, else to an error; an accepted size is not the sentinel |
| `HttpDecoding.UnhexIsDigit` | src/protocol/http/http_parser.c:220-236 | The table gives each byte its position in "0123456789abcdef" or "0123456789ABCDEF", and -1 to every other |
| `HttpDecoding.NumIsDigit` | src/protocol/http/http_parser.c:412-412 | The test for a decimal digit holds of exactly the ten digits, whose distance from '0' is their value |
| `HttpDecoding.IdentityBody` | src/protocol/http/http_parser.c:1837-1871 | With Content-Length n the first n bytes are the body, whatever they are, and the message completes with the n-th |
| `HttpDecoding.EmptyIdentityBody` | src/protocol/http/http_parser.c:1808-1834 | With Content-Length 0 the message completes with its header |
| `HttpDecoding.EofBody` | src/protocol/http/http_parser.c:1823-1887 | A response without length and chunks: all bytes to the end of the connection are the body, and the message completes then and not before |
| `HttpDecoding.NoBody` | src/protocol/http/http_parser.c:1817-1834 | Without length and chunks a request, and a response with status 1xx, 204 or 304, completes with its header |
| `HttpDecoding.SkippedBody` | src/protocol/http/http_parser.c:1808-1811 | The answer to a HEAD request completes with its header whatever that says |
| `HttpDecoding.EofElsewhere` | src/protocol/http/http_parser.c:648-672 | The end of the connection is an error in the middle of a message and changes nothing after one |
| `HttpDecoding.WhatFollows` | src/protocol/http/http_parser.c:2073-2089 | After a message whose end its header tells, another may follow in HTTP/1.1 unless it says close, in HTTP/1.0 only if it says keep-alive |
| `HttpDecoding.DeadTakesLineEnds` | src/protocol/http/http_parser.c:709-718 | Otherwise only line ends are let pass |
| `HttpDecoding.WrongBytesRefused` | src/protocol/http/http_parser.c:1722-2007 | Which bytes are refused in which state, and with which error |
| `HttpDecoding.HeadersAreBounded` | src/protocol/http/http_parser.c:150-157 | Size lines and trailers are counted, and more than 80 KiB in a row are refused |
| `HttpDecoding.BareLineFeed` | src/protocol/http/http_parser.c:1180-1195 | An empty trailer may end with a bare line feed |
| `HttpDecoding.ChunkedBody` | src/protocol/http/http_parser.c:1808-2007 | After the header any chunks, in any spelling of their sizes and with any extensions, leave exactly the concatenated data and complete the message once |
| `HttpDecoding.BrokenDelimiter` | src/protocol/http/http_parser.c:1993-1999 | At a wrong chunk delimiter a single call hands over nothing of the chunk, single bytes all of it |

## Left out

- Sockets, epoll and kqueue loops, clocks, logging: reads arrive as arbitrary bytes, the clock is any monotone input.
- Weak memory orders: all state machines are sequentially consistent.
- Widths that would need more threads or operations than fit in memory: the lock word has no bound on its count (the program has 29 bits for it), queue indices, task ids and socket numbers are unbounded.
- Allocation failure: blocks and nodes are always allocated.
- The single-producer queues inside the timer are sequences with atomic push and pop; several-producer queues are not modelled.
- SpmcQueue.FifoPrefix: slots are the index modulo any positive capacity, where the program masks with a power of two.
- IntrusiveList removal interleaved with other operations: removal is modelled only for one thread, in the cache.
- LruCache.LRUCache.Put: one thread at a time; bucket locks are the set of buckets this thread holds, keys and values are integers, and `exchange` is not modelled.
- LruCache.LRUCache.Erase: the program reads the size of the entry after deleting it; the model reads the size.
- OutputStream.OutputStream.BackUp: the program reads the slice after popping it, the model before; a block size that would go below zero is not modelled.
- IOBuffer.IOBuffer.CutBuffer: the two buffers differ; blocks of other threads are not distinguished, one thread's blocks are modelled.
- IOBuffer copy, move, swap, dump, the input stream and writing to a descriptor.
- BoltReader.BoltReader.CutIntoMessage: moving queued sessions to the session map and the notify that follows the cut are not part of it.
- BoltReader.BoltReader.OnRead: which sessions wait, and under which request ids, is fixed for the reader's life; the queue that feeds the session map and the notify are modelled apart from it, in SessionHandOff.
- TimerOrder.DestroySettlesAll: destroy deletes the containers it has drained; the model keeps them, so that a push behind the drain, which would write to a deleted container, shows as a task lost. A container made while destroy runs may move the list destroy goes through, and its maker may look at deleted entries of that list: neither is modelled.
- unschedule after `_exit` is set uses the null container it is given; in the model such a call is not made.
- BoltCodec.AppendHeaderKV: strings of 4 GiB or more, whose size the caller truncates, are not modelled.
- The fixed header and the payload of requests and responses, protobuf, C-string payloads.
- HttpParser.HttpParser.Execute: starts at the end of the header; upgrades, trailer fields, a following message and callbacks that return an error are not modelled, and the strict checks are on.
- HttpDecoding.ParseContentLength: the value has at least one byte; an empty one never reaches these states.
- PoolAccounting.SharedIsHolders: the count a scan starts from is "none" instead of the largest 64-bit number.
- HTTP request lines, URLs and headers, ThreadPool, SocketManager, URI and string utilities.
