# Per-process mailboxes for Xinu, verified in Dafny

This project models the message-passing layer that `main.c` adds to Xinu.
Each of ten processes owns a bounded mailbox, which is one row of the global
`messageBuffer` plus that row's head and tail in `queuePointer`. `sendMsg`
delivers one 32-bit message to a process and wakes it if it was waiting to
receive. `sendMsgs` and `sendnMsg` send a batch to one process, or one
message to many processes, and count the deliveries. `receiveMsg` and
`receiveMsgs` let a process take messages from its own mailbox in FIFO order.

The model has three modules:

- `Ring` (ring.dfy) treats one mailbox as a value.
  - `Insert` and `Take` are `insertItem` and `getItem`.
  - `Count` and `Contents` give the abstract view: the queued messages, oldest first.
  - `Coherent` is the condition under which that view is exact. Every queued slot is non-zero and every other slot is zero. It holds as long as every payload is non-zero, because the source uses 0 to mark an empty slot, and as long as getItem is never applied to an empty mailbox. `receiveMsg` does that when it resumes after a wake that brought no message (`Ring.TakeFromEmptyMiscounts`).
  - The module also holds the source's `SIZE` macro and its `head == tail` empty test, with lemmas showing where each one goes wrong.
- `Protocol` (protocol.dfy) treats the whole table of ten mailboxes and the process states as a value.
  - Each syscall is one function of the table.
  - The lemmas say what each function does to the queues: FIFO order, the capacity of 8, the error cases, fan-out accounting, and that nothing else changes.
- `Kernel` (kernel.dfy) is the imperative layer.
  - Class `MessageSystem` holds `messageBuffer` and `queuePointer` as `array2`s and the `prstate` of each process-table entry as an `array`.
  - Its methods update these arrays in place, as the C functions do. `Snapshot()` reads the arrays back as a `Protocol.Table`.
  - Each method is proved to leave `Snapshot()` equal to the matching `Protocol` function applied to the state before the call.
  - The loops in `sendMsgs`, `sendnMsg` and `receiveMsgs` are `for` loops with invariants that tie the state after `i` steps to that function applied to the first `i` inputs.

`sendMsg`, `receiveMsg` and `receiveMsgs` run with interrupts disabled, and
the model treats each of them as one atomic step. `sendMsgs` and `sendnMsg`
disable nothing themselves. The model runs each batch with no other process
between its sends (see "Left out"). The scheduler calls `ready()` and
`unsleep()`+`ready()` are modelled only by their effect: the recipient's
state becomes `PrReady`. `isbadpid` is modelled as "pid outside 0..9", since
the tables have ten rows. The calling process (`getpid()`/`currpid`) is a
parameter, `self`.

Three properties of the code shape the model:

- The code keeps no occupancy count, and uses 0 as the empty-slot marker. The model keeps the marker, and proves FIFO and capacity for non-zero payloads only.
- The code has two capacities: rows of 10 slots (`QUEUE_SIZE`, also used by `SIZE`; the `msg_count > 10` guard uses the literal 10, equal to `QUEUE_SIZE`) and a ring of 8, set by the `% 8` wrap. In the model, `Ring.Capacity` is 8 and `Ring.QueueSize` is 10, each used where the code uses it.
- `receiveMsg` does not re-check after a wake. After one wake it calls `getItem` directly, whatever the mailbox then holds.

## Model

| member | source | states |
|---|---|---|
| `Ring.Insert` | main.c:104-109 | after insertItem, head and tail are still in 0..7, and slots 8 and 9 of the row are untouched |
| `Ring.Take` | main.c:111-118 | after getItem, head and tail are still in 0..7, and slots 8 and 9 of the row are untouched |
| `Ring.EmptyIsCoherent` | main.c:22-23 | the all-zero initial row is coherent and holds no messages |
| `Ring.CapacityBound` | main.c:104-118 | a coherent mailbox holds at most 8 messages, all non-zero |
| `Ring.FullCheckExact` | main.c:143-148 | on a coherent mailbox, sendMsg's full check (tail slot non-zero) holds exactly when 8 messages are queued, in both directions |
| `Ring.InsertAppends` | main.c:104-109 | insertItem of a non-zero message after a passed full check appends the message to the queue and keeps the mailbox coherent |
| `Ring.TakePops` | main.c:111-118 | getItem on a non-empty coherent mailbox returns the oldest message, keeps the rest in order and keeps the mailbox coherent |
| `Ring.SourceEmptyTest` | main.c:183 | on a well-formed row, the source's empty test head == tail holds exactly when the row is empty or full |
| `Ring.EmptyTestExact` | main.c:183-188 | the corrected empty test (head == tail and head slot zero) holds exactly when nothing is queued |
| `Ring.FullRingReadsEmpty` | main.c:183-187 | for every coherent mailbox holding 8 messages, the source's test head == tail reports "empty", the full check rejects every send, and SIZE reads 0 |
| `Ring.SourceEmptyTestMisreadsFull` | main.c:183-187 | a concrete full ring, `[1..8]` at head 0, that is coherent, holds 8 messages and satisfies the source's empty test |
| `Ring.SizeMacroVersusCount` | main.c:20 | SIZE equals the true occupancy when head < tail, is 2 too high when head > tail, and is 0 when head == tail, whether the ring is empty or full |
| `Ring.SizeMacroOvercounts` | main.c:20 | a concrete wrapped ring with 6 messages queued, for which SIZE is 8 |
| `Ring.SizeMacroAdmitsNineWithSeven` | main.c:268 | when head is one past tail, 7 messages are queued and SIZE reads 9, so a request for 9 passes the wait on SIZE |
| `Ring.SizeMacro` | main.c:20 | SIZE in the source's uint32 arithmetic is always below 10, so a request for 10 can never leave the wait on SIZE at main.c:268 |
| `Ring.TakeFromEmptyMiscounts` | main.c:111-118 | getItem on an empty row returns 0 and leaves a row that reads as holding 7 messages, which is not coherent |
| `Ring.ZeroInTailOverwritten` | main.c:143-151 | for every row with head == tail and a 0 in the tail slot, the full check passes and the insert overwrites that slot, leaving a ring that reads as holding only the new message |
| `Ring.ZeroPayloadOverwritten` | main.c:143-151 | a concrete ring, `[0, 1, ..., 7]` at head 0, for which sending 8 passes the full check and leaves a ring that reads as holding only 8 |
| `Ring.ZeroThenSevenFill` | main.c:104-109 | sending 0, 1, ..., 7 to an empty row leaves the queued 0 in the tail slot, with head == tail |
| `Protocol.Initial` | main.c:22-23 | the initial table is valid, and every process's queue is empty |
| `Protocol.Send` | main.c:124-165 | a SYSERR result leaves every buffer, head, tail and process state unchanged |
| `Protocol.SendAppends` | main.c:124-165 | with a non-zero message, sendMsg returns OK exactly when the pid is good, the process is not free and its mailbox is not full; on OK, the message is appended to that mailbox alone, and only that process changes state, to ready, and only if it was in PR_RECV or PR_RECTIM |
| `Protocol.FullMailboxRejects` | main.c:143-148 | once 8 messages are buffered, the next send returns SYSERR and changes nothing |
| `Protocol.SendBatch` | main.c:198-217 | sendMsgs never counts more OK sends than there are messages |
| `Protocol.SendBatchFills` | main.c:198-217 | sendMsgs of non-zero messages to a live process delivers the first min(n, 8 - queued) messages in order and drops the rest; the success count is that number; only the target's mailbox and state change |
| `Protocol.SendBatchKeepsValid` | main.c:198-217 | sendMsgs of non-zero messages keeps every mailbox coherent, for any pid |
| `Protocol.SendBatchToDeadFails` | main.c:203-216 | sendMsgs to a bad pid or a free process delivers nothing, and the batch returns SYSERR |
| `Protocol.SendFanOut` | main.c:224-243 | sendnMsg never counts more OK sends than there are pids |
| `Protocol.FanOutAccounting` | main.c:224-243 | sendnMsg to distinct pids succeeds for exactly the pids that were live and not full; a failure does not stop later sends; the message is appended to exactly those mailboxes, and every other process is untouched |
| `Protocol.FanOutKeepsValid` | main.c:224-243 | sendnMsg of a non-zero message keeps every mailbox coherent, for any sequence of pids, repeated ones included |
| `Protocol.BatchReturn` | main.c:210-216 | the batch result is never 0, and, for a count below 0xFFFFFFFF, it is SYSERR exactly when no send succeeded |
| `Protocol.ReceiveOne` | main.c:188 | getItem on the caller's mailbox changes no process state and no other process's mailbox |
| `Protocol.ReceiveBatch` | main.c:260-261 | receiveMsgs returns SYSERR exactly when msg_count > 10, and then changes nothing |
| `Protocol.TakeN` | main.c:275-279 | the dequeue loop returns exactly msg_count messages |
| `Protocol.TakeNOldestFirst` | main.c:275-279 | n getItem calls on a coherent mailbox holding at least n messages return the n oldest in order and leave the rest queued |
| `Protocol.ReceiveOneTakesOldest` | main.c:183-188 | receiveMsg with a message present returns the oldest one and removes only it, and no other mailbox or state changes; the source gets there without waiting exactly when fewer than 8 are queued |
| `Protocol.ReceiveBatchTakesOldest` | main.c:250-285 | once its dequeue loop runs, receiveMsgs of n <= queued messages returns OK and the n oldest in FIFO order, and removes exactly those, and no other mailbox or state changes; the source reaches that loop without waiting exactly when 0 < queued < 8, and then no receiveMsg inside the loop waits; with 8 queued it never reaches it (`Ring.FullRingReadsEmpty`) |
| `Protocol.SourceWaitsPassed` | main.c:262-272 | given n <= queued, receiveMsgs enters neither wait (head != tail and SIZE >= n) exactly when 0 < queued < 8 |
| `Protocol.DequeueLoopNeverBlocks` | main.c:276-279 | with n <= queued < 8, none of the loop's n receiveMsg calls finds head == tail |
| `Protocol.RequestBeyondCapacityNeverQueued` | main.c:260-272 | a request for 9 or 10 messages passes the size guard, but no coherent mailbox ever holds that many at once |
| `Protocol.SendThenReceiveInOrder` | main.c:104-118 | up to 8 non-zero messages sent to an empty mailbox all succeed, and once the dequeue loop runs they are received in send order, leaving the mailbox empty; receiveMsgs reaches that loop without waiting exactly when 1 to 7 were sent |
| `Kernel.MessageSystem.constructor` | main.c:22-23 | every row, head and tail starts at zero; the resulting state is the initial table |
| `Kernel.MessageSystem.InsertItem` | main.c:104-109 | only the old tail slot of pid's row and that row's tail change, as `Ring.Insert` says |
| `Kernel.MessageSystem.GetItem` | main.c:111-118 | only the old head slot of pid's row and that row's head change, as `Ring.Take` says; the slot's old value is returned |
| `Kernel.MessageSystem.SendMsg` | main.c:124-165 | the result and the new state are those of `Protocol.Send`; with a non-zero message, a valid state stays valid |
| `Kernel.MessageSystem.SendMsgs` | main.c:198-217 | the count (or SYSERR) and the new state are those of `Protocol.SendBatch`; with non-zero messages, a valid state stays valid |
| `Kernel.MessageSystem.SendnMsg` | main.c:224-243 | the count (or SYSERR) and the new state are those of `Protocol.SendFanOut`; with a non-zero message, a valid state stays valid |
| `Kernel.MessageSystem.ReceiveMsg` | main.c:172-192 | in any state, including one with a queued 0, the message returned from the getItem call and the new state are those of `Protocol.ReceiveOne` |
| `Kernel.MessageSystem.ReceiveMsgs` | main.c:250-285 | in any state, an oversized request returns SYSERR and touches nothing. Otherwise msgs[0..msg_count) is filled as `Protocol.ReceiveBatch` says, the rest of msgs is unchanged, and the new state is that of `Protocol.ReceiveBatch` |

## Findings

| source | as written | input that shows it | evidently intended | confidence | as-written member | corrected member |
|---|---|---|---|---|---|---|
| main.c:20 | `SIZE` is `(QUEUE_SIZE - (head - tail)) % QUEUE_SIZE` in uint32 arithmetic, with modulus 10 over a ring of 8 | head 5, tail 3 (six messages queued) gives SIZE 8; head == tail with eight queued gives SIZE 0, so receiveMsgs waits at line 265 (and at line 268 if woken) forever | the number of queued messages | not executed | `Ring.SizeMacroOvercounts` (general case: `Ring.SizeMacroVersusCount`) | `Ring.Count`, which `Ring.InsertAppends` and `Ring.TakePops` show grows by one per accepted send and shrinks by one per getItem |
| main.c:183 | the empty test is `QUEUE_HEAD == QUEUE_TAIL` (also at line 262) | mailbox `[1..8]` with head == tail == 0 (full): the test says "empty", so receiveMsg blocks, and every send fails the full check, so no send wakes it | "empty" only when nothing is queued | not executed | `Ring.FullRingReadsEmpty` (concrete witness: `Ring.SourceEmptyTestMisreadsFull`) | `Ring.IsEmpty`, which holds exactly when `Contents` is empty (`Ring.EmptyTestExact`); `Contents` tracks the queue by `Ring.EmptyIsCoherent`, `Ring.InsertAppends` and `Ring.TakePops`; the receive lemmas `Protocol.ReceiveOneTakesOldest` and `Protocol.ReceiveBatchTakesOldest` state their conditions in this view, through `Queue` |

## Left out

- `main`, `messageSender`, `singleMessageReceiver` and `multipleMessageReceiver` (main.c:27-102) are left out. They are test drivers that create processes and loop forever.
- The `kprintf` output is left out. It is diagnostics only.
- `disable()`/`restore()` are left out. sendMsg, receiveMsg and receiveMsgs are each one atomic step, and interrupt state is not modelled. This includes the missing `restore` on the early SYSERR return of receiveMsgs (main.c:260-261).
- Blocking is not modelled: `resched()`, the ready list, sleep queues and timeouts. `ready()` and `unsleep()` appear only as the state change to `PrReady`. The `PR_RECV` assignment made before a receiver blocks is part of the wait, and is left out with it.
- Kernel.MessageSystem.ReceiveMsg: models the call from getItem on. When head == tail the source first blocks (main.c:183-187). The method is then the getItem applied to the state at the wake, without a re-check, as in the source. The FIFO meaning of its result, for a valid state with a message queued, is stated by `Protocol.ReceiveOneTakesOldest` and not in its own ensures.
- Kernel.MessageSystem.ReceiveMsgs: models the run from the end of the waits at main.c:262-272, with no other process running between its msg_count receiveMsg calls. In the source, an inner receiveMsg can block on head == tail and resume after other processes' sends; such interleaved runs are not covered. With 8 messages queued, the source never gets past the waits (`Ring.FullRingReadsEmpty`). The FIFO meaning, and that a valid state stays valid, hold when at least msg_count messages are queued; both are stated by `Protocol.ReceiveBatchTakesOldest` and not in the method's own ensures.
- Protocol.ReceiveBatchTakesOldest, Protocol.SendThenReceiveInOrder: the messages and table they state are those the dequeue loop produces once it runs. Their own ensures say when the source reaches it without waiting: 0 < queued < 8. With 8 queued the source never reaches it (`Ring.FullRingReadsEmpty`). With none queued it waits at main.c:265 for a send, and the model does not interleave that send; for a request of 0 the model then returns OK with no messages where the source first waits.
- Protocol.RequestBeyondCapacityNeverQueued: states only that 9 or 10 messages are never queued at once. The source can still complete a request for 9: with 7 queued, SIZE reads 9 (`Ring.SizeMacroAdmitsNineWithSeven`), the loop takes 7, and the inner receiveMsg waits for each of the last two. That needs sends between the calls, which the model does not interleave. A request for 10 can never complete in the source: SIZE is always below 10 (`Ring.SizeMacro`), so the wait at main.c:268 never ends.
- Protocol.SendBatch, Protocol.SendBatchFills, Protocol.SendFanOut, Protocol.FanOutAccounting, Kernel.MessageSystem.SendMsgs, Kernel.MessageSystem.SendnMsg: a batch runs with no other process between its sends. In the source, sendMsgs and sendnMsg do not disable interrupts, and the `ready()` in sendMsg (main.c:158, 161) can reschedule to the woken receiver before the next send. That receiver may take messages, so in the source more than 8 - queued messages of one batch can be delivered.
- Protocol.SendAppends, Protocol.SendBatchFills, Protocol.FanOutAccounting, Protocol.SendThenReceiveInOrder: these assume non-zero payloads and a valid starting state: no queued 0, and no row left by a getItem on an empty mailbox. The source's full check relies on 0 marking an empty slot. `Ring.ZeroPayloadOverwritten` shows what happens to a queued 0, and `Ring.TakeFromEmptyMiscounts` shows the row an empty getItem leaves.
- Protocol.FanOutAccounting requires distinct pids. With a repeated pid, the model states only that the count is at most the number of pids (`Protocol.SendFanOut`) and that every mailbox stays coherent (`Protocol.FanOutKeepsValid`).
- `isbadpid`, `proctab` and `getpid()` are Xinu's own. The model has exactly ten processes (matching the ten rows of `messageBuffer`), so a pid is bad when it is outside 0..9. Only the `prstate` of each entry is kept. If Xinu's `NPROC` were larger than 10, the source would index past `messageBuffer`; the model does not cover that.
- The `msgs`/`msg_count` argument pairs of sendMsgs are modelled as a `seq` of messages, and those of sendnMsg as a `seq` of pids. For receiveMsgs, the caller's array must have room for msg_count messages.
- The batch senders return a uint32, in which SYSERR is 0xFFFFFFFF. The model returns that value for a count of 0. Every real count is at most the input length, and for sendMsgs with non-zero payloads at most 8 (`Protocol.SendBatchFills`).
