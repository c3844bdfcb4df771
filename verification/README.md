# A verified model of the rm-micro-controllers core

This project models, in Dafny, the parts of the robot firmware that hold real
invariants, and proves them for all inputs and all runs:

- the heap allocator: first fit over an address-ordered free list with
  splitting and two-sided coalescing (`FreeList`, `HeapModel`, `HeapRuns`,
  `HeapAllocator`);
- the POSIX barrier, condition variable and semaphore over FreeRTOS primitives,
  as interleaved atomic steps of any number of threads (`Barrier`,
  `BarrierProgress`, `CondVar`, `CondVarCalls`, `Semaphore`, `ThreadSums`);
- the message queues and the circular list they hang on (`QueueModel`,
  `QueueLaws`, `QueueOutcomes`, `QueueRegistry`, `LinkList`);
- the USB receive ring buffer (`CacheBuffer`);
- the IMU's SPI/DMA arbiter (`ImuBus`, `ImuService`, `ImuDriver`);
- timespec and tick conversions (`Timespec`) and the PID controller (`Pid`).

`Collections` holds the few generic definitions they share.

Each sequential component has two layers. Specification functions on values say
what a call does, and lemmas prove what all sequences of calls keep. A class (or
a method with loops) works in place as the source does, and its postconditions
tie the new state to those functions. The three synchronisation protocols are
state machines whose steps are the atomic actions of the source.

Configuration: 32-bit `size_t`, 8-byte alignment and an 8-byte block header as
on the Cortex-M4 targets; `time_t` is 64 bits, `long` and ticks are 32 bits.
Kernel primitives have their simple meaning: a counting semaphore is a bounded
number, an `Atomic_` operation is one step, `xEventGroupSync` sets a bit and,
when all bits are set, clears them and releases every waiter. A time-out may
happen whenever a timed take is blocked.

## What the proofs found

Some properties that the code's comments, tests or POSIX lead a reader to expect
fail for some inputs. For each, the model keeps the code, a lemma gives a
concrete input, and another says exactly when the property holds.

- `CacheBuffer` narrows run lengths to 8 bits. No state and no request loses
  bytes if and only if the capacity is below 256
  (`CacheBuffer.NeverLosesBytesIff`); the deployed capacity is 1000
  (`CacheBuffer.DeployedCapacityLosesBytes`).
- `CacheBuffer` narrows the request as well. At every capacity, a read can fill
  its request if and only if the request is below 256 bytes
  (`CacheBuffer.CanFillIff`). A larger one is never filled: it ends by time-out,
  or spins with bytes in the buffer (`CacheBuffer.PageRequestSpins`).
- A condition wait whose deadline conversion fails decrements a count that it
  never incremented, which can cost another thread its wake-up
  (`CondVar.ExpiredDeadlineLosesAWakeup`). So can a wrap-around of the 32-bit
  count (`CondVar.WrapLosesAWakeup`), which takes at least 2^32 steps.
  `CondVar.MarginFallsIff` lists the steps that lose a wake-up, and no others do.
- A barrier with fewer threads than its threshold ends with all of them waiting;
  some thread can always take a step if and only if there are enough
  (`Barrier.AlwaysMovesIff`).
- More waits on a semaphore can succeed than there were units once the 32-bit
  counter wraps at its bottom, which waits that time out can bring about
  (`Semaphore.WrapLetsAWaitPass`); `Semaphore.SuccessfulWaitsBounded` shows that
  nothing else can, and a step keeps the conservation laws if and only if it
  does not overflow the counter (`Semaphore.StepKeepsLawsIff`). The waiters match
  the counter in every untimed run without a wrap if and only if there are at
  most 32768 threads (`Semaphore.AlwaysMatchesIff`).
- A deadline so far away that the product of seconds and tick rate leaves 64
  bits can convert to a small tick count with status 0
  (`Timespec.OverflowReportsSuccess`); otherwise the count is exact
  (`Timespec.RawTicksLeastIff`).
- A time less than one tick before zero converts to 0 ticks with status 0
  (`Timespec.JustBeforeZeroSucceeds`); every other negative time whose product
  fits 64 bits is refused (`Timespec.NegativeSecondsIff`).
- `vPortGetHeapStats` reads through NULL if and only if the heap is initialised
  and no block is free (`HeapAllocator.StatsWalkEndsIff`). On every heap one
  request brings that about (`HeapAllocator.WholeHeapRequestBreaksStats`).
- A data-ready interrupt between the end of an SPI transfer and its callback
  restarts the same device. Whether that harms depends on `SPI1_DMA_enable`,
  which the repository calls (`src/dji/ins_task.c:581`) and does not contain. The
  device in transfer stays selected in every reachable state if and only if
  starting a transfer clears the transfer-complete flag of the one before
  (`ImuBus.AlwaysSelectedIff`). Where it does not, the callback raises the chip
  select in mid-transfer (`ImuBus.RestartBeforeCallbackDeselects`). Everything
  else about the arbiter is proved for both cases.
- The IMU arbiter can keep the accelerometer and the temperature waiting for
  ever (`ImuService.Starvation`). Without new data of higher priority there is a
  tight bound (`ImuService.BoundedWait`, `ImuService.BoundReached`).

Three remarks where comments and code differ; the model follows the code.
`mq_close` of the last descriptor marks the queue for unlinking although nobody
called `mq_unlink`, so it can never be opened again. `listADD` adds at the front.
The pin tests around the two data-ready bodies of `src/dji/ins_task.c` are
commented out (lines 517 and 527), so one call runs both: `ImuDriver.Bus.DataReady`.
The step relation has the two bodies as separate steps, which covers that call
and each body alone.

## Model

| member | source | states |
|---|---|---|
| FreeList.InsertCovers | src/freertos/heap_4_custom.c:458-518 | Inserting a freed block adds exactly its bytes to the free space, whichever neighbours it merges with |
| FreeList.InsertApart | src/freertos/heap_4_custom.c:458-518 | After insertion the list is in strict address order and no two free blocks touch |
| FreeList.InsertSum | src/freertos/heap_4_custom.c:474-499 | Merging moves sizes around but the total grows by exactly the inserted size |
| FreeList.Position | src/freertos/heap_4_custom.c:463-468 | The insertion point splits the list into blocks below the address and blocks at or above it |
| FreeList.WithoutCovers | src/freertos/heap_4_custom.c:208-210 | Unlinking a block removes exactly its bytes from the free space |
| FreeList.Canonical | src/freertos/heap_4_custom.c:83-99 | Two coalesced lists that cover the same bytes are equal: the free list is a function of which bytes are free |
| HeapModel.Rounded | src/freertos/heap_4_custom.c:153-186 | A request becomes the least aligned size that holds it and its header; zero and top-bit requests are refused, and nothing overflows |
| HeapModel.FirstFit | src/freertos/heap_4_custom.c:191-198 | The search stops at the first block that is large enough |
| HeapModel.AfterTakeApart | src/freertos/heap_4_custom.c:208-230 | Taking space keeps the list coalesced and lowers its total by exactly the size taken |
| HeapModel.AfterTakeCovers | src/freertos/heap_4_custom.c:208-230 | Taking space removes exactly the bytes that go to the application, split or not |
| HeapModel.HeapStart | src/freertos/heap_4_custom.c:417-427 | The heap starts at the first aligned address of the array |
| HeapModel.HeapEnd | src/freertos/heap_4_custom.c:434-439 | The end marker is the last aligned address with room for a header |
| HeapModel.InitialInv | src/freertos/heap_4_custom.c:410-455 | Initialisation establishes the whole invariant: tiling, coalescing, alignment, byte count |
| HeapModel.MallocInv | src/freertos/heap_4_custom.c:131-288 | Every request, granted or not, keeps free and live blocks tiling the heap exactly, coalesced, aligned, at least the minimum size and below the allocated bit |
| HeapModel.FreeInv | src/freertos/heap_4_custom.c:291-337 | Every release of a live pointer keeps the same invariant |
| HeapModel.FreeAndLiveDisjoint | src/freertos/heap_4_custom.c:206-250 | No live block overlaps a free block |
| HeapRuns.FreeListDetermined | src/freertos/heap_4_custom.c:131-337 | Two heaps with the same live blocks have the same free list and byte count |
| HeapRuns.EmptyHeapIsOneBlock | src/freertos/heap_4_custom.c:443-451 | With nothing live the free list is the one initial block |
| HeapRuns.MallocFreeRoundTrip | src/freertos/heap_4_custom.c:191-252 | Freeing a pointer just returned restores the free list, the live blocks and the byte count, whether or not the block was split |
| HeapRuns.MallocIsFirstFit | src/freertos/heap_4_custom.c:187-206 | The lowest-address block that is large enough is returned; NULL exactly when there is none, and then nothing changes |
| HeapRuns.GrantedExactly | src/freertos/heap_4_custom.c:206-241 | Every granted request takes the whole first-fit block if and only if that exceeds the rounded size by at most heapMINIMUM_BLOCK_SIZE; otherwise exactly the rounded size, and the rest of the block keeps its place in the free list |
| HeapRuns.RefusedRequests | src/freertos/heap_4_custom.c:149-187 | Requests of zero bytes or with the top bit set return NULL and change nothing |
| HeapRuns.MallocSucceedsIffLargestCovers | src/freertos/heap_4_custom.c:528-560 | A request succeeds exactly when its rounded size is at most the largest free block |
| HeapRuns.WholeHeapRequestEmptiesTheList | src/freertos/heap_4_custom.c:206-235 | On every heap one request is granted the whole space and leaves no free block |
| HeapRuns.PayloadIsExclusive | src/freertos/heap_4_custom.c:204-250 | A live payload is aligned, large enough, inside the heap and disjoint from every other block and header |
| HeapRuns.MallocConserved | src/freertos/heap_4_custom.c:236-241 | A request keeps free bytes plus live bytes equal to the heap |
| HeapRuns.FreeConserved | src/freertos/heap_4_custom.c:315-323 | A release keeps free bytes plus live bytes equal to the heap |
| HeapRuns.EveryRun | src/freertos/heap_4_custom.c:131-337 | After every sequence of requests and releases: the invariant, byte conservation, and the recorded minimum is the true minimum over the history |
| HeapRuns.FreeListIgnoresHistory | src/freertos/heap_4_custom.c:131-337 | Runs that leave the same blocks live leave the same free list, whatever the order of calls |
| HeapRuns.ReleasingEverythingRestoresTheHeap | src/freertos/heap_4_custom.c:291-337 | Freeing everything in any order gives back the single initial block |
| HeapAllocator.Allocator.HeapInit | src/freertos/heap_4_custom.c:410-455 | The headers written in memory represent the initial heap |
| HeapAllocator.Allocator.FindPredecessor | src/freertos/heap_4_custom.c:463-468 | The loop ends at the last node below the block |
| HeapAllocator.Allocator.Splice | src/freertos/heap_4_custom.c:470-517 | The conditional header writes come to one merged header and one link |
| HeapAllocator.Allocator.InsertBlock | src/freertos/heap_4_custom.c:458-518 | The linked list in memory becomes the coalescing insertion; no other header changes |
| HeapAllocator.Allocator.FindFit | src/freertos/heap_4_custom.c:189-198 | The search loop ends at the first fit or at the end marker |
| HeapAllocator.Allocator.TakeBlock | src/freertos/heap_4_custom.c:208-250 | Unlinking, splitting and marking leave the list of the model and an allocated header |
| HeapAllocator.Allocator.Malloc | src/freertos/heap_4_custom.c:131-288 | The in-place allocator refines the model: state and returned pointer, including lazy initialisation |
| HeapAllocator.Allocator.Free | src/freertos/heap_4_custom.c:291-337 | The in-place release refines the model; NULL changes nothing |
| HeapAllocator.Allocator.GetHeapStats | src/freertos/heap_4_custom.c:521-570 | Reads through NULL exactly when the heap is initialised and no block is free; otherwise it reports the true largest and smallest free block, their number and the byte counts |
| HeapAllocator.Allocator.WalkFreeList | src/freertos/heap_4_custom.c:531-553 | The do-while over the headers, which visits a node before it compares with the end marker |
| HeapAllocator.StatsWalkEndsIff | src/freertos/heap_4_custom.c:535-553 | In every state of an initialised heap, the walk stops at the end marker without reading through NULL if and only if some block is free |
| HeapAllocator.WalkIsLost | src/freertos/heap_4_custom.c:535-553 | With no free block the first pass visits the end marker and every later pass reads through NULL |
| HeapAllocator.WholeHeapRequestBreaksStats | src/freertos/heap_4_custom.c:521-553 | On every heap, one request for all of it is granted and the statistics taken next read through NULL |
| Barrier.NoEarlyRelease | lib/FreeRTOS-Plus-POSIX/source/.FreeRTOS_POSIX_pthread_barrier.c:120-165 | For every threshold up to 24 and every interleaving, no thread passes before exactly threshold threads entered its cycle, with distinct numbers below the threshold |
| Barrier.NumbersDistinct | lib/FreeRTOS-Plus-POSIX/source/.FreeRTOS_POSIX_pthread_barrier.c:135-143 | Threads in the current cycle have distinct numbers below the threshold |
| Barrier.ExactlyOneSerialThread | lib/FreeRTOS-Plus-POSIX/source/.FreeRTOS_POSIX_pthread_barrier.c:145-164 | Only number 0 returns PTHREAD_BARRIER_SERIAL_THREAD, and exactly one does once a cycle has fully returned |
| Barrier.NeverStuck | lib/FreeRTOS-Plus-POSIX/source/.FreeRTOS_POSIX_pthread_barrier.c:127-162 | In every reachable state a token is left or a thread inside can move, also while the old leader is still giving tokens; with at least threshold threads some thread can always take a step |
| Barrier.AlwaysMovesIff | lib/FreeRTOS-Plus-POSIX/source/.FreeRTOS_POSIX_pthread_barrier.c:120-165 | For every threshold, some thread can take a step in every reachable state if and only if there are at least threshold threads |
| BarrierProgress.CycleCanComplete | lib/FreeRTOS-Plus-POSIX/source/.FreeRTOS_POSIX_pthread_barrier.c:120-165 | From every reachable state with at least threshold threads, some run completes the current cycle, brings every thread back with its result recorded, and leaves all tokens in place and the counter at 0 |
| BarrierProgress.StepLowersWork | lib/FreeRTOS-Plus-POSIX/source/.FreeRTOS_POSIX_pthread_barrier.c:120-165 | Every step but an entry lowers the work left in the calls |
| BarrierProgress.EntriesAloneRepeat | lib/FreeRTOS-Plus-POSIX/source/.FreeRTOS_POSIX_pthread_barrier.c:120-165 | A run without entries is no longer than the work left, so only entries can repeat for ever |
| BarrierProgress.InitOpens | lib/FreeRTOS-Plus-POSIX/source/.FreeRTOS_POSIX_pthread_barrier.c:69-112 | Initialisation accepts exactly the counts 1 to 24 and leaves the barrier open with nobody inside |
| Barrier.StepKeeps | lib/FreeRTOS-Plus-POSIX/source/.FreeRTOS_POSIX_pthread_barrier.c:120-165 | Each atomic action keeps the token, number, bit and cycle bookkeeping |
| Barrier.CompletionCounts | lib/FreeRTOS-Plus-POSIX/source/.FreeRTOS_POSIX_pthread_barrier.c:137-143 | When the last bit is set all tokens are used and every number has been handed out |
| CondVar.EveryRun | lib/FreeRTOS-Plus-POSIX/source/.FreeRTOS_POSIX_pthread_cond.c:84-286 | In every run of every operation, count + tokens + pending gives differs from the counted threads by exactly the recorded skips, stray decrements, refused gives and wraps |
| CondVar.UntimedWakeupsExact | lib/FreeRTOS-Plus-POSIX/source/.FreeRTOS_POSIX_pthread_cond.c:105-211 | With untimed waits, count + tokens + pending gives equals the waiters not yet released |
| CondVarCalls.CallEffect | lib/FreeRTOS-Plus-POSIX/source/.FreeRTOS_POSIX_pthread_cond.c:84-286 | In every interleaving, a signal that returns moved one unit from the count to the tokens or saw a zero count; a broadcast moved all it saw; a wait added one to the count and took a token, or gave up and took its count back unless it saw zero; a failed wait took one unless it saw zero |
| CondVarCalls.ReturnsAlone | lib/FreeRTOS-Plus-POSIX/source/.FreeRTOS_POSIX_pthread_cond.c:84-286 | In every reachable state a thread inside a call returns by its own steps alone, unless it waits without a deadline for a token that is not there |
| CondVar.TimedWakeupsSuffice | lib/FreeRTOS-Plus-POSIX/source/.FreeRTOS_POSIX_pthread_cond.c:245-283 | In every run that sum falls below the threads still waiting by at most what stray decrements and wrap-arounds took; with waits that all reach the increment and fewer than 2^32 steps it never does |
| CondVar.WrapLosesAWakeup | lib/FreeRTOS-Plus-POSIX/source/.FreeRTOS_POSIX_pthread_cond.c:249-249 | A run in which all waits reach the increment, the count wraps, and a waiting thread is left with nothing to wake it |
| CondVar.ZeroCountMeansAllServed | lib/FreeRTOS-Plus-POSIX/source/.FreeRTOS_POSIX_pthread_cond.c:189-193 | A signal that reads a zero count leaves at most that many waiters without a token or a pending give, in every run |
| CondVar.MarginFallsIff | lib/FreeRTOS-Plus-POSIX/source/.FreeRTOS_POSIX_pthread_cond.c:84-101 | Exactly three kinds of step lose a wake-up: a stray decrement that finds waiters, a give to a full semaphore, a wrapping increment |
| CondVar.ExpiredDeadlineLosesAWakeup | lib/FreeRTOS-Plus-POSIX/source/.FreeRTOS_POSIX_pthread_cond.c:276-283 | A run in which one expired deadline leaves another thread blocked after a signal |
| Semaphore.EveryRun | lib/FreeRTOS-Plus-POSIX/source/FreeRTOS_POSIX_semaphore.c:109-199 | In every run of every operation both conservation laws hold exactly, with a wrap at the bottom making 2^31 - 1 units and one at the top losing 2^31; no wrap happened if and only if no step overflowed |
| Semaphore.StepKeepsLawsIff | lib/FreeRTOS-Plus-POSIX/source/FreeRTOS_POSIX_semaphore.c:109-199 | A step keeps the laws of an unwrapped counter if and only if it does not overflow the counter |
| Semaphore.SuccessfulWaitsBounded | lib/FreeRTOS-Plus-POSIX/source/FreeRTOS_POSIX_semaphore.c:168-199 | In every run, time-outs included, more waits than initial value plus posts succeed only after the counter wrapped at its bottom |
| Semaphore.StepsAccounted | lib/FreeRTOS-Plus-POSIX/source/FreeRTOS_POSIX_semaphore.c:109-199 | In every run the counter is the initial value plus posts minus waits up to wrap-arounds; each wait begun succeeded, is blocked or gave up; each give put in a token that is there, was taken or was refused |
| Semaphore.WrapLetsAWaitPass | lib/FreeRTOS-Plus-POSIX/source/FreeRTOS_POSIX_semaphore.c:168-176 | A run in which that happens: one thread, 2^31 + 1 expired waits, and a wait that succeeds without any post |
| Semaphore.UntimedWaitersMatchCounter | lib/FreeRTOS-Plus-POSIX/source/FreeRTOS_POSIX_semaphore.c:109-125 | In untimed runs without overflow, and any number of threads, blocked threads minus tokens and pending gives equals max(0, -value) exactly while no give was refused |
| Semaphore.AlwaysMatchesIff | lib/FreeRTOS-Plus-POSIX/source/FreeRTOS_POSIX_semaphore.c:92-125 | For every initial value, that equality holds throughout all such runs if and only if there are at most 32768 threads |
| Semaphore.PostFindsAWaiter | lib/FreeRTOS-Plus-POSIX/source/FreeRTOS_POSIX_semaphore.c:115-122 | In untimed runs without overflow, and any number of threads, a post that finds the counter below zero has a blocked thread for its give to release |
| Semaphore.InitLaws | lib/FreeRTOS-Plus-POSIX/source/FreeRTOS_POSIX_semaphore.c:74-105 | Initialisation refuses exactly the values above the maximum, and otherwise establishes the laws |
| Semaphore.ShortRunsNeverOverflow | lib/FreeRTOS-Plus-POSIX/source/FreeRTOS_POSIX_semaphore.c:113-168 | No run of at most 2^31 - 1 - 32767 steps overflows the counter |
| LinkList.InitHead | lib/FreeRTOS-Plus-POSIX/include/iot_doubly_linked_list.h:103-107 | The head becomes the ring of the empty sequence |
| LinkList.Add | lib/FreeRTOS-Plus-POSIX/include/iot_doubly_linked_list.h:116-125 | Adding pushes the node at the front of the sequence |
| LinkList.Remove | lib/FreeRTOS-Plus-POSIX/include/iot_doubly_linked_list.h:135-147 | Removing deletes exactly that node and detaches it; a detached node changes no other |
| LinkList.IsEmpty | lib/FreeRTOS-Plus-POSIX/include/iot_doubly_linked_list.h:154-154 | Empty exactly for NULL or the empty sequence |
| LinkList.Pop | lib/FreeRTOS-Plus-POSIX/include/iot_doubly_linked_list.h:168-188 | Popping takes the first node, or NULL from the empty list and from a NULL head |
| LinkList.Merge | lib/FreeRTOS-Plus-POSIX/include/iot_doubly_linked_list.h:198-212 | The result is the merged nodes followed by the old ones, and the source is emptied; a NULL list changes nothing |
| LinkList.ForEach | lib/FreeRTOS-Plus-POSIX/include/iot_doubly_linked_list.h:218-221 | The traversal ends and visits each node once, in order |
| LinkList.RingUnique | lib/FreeRTOS-Plus-POSIX/include/iot_doubly_linked_list.h:84-96 | The pointers determine the sequence |
| QueueLaws.EveryRun | lib/FreeRTOS-Plus-POSIX/source/FreeRTOS_POSIX_mqueue.c:203-891 | After every sequence of calls: unique names, closed queues pending unlink, live blocks exactly those owned by listed queues and all others freed once, in-order delivery |
| QueueLaws.OpenKeeps | lib/FreeRTOS-Plus-POSIX/source/FreeRTOS_POSIX_mqueue.c:494-607 | Opening keeps all of that, including failed creates |
| QueueLaws.CloseKeeps | lib/FreeRTOS-Plus-POSIX/source/FreeRTOS_POSIX_mqueue.c:398-457 | Closing keeps all of that |
| QueueLaws.UnlinkKeeps | lib/FreeRTOS-Plus-POSIX/source/FreeRTOS_POSIX_mqueue.c:829-891 | Unlinking keeps all of that |
| QueueLaws.SendKeeps | lib/FreeRTOS-Plus-POSIX/source/FreeRTOS_POSIX_mqueue.c:724-825 | Sending keeps all of that, including sends refused for size, memory, time or room |
| QueueLaws.ReceiveKeeps | lib/FreeRTOS-Plus-POSIX/source/FreeRTOS_POSIX_mqueue.c:631-720 | Receiving keeps all of that |
| QueueLaws.DeleteKeeps | lib/FreeRTOS-Plus-POSIX/source/FreeRTOS_POSIX_mqueue.c:273-290 | Deleting a queue frees each of its blocks once and touches nothing else |
| QueueLaws.ClosedQueueIsDoomed | lib/FreeRTOS-Plus-POSIX/source/FreeRTOS_POSIX_mqueue.c:420-438 | A listed queue with no descriptors is pending unlink, and opening its name fails and changes nothing |
| QueueLaws.NeverReopened | lib/FreeRTOS-Plus-POSIX/source/FreeRTOS_POSIX_mqueue.c:556-568 | Once pending unlink, a queue is never opened again by any later call |
| QueueLaws.LeavesOnlyAtZero | lib/FreeRTOS-Plus-POSIX/source/FreeRTOS_POSIX_mqueue.c:411-454 | A queue leaves the list only in a close or unlink that finds it without further descriptors, and all its blocks are freed in that call |
| QueueOutcomes.UnlinkedQueueGoes | lib/FreeRTOS-Plus-POSIX/source/FreeRTOS_POSIX_mqueue.c:829-891 | After any run, once an unlink succeeded no later call opens the queue it named; it is gone at once if nobody had it open, and otherwise the close of its last descriptor, at any later time, takes it off the list and frees its name |
| QueueOutcomes.UnlinkOutcome | lib/FreeRTOS-Plus-POSIX/source/FreeRTOS_POSIX_mqueue.c:840-870 | Unlinking succeeds exactly for the name of a listed queue, with the matching errors |
| QueueOutcomes.CloseOutcome | lib/FreeRTOS-Plus-POSIX/source/FreeRTOS_POSIX_mqueue.c:411-447 | Closing succeeds exactly for listed queues |
| QueueOutcomes.NameLength | lib/FreeRTOS-Plus-POSIX/source/FreeRTOS_POSIX_mqueue.c:366-395 | A name that starts with a slash is refused exactly when more than NAME_MAX characters follow it |
| QueueOutcomes.OpenOutcome | lib/FreeRTOS-Plus-POSIX/source/FreeRTOS_POSIX_mqueue.c:536-604 | When opening succeeds, in every state that a run reaches |
| QueueOutcomes.OpenExisting | lib/FreeRTOS-Plus-POSIX/source/FreeRTOS_POSIX_mqueue.c:545-568 | Opening a listed name adds one descriptor, unless it is an exclusive creation or the queue is pending unlink |
| QueueOutcomes.OpenNew | lib/FreeRTOS-Plus-POSIX/source/FreeRTOS_POSIX_mqueue.c:570-600 | A creation that gets its memory puts a queue in front with the attributes given or the default ones, one descriptor and no messages |
| QueueOutcomes.SendOutcome | lib/FreeRTOS-Plus-POSIX/source/FreeRTOS_POSIX_mqueue.c:724-825 | A message is accepted exactly when its queue is listed, the size is from 1 to the limit, the deadline is good, memory was granted and there is room; it goes to the end of that queue |
| QueueOutcomes.SendFailures | lib/FreeRTOS-Plus-POSIX/source/FreeRTOS_POSIX_mqueue.c:745-822 | Which error a refused send reports |
| QueueOutcomes.ReceiveOutcome | lib/FreeRTOS-Plus-POSIX/source/FreeRTOS_POSIX_mqueue.c:631-720 | A message is delivered exactly when its queue is listed and has one, the length is at least the limit and the deadline is good; it is the oldest |
| QueueOutcomes.ReceiveFailures | lib/FreeRTOS-Plus-POSIX/source/FreeRTOS_POSIX_mqueue.c:653-700 | Which error a refused receive reports |
| QueueLaws.DescriptorsCountOpens | lib/FreeRTOS-Plus-POSIX/source/FreeRTOS_POSIX_mqueue.c:258-259 | Over every run, the reference count of every queue is its successful opens minus the closes that found it open |
| QueueLaws.FailureLeaksNothing | lib/FreeRTOS-Plus-POSIX/source/FreeRTOS_POSIX_mqueue.c:213-251 | A failed call leaves list, logs and live blocks unchanged |
| QueueLaws.ReceivesNextMessage | lib/FreeRTOS-Plus-POSIX/source/FreeRTOS_POSIX_mqueue.c:658-717 | A delivered message is the next accepted one, byte for byte, and fits the length the call was given |
| QueueLaws.ReceivedIsPrefixOfSent | lib/FreeRTOS-Plus-POSIX/source/FreeRTOS_POSIX_mqueue.c:686-717 | For every queue ever created, received messages are a prefix of the sent ones |
| QueueRegistry.MessageQueues.FindQueue | lib/FreeRTOS-Plus-POSIX/source/FreeRTOS_POSIX_mqueue.c:294-331 | The traversal of the ring ends at the first node whose element matches by name, or by descriptor when no name is given, or at the head |
| QueueRegistry.MessageQueues.DeleteQueue | lib/FreeRTOS-Plus-POSIX/source/FreeRTOS_POSIX_mqueue.c:273-290 | The drain loop and the final frees release exactly the blocks of the queue |
| QueueRegistry.MessageQueues.RemoveQueue | lib/FreeRTOS-Plus-POSIX/source/FreeRTOS_POSIX_mqueue.c:424-454 | Unlinking the node from the ring and deleting its element removes exactly that queue and its blocks |
| QueueRegistry.MessageQueues.CreateQueue | lib/FreeRTOS-Plus-POSIX/source/FreeRTOS_POSIX_mqueue.c:203-269 | A new element enters the ring at the front and is the one that both searches find; a failed creation leaves list and live blocks as they were; the invariant is kept |
| QueueRegistry.MessageQueues.Open | lib/FreeRTOS-Plus-POSIX/source/FreeRTOS_POSIX_mqueue.c:494-607 | mq_open on the ring refines the model, with its error order, and keeps the invariant |
| QueueRegistry.MessageQueues.Close | lib/FreeRTOS-Plus-POSIX/source/FreeRTOS_POSIX_mqueue.c:398-457 | mq_close on the ring refines the model and keeps the invariant |
| QueueRegistry.MessageQueues.Unlink | lib/FreeRTOS-Plus-POSIX/source/FreeRTOS_POSIX_mqueue.c:829-891 | mq_unlink on the ring refines the model and keeps the invariant |
| QueueRegistry.MessageQueues.Send | lib/FreeRTOS-Plus-POSIX/source/FreeRTOS_POSIX_mqueue.c:724-825 | mq_timedsend refines the model, with its error order, and keeps the invariant and the ring |
| QueueRegistry.MessageQueues.Receive | lib/FreeRTOS-Plus-POSIX/source/FreeRTOS_POSIX_mqueue.c:631-720 | mq_timedreceive refines the model, keeps the invariant and never returns more than the length given |
| CacheBuffer.Buffer.Write | include/tool/cache_buffer.hpp:88-112 | A write succeeds exactly when the length is below the free bytes and then appends the packet; a failed one appends nothing, or exactly the part up to the end of the array |
| CacheBuffer.Buffer.TakeRun | include/tool/cache_buffer.hpp:63-84 | For every capacity: the length returned and the bytes the cursor moves over |
| CacheBuffer.Buffer.TakeBytes | include/tool/cache_buffer.hpp:117-125 | At every capacity the bytes copied are the front of the queue, followed by the bytes skipped |
| CacheBuffer.Buffer.Pass | include/tool/cache_buffer.hpp:116-126 | One pass copies at most the narrowed request, skips only whole pages of 256 bytes, and changes nothing exactly in the case that repeats for ever |
| CacheBuffer.Buffer.Wait | include/tool/cache_buffer.hpp:118-122 | A wait polls only while the buffer is empty; it ends ready with the first poll that brings something and goes on, and unready with the first that answers stop |
| CacheBuffer.Buffer.Read | include/tool/cache_buffer.hpp:113-128 | At every capacity and request, across any wrap: the bytes returned, those skipped and those left are what was there and what arrived; it is short only at the stop with everything taken, and spins only with a positive multiple of 256 bytes wanted; below capacity 256, with packets that fit, it returns exactly the first bytes of what was there and what came before the stop |
| CacheBuffer.ReadView | include/tool/cache_buffer.hpp:66-83 | Moving the cursor within a run takes exactly that prefix off the queue |
| CacheBuffer.RunExactIff | include/tool/cache_buffer.hpp:63-83 | A run is read without loss exactly when its narrowed length exceeds the narrowed request or it fits in 8 bits |
| CacheBuffer.NeverLosesBytesIff | include/tool/cache_buffer.hpp:63-83 | No state and no request loses bytes if and only if the capacity is below 256 |
| CacheBuffer.PagesNeverServed | include/tool/cache_buffer.hpp:113-128 | Whatever runs a read meets, the whole pages of 256 bytes in its request are never served |
| CacheBuffer.CanFillIff | include/tool/cache_buffer.hpp:113-128 | At every capacity some runs fill the request if and only if it is below 256 bytes |
| CacheBuffer.PageRequestSpins | include/tool/cache_buffer.hpp:116-126 | At every capacity below 256, with anything buffered, a read of a positive multiple of 256 bytes spins and stores nothing |
| CacheBuffer.DeployedCapacityLosesBytes | src/tool/transimition.cpp:18-18 | At capacity 1000 with 300 bytes written, a read of 300 stores exactly the first 44, whatever arrives |
| ImuBus.EveryRun | src/dji/ins_task.c:514-661 | In every reachable state at most one SPI bit is set, the chip selects follow the bits, and a pending request has a completion coming |
| ImuBus.PendingMeansInFlight | src/dji/ins_task.c:520-535 | After every data-ready handler with DMA started and every handled completion, a pending request implies a transfer in flight |
| ImuBus.RequestEndsInTransfer | src/dji/ins_task.c:574-611 | A data-ready bit falls only in a step that starts that device's transfer |
| ImuBus.HandlersRecord | src/dji/ins_task.c:519-535 | A data-ready handler makes requests for its own devices and no other, each pending or running afterwards; no other step makes a request |
| ImuBus.CompletionIsReported | src/dji/ins_task.c:623-660 | A handled completion sets the bit by which the task learns of the data, and only the task's pass clears it |
| ImuBus.OwnerSelectedKeptIff | src/dji/ins_task.c:616-653 | A step deselects the device in transfer exactly when it is a callback that finds the next transfer running with a completion to handle |
| ImuBus.AlwaysSelectedIff | src/dji/ins_task.c:568-661 | The device in transfer is selected in every reachable state if and only if starting a transfer clears the flag of the one before |
| ImuBus.RestartBeforeCallbackDeselects | src/dji/ins_task.c:573-584 | A run that deselects it, where starting leaves the flag set |
| ImuService.BoundedWait | src/dji/ins_task.c:568-613 | From every reachable state, while no higher-priority data becomes ready, a pending request is served by the first completion for the gyroscope, the second for the accelerometer, the third for the temperature, or one later where starting leaves the flag set |
| ImuService.BoundReached | src/dji/ins_task.c:568-613 | Runs in which each of these bounds is reached, in both cases |
| ImuService.Starvation | src/dji/ins_task.c:573-611 | In both cases and for every n, a run in which the accelerometer or the temperature waits through n completions |
| ImuDriver.OneBitChanges | src/dji/ins_task.c:577-578 | Each or-assignment and and-not-assignment on a flag byte changes the bit it names and none of the other seven |
| ImuDriver.Bus.CmdSpiDma | src/dji/ins_task.c:568-613 | On the flag bytes, starts the first waiting device when the bus is free; with DMA started and the bus in order, it drops no request and leaves none waiting without a transfer in flight |
| ImuDriver.Bus.HandleAccelReady | src/dji/ins_task.c:519-525 | The accelerometer body on the flag bytes refines the model and keeps the invariant |
| ImuDriver.Bus.HandleGyroReady | src/dji/ins_task.c:529-534 | The gyroscope body on the flag bytes refines the model and keeps the invariant |
| ImuDriver.Bus.DataReady | src/dji/ins_task.c:515-535 | One call of the interrupt routine runs both data-ready bodies, and keeps the invariant |
| ImuDriver.Bus.SpiDmaCallback | src/dji/ins_task.c:616-662 | The completion callback on the flag bytes refines the model and keeps the invariant |
| ImuDriver.Bus.ConsumeFlags | src/dji/ins_task.c:226-244 | The task's pass over the flag bytes refines the model and keeps the invariant |
| Timespec.Compare | lib/FreeRTOS-Plus-POSIX/source/FreeRTOS_POSIX_utils.c:323-367 | The order of total nanoseconds, with NULL below everything |
| Timespec.NanosecondsToTimespec | lib/FreeRTOS-Plus-POSIX/source/FreeRTOS_POSIX_utils.c:163-181 | Floor division for negative and positive counts although C truncates |
| Timespec.Add | lib/FreeRTOS-Plus-POSIX/source/FreeRTOS_POSIX_utils.c:185-223 | The exact normalized sum, and status 0 exactly when it fits |
| Timespec.AddNanoseconds | lib/FreeRTOS-Plus-POSIX/source/FreeRTOS_POSIX_utils.c:227-264 | For every 64-bit count: the exact normalized sum; refused exactly when it would need a borrow, when the nanoseconds wrap, or when it does not fit |
| Timespec.Subtract | lib/FreeRTOS-Plus-POSIX/source/FreeRTOS_POSIX_utils.c:268-319 | The exact normalized difference, or status 1 exactly when it would be negative |
| Timespec.SubtractThenAdd | lib/FreeRTOS-Plus-POSIX/source/FreeRTOS_POSIX_utils.c:185-319 | Adding back a difference restores the later time |
| Timespec.TimespecToTicks | lib/FreeRTOS-Plus-POSIX/source/FreeRTOS_POSIX_utils.c:103-159 | The 64-bit count, with EINVAL exactly for invalid times and counts outside 32 bits |
| Timespec.RawTicksLeastIff | lib/FreeRTOS-Plus-POSIX/source/FreeRTOS_POSIX_utils.c:120-152 | A successful count is the least number of ticks that covers the time if and only if nothing overflowed |
| Timespec.OverflowReportsSuccess | lib/FreeRTOS-Plus-POSIX/source/FreeRTOS_POSIX_utils.c:123-132 | 2^61 seconds at 1000 Hz convert to 0 ticks |
| Timespec.NegativeSecondsIff | lib/FreeRTOS-Plus-POSIX/source/FreeRTOS_POSIX_utils.c:120-152 | A time with negative seconds whose product fits 64 bits converts to 0 if and only if it is less than one tick before zero, and is refused otherwise |
| Timespec.JustBeforeZeroSucceeds | lib/FreeRTOS-Plus-POSIX/source/FreeRTOS_POSIX_utils.c:125-140 | One nanosecond before zero converts to 0 ticks with status 0 |
| Timespec.LeastIsLeast | lib/FreeRTOS-Plus-POSIX/source/FreeRTOS_POSIX_utils.c:125-129 | The bound used above really is the minimum over all tick counts that reach the time |
| Timespec.AbsoluteTimespecToDeltaTicks | lib/FreeRTOS-Plus-POSIX/source/FreeRTOS_POSIX_utils.c:62-99 | ETIMEDOUT exactly when the deadline is earlier than now; success gives the least tick count that reaches it, unless the product overflows |
| Timespec.ClockGettime | lib/FreeRTOS-Plus-POSIX/source/FreeRTOS_POSIX_clock.c:90-118 | The normalized time of the 64-bit product, which is the exact time of the tick count if and only if that product fits 63 bits |
| Timespec.ClockToTicks | lib/FreeRTOS-Plus-POSIX/source/FreeRTOS_POSIX_clock.c:107-115 | Converting the clock back recovers the tick count whenever it fits 32 bits, and EINVAL otherwise |
| Pid.LimitMax | src/dji/pid.c:21-31 | The limited value is within the limit and equals the input when that already is |
| Pid.LimitIsNearest | src/dji/pid.c:21-31 | The limited value is the nearest within the limits |
| Pid.PositionIsTextbook | src/dji/pid.c:95-106 | In a run where no limit bites the positional output is the textbook PID of the whole error sequence |
| Pid.DeltaIsTextbook | src/dji/pid.c:107-117 | In the same runs the incremental output telescopes to the same textbook value |
| Pid.DeltaRefinesPosition | src/dji/pid.c:83-119 | Both modes give the same output after every step of such a run |
| Pid.PositionLimited | src/dji/pid.c:95-106 | In every run the positional output is the textbook value with the limited integral, limited, and the integral moves by the new share and is limited |
| Pid.DeltaLimited | src/dji/pid.c:107-117 | In every run the incremental output moves by what the textbook value gained and is limited |
| Pid.HistoryIsRecent | src/dji/pid.c:88-110 | In every run and mode the last three errors and differences are remembered in order; another mode changes nothing else |
| Pid.RunsStayWithinLimits | src/dji/pid.c:98-116 | With non-negative limits every run keeps the output, and in positional mode the integral, within its limit |
| Pid.Controller.Init | src/dji/pid.c:53-67 | Initialisation sets mode and gains and clears the history |
| Pid.Controller.Calc | src/dji/pid.c:83-119 | The in-place calculation refines the model in every mode |
| Pid.Controller.Reset | src/dji/pid.c:131-142 | Clearing returns to the initial history |

## Left out

- `pvPortRealloc`, `pvPortCalloc`, `getBlockSize` and the counting allocators of `src/freertos/allocators.c`.
- The call counters of successful allocations and frees, scheduler suspension, the malloc-failed hook, and user code that writes over block headers.
- HeapAllocator.Allocator.Free: covers NULL and live pointers; the source asserts that any other pointer is never passed.
- Destroying and statically initialising barriers, condition variables and semaphores, the mutex around a condition wait, and `errno` values of semaphore waits.
- Semaphore liveness after time-outs: a timed-out wait does not restore the counter, so only the conservation laws hold there.
- CacheBuffer.Buffer.Read: interleaved writes happen only inside the wait loop, so a read that spins does so for ever; `read_single`/`write_single` are not modelled.
- Message queues: the interleaving inside a call after the list mutex is released, a send or receive that blocks for ever, `mq_getattr`, and NULL names.
- Allocation success in message-queue calls is an input, and queue identities are never reused. An element is found from its list node by a map instead of by address arithmetic.
- Timespec: signed overflow is taken to wrap around, and times outside the normalized, non-negative range are covered only where a row says so.
- The magnetometer flag, the low-pass filter, temperature control and register traffic of the IMU task; the transmit and receive streams are one.
- `SPI1_DMA_enable` is not part of the repository: of what it does, the model keeps that the stream runs for the device, and takes as a constant whether the transfer-complete flag of the previous transfer is cleared.
- NULL output pointers of the timespec functions, NULL controller pointers of the PID, and `UTILS_strnlen`.
- Floating-point rounding in the PID: it is modelled over the reals.
- Kernel internals, HAL, USB descriptors, CAN, UART, micro-ROS transports, chassis and gimbal control, device monitoring, and the POSIX mutex, thread, scheduler, timer and sleep functions.
