# EraseCure: models and proofs

EraseCure is a disk sanitizer with a forensic file-carving engine beside it. This project models the parts
of it that are hard to get right, in Dafny, and proves what they keep, over all inputs, all interleavings
and all outcomes of the system calls.

| file | what it models |
|---|---|
| `WorkerPool.dfy`, `PoolProtocol.dfy` | the worker pool: the ring buffer in place, and the pool as a concurrent system of any number of workers, submitters and idle waiters |
| `PriorityHeap.dfy`, `PromisingQueue.dfy`, `QueueProtocol.dfy` | the promising queue: heap algebra, the array of candidate pointers sifted in place, and the queue under concurrent use |
| `DuplicateForest.dfy`, `Blockmap.dfy` | duplicate detection in the block map: chains of sort predecessors, and the two arrays updated in place |
| `Gif.dfy`, `Jpeg.dfy`, `Png.dfy` | the three byte-level format validators, each against an encoder |
| `FileMirror.dfy` | the apparent view of an evidence image: rank and select over a mutable mask |
| `BlockErase.dfy`, `Verification.dfy` | multi-pass overwriting with arbitrary failures, and the readback |
| `AuditRecords.dfy`, `AuditLogs.dfy`, `AuditJson.dfy` | the canonical audit string, the hash chain, the JSON-lines log, its validator, and a JSON parser to read the lines with |
| `ImageBlocks.dfy`, `TestImage.dfy` | the block allocator of the synthetic image generator |
| `BlockState.dfy` | the block-state serializer |
| `FolderEraser.dfy` | the recursive folder eraser |
| `Counting.dfy`, `Bytes.dfy` | counting and byte-string lemmas shared by the above |

How the models are built:

- A loop or an object of the program is a method or a class here, proved equal to a function on values; the
  properties are proved of that function, or as an invariant.
- A region protected by a mutex is one atomic step. A run is any sequence of enabled steps, so a statement
  about all runs is a statement about all interleavings. A signal wakes one sleeper of the scheduler's
  choice, a broadcast wakes all, and spurious wakeups are steps of their own.
- SHA-256, CRC-32 and the timestamp format are function parameters, about which nothing is assumed beyond
  what a lemma says. Outcomes of I/O calls, of the allocator and of the random generator are parameters too;
  the library sort is a parameter `sorted` that may be any sorted rearrangement.
- Where two files of the program do not agree on a signature (`blockmap.c:115` calls `hash_digest_to_hex`
  with two of its three arguments; the validators return an enumeration where their header declares a
  structure) the evident intent is modelled: the hash is a function of the bytes, a validator gives a verdict
  and a size.

Where the program and its own documentation, or the standard it follows, differ, the model follows the
program and the difference is a theorem:

| documentation | program | theorem |
|---|---|---|
| `include/recovery/worker_pool.h`: `wait_idle` waits for all tasks | one signal wakes one waiter | `PoolProtocol.IdleNoticedIffSoleWaiter` |
| | shutdown wakes workers only | `PoolProtocol.ReleasedIffFewSleepers` |
| `include/recovery/blockmap.h:16`: `exemplar_block` is the exemplar of the group | it is the sort predecessor | `DuplicateForest.ExemplarIsLeaderIffNoTriple`, `DuplicateForest.ThirdOfThreeMissesLeader` |
| | a second search may make cycles, unless the first found nothing | `DuplicateForest.SecondSearchSafeIffNoDuplicates`, `DuplicateForest.SecondSearchMakesCycle` |
| PNG Specification, section 11.2.5: IEND is empty | any IEND is accepted, its data not counted | `Png.VerdictIsLocalIffEndIsEmpty`, `Png.CutEndIsNoFile` |
| ITU-T T.81, section B.1.1.2: fill bytes before a marker | a fill byte is read as a marker with a length, so most runs of fill bytes hide the marker behind them | `Jpeg.FilledAcceptedIffJumpsFit` for the final EOI, `Jpeg.FillHarmlessIff` for any other marker |
| `include/audit/audit_log.h:42-43`: hashes are derived again | only the links are compared | `AuditLogs.EditsGoUnnoticed` |
| `src/audit/audit_log.c:88-89`: any change breaks the chain | the ends can be cut off, notes rewritten, text moved between neighbouring fields | `AuditLogs.DroppedRecord`, `AuditRecords.NotesAreNotBound`, `AuditRecords.PairDeterminedIff` |
| `include/file_eraser/folder_eraser.h:20`: `files_succeeded` | a file that is overwritten and cannot be unlinked counts as well | `FolderEraser.SucceededAreGoneIff`, `FolderEraser.UnlinkFailureIsSuccess` |
| `include/recovery/block_state.h`: deserialisation of a buffer of a given length | the length is not tested before the header is read | `BlockStates.ReadsInBufferIffReadable`, `BlockStates.ShortBufferIsArbitrary` |
| `include/sanitization/verification.h`: `verification_passed` | true when no block read so far mismatched, read errors or not | `Verification.PassedIffReachedBlocksMatch`, `Verification.TrustedIffAllRead` |
| | a priority update repairs the heap around the candidate's first slot only | `PriorityHeap.UpdateKeepsHeapIff` |
| `include/sanitization/block_erase.h:10`: device erase is not implemented | it is | `BlockErase.EraseDevice` |
| `include/testing/test_image_gen.h`: five placement patterns | the last three are placed like the first, contiguously | `ImageBlocks.GapOf`, used by `TestImages.ImageBuilder.Embed` |
| | a gap file of one block records a start block it does not use; the room check forgets the gap | `ImageBlocks.StartBlockIsFirstBlock`, `ImageBlocks.BlocksInImageIffGapFits`, `TestImages.ImageBuilder.Embed` |

## Model

| member | source | states |
|---|---|---|
| WorkerPools.WorkerPool.Create | secure_eraser/src/recovery/worker_pool.c:59-66 | No pool for zero threads or zero queue space; otherwise a new, empty, open pool. |
| WorkerPools.WorkerPool.AcquireTask | secure_eraser/src/recovery/worker_pool.c:30-43 | One lock acquisition by a worker refines the abstract FIFO: sleep when empty, leave when empty and shut down, otherwise take the oldest pending task and count it active. |
| WorkerPools.WorkerPool.CompleteTask | secure_eraser/src/recovery/worker_pool.c:49-54 | Completion lowers the active count; the idle signal is sent exactly when nothing is queued or running. |
| WorkerPools.WorkerPool.SubmitTask | secure_eraser/src/recovery/worker_pool.c:115-129 | One lock acquisition by a submitter refines the FIFO: refused after shutdown, blocked when full, otherwise appended at the back. |
| WorkerPools.WorkerPool.WaitIdleCheck | secure_eraser/src/recovery/worker_pool.c:135 | The wait condition is exactly that the pool is idle. |
| WorkerPools.WorkerPool.Destroy | secure_eraser/src/recovery/worker_pool.c:94-97 | Shutdown changes the flag and nothing else. |
| WorkerPools.RingPush | secure_eraser/src/recovery/worker_pool.c:123-126 | Writing at the tail slot appends to the ring's contents read from head. |
| WorkerPools.RingPop | secure_eraser/src/recovery/worker_pool.c:38-40 | Advancing head drops the first element of the ring's contents. |
| WorkerPools.SlotIsRemainder | secure_eraser/src/recovery/worker_pool.c:39 | The slot i places after head is `(head + i) % queue_size`. |
| WorkerPools.SlotNext | secure_eraser/src/recovery/worker_pool.c:125 | Stepping the tail by one modulo the size keeps it `count` places after head. |
| PoolProtocol.StepKeepsInv | secure_eraser/src/recovery/worker_pool.c:27-139 | Every step of every thread keeps the system invariant: task bookkeeping, no lost wakeup, workers leave only when drained, no idle sleeper. |
| PoolProtocol.ExactlyOnceFifo | secure_eraser/src/recovery/worker_pool.c:30-55 | On every run, started tasks followed by the queue are the accepted tasks in order; started tasks are each completed or in one worker's hand; the active count is the number of busy workers. |
| PoolProtocol.EverySubmissionAnswered | secure_eraser/src/recovery/worker_pool.c:113-130 | On every run the tasks submitted are those accepted, those refused and those in their submitters' hands, with multiplicity; none is refused before shutdown. |
| PoolProtocol.SubmitterChoices | secure_eraser/src/recovery/worker_pool.c:115-129 | A submitter with the lock is refused exactly after shutdown, sleeps exactly in an open pool whose queue is full, and otherwise its task is the new last of the queue. |
| PoolProtocol.WorkerChoices | secure_eraser/src/recovery/worker_pool.c:30-43 | A worker with the lock sleeps exactly in an open pool without work, leaves exactly a closed one without work, and otherwise takes the first of the queue. |
| PoolProtocol.CompletionChoices | secure_eraser/src/recovery/worker_pool.c:49-54 | A worker that finishes signals the idle waiters exactly when nothing is queued and no worker is busy then. |
| PoolProtocol.NeverAllAsleep | secure_eraser/src/recovery/worker_pool.c:27-57 | Before shutdown, with work queued some worker is awake or busy; with space free and a sleeping submitter some submitter is awake; a sleeper means at least as many awake as there is work or space. |
| PoolProtocol.IdleBarrier | secure_eraser/src/recovery/worker_pool.c:132-139 | When `wait_idle` returns, the completed tasks are exactly the accepted ones and no worker is busy. |
| PoolProtocol.IdleNoticedIffSoleWaiter | secure_eraser/src/recovery/worker_pool.c:49-54 | That no waiter sleeps in an idle pool holds on all runs if and only if there is at most one waiter. |
| PoolProtocol.SecondWaiterMissesIdle | secure_eraser/src/recovery/worker_pool.c:51-53 | With two or more waiters, a run that leaves one asleep in an idle pool. |
| PoolProtocol.DrainStep | secure_eraser/src/recovery/worker_pool.c:30-55 | After shutdown each dequeue, completion or exit lowers the drain measure by one and every other step leaves it. |
| PoolProtocol.DrainProgress | secure_eraser/src/recovery/worker_pool.c:30-57 | After shutdown, while a worker lives, some worker move is enabled. |
| PoolProtocol.ShutdownDrains | secure_eraser/src/recovery/worker_pool.c:92-101 | From any shutdown, the worker moves are bounded by the measure, there is no deadlock before its end, and when all workers have left every accepted task has run once, in order. |
| PoolProtocol.SleepersAfterDrain | secure_eraser/src/recovery/worker_pool.c:92-101 | The submitters asleep after any drain are at most the excess of sleepers over queued tasks at shutdown, and exactly that unless some woke spuriously. |
| PoolProtocol.QuietDrain | secure_eraser/src/recovery/worker_pool.c:27-57 | From every state after shutdown some run without spurious wakeups drains the pool. |
| PoolProtocol.ReleasedIffFewSleepers | secure_eraser/src/recovery/worker_pool.c:92-101 | Every drain leaves no submitter asleep if and only if at shutdown the sleepers were no more than the queued tasks. |
| PoolProtocol.StrandingHappens | secure_eraser/src/recovery/worker_pool.c:96 | A run in which shutdown finds more sleeping submitters than queued tasks. |
| PromisingQueues.PromisingQueue.constructor | secure_eraser/src/recovery/promising_queue.c:8-18 | A new queue is empty and open, with the capacity asked for, or 16 for 0. |
| PromisingQueues.PromisingQueue.HeapifyUp | secure_eraser/src/recovery/promising_queue.c:47-59 | The in-place loop is the sift-up of the heap algebra and touches nothing past the heap. |
| PromisingQueues.PromisingQueue.HeapifyDown | secure_eraser/src/recovery/promising_queue.c:61-79 | The in-place loop is the sift-down of the heap algebra; it terminates. |
| PromisingQueues.PromisingQueue.Enqueue | secure_eraser/src/recovery/promising_queue.c:84-112 | Refused after shutdown, out of memory only when the array is full, otherwise the candidate is pushed; a failure changes nothing. |
| PromisingQueues.PromisingQueue.Grow | secure_eraser/src/recovery/promising_queue.c:93-102 | Growing doubles the capacity and keeps the contents. |
| PromisingQueues.PromisingQueue.Dequeue | secure_eraser/src/recovery/promising_queue.c:117-140 | The root is handed out and popped; an empty queue waits, or reports NOT_FOUND after shutdown, unchanged. |
| PromisingQueues.PromisingQueue.FindUuid | secure_eraser/src/recovery/promising_queue.c:156-157 | The first slot with the uuid. |
| PromisingQueues.PromisingQueue.Remove | secure_eraser/src/recovery/promising_queue.c:152-170 | Succeeds exactly when some held candidate has the uuid, and then removes the first such slot. |
| PromisingQueues.PromisingQueue.RemoveSlot | secure_eraser/src/recovery/promising_queue.c:158-163 | Moving the last entry over the slot and sifting down, then up, is the algebra's removal. |
| PromisingQueues.PromisingQueue.UpdatePriority | secure_eraser/src/recovery/promising_queue.c:183-198 | Succeeds exactly when some held candidate has the uuid; the candidate's own priority changes, in every slot that points to it, and the slot is sifted down, then up. |
| PromisingQueues.PromisingQueue.Shutdown | secure_eraser/src/recovery/promising_queue.c:221-227 | Shutdown changes the flag and nothing else. |
| PriorityHeap.SiftUpRepairs | secure_eraser/src/recovery/promising_queue.c:47-59 | Sift-up turns a heap that is broken only above the slot into a heap. |
| PriorityHeap.SiftDownRepairs | secure_eraser/src/recovery/promising_queue.c:61-79 | Sift-down turns a heap that is broken only below the slot into a heap, and leaves all earlier slots alone. |
| PriorityHeap.RepairAnywhere | secure_eraser/src/recovery/promising_queue.c:160-163 | Any value in any slot of a heap: sifting down, then up, restores the heap order everywhere. |
| PriorityHeap.PushKeepsHeap | secure_eraser/src/recovery/promising_queue.c:104-106 | Enqueue keeps the heap and adds exactly the new candidate. |
| PriorityHeap.PopKeepsHeap | secure_eraser/src/recovery/promising_queue.c:130-136 | Dequeue keeps the heap, removes exactly the root, and the root has the least priority number of all. |
| PriorityHeap.RemoveKeepsHeap | secure_eraser/src/recovery/promising_queue.c:158-163 | Removal at any slot keeps the heap and removes exactly that candidate. |
| PriorityHeap.UpdateKeepsHeap | secure_eraser/src/recovery/promising_queue.c:189-191 | A new priority, higher or lower, for a candidate in one slot keeps the heap and changes exactly that candidate. |
| PriorityHeap.UpdateKeepsHeapIff | secure_eraser/src/recovery/promising_queue.c:183-198 | For a candidate that may be in several slots, the repair around its first slot leaves a heap if and only if the edges at its other slots allow the new priority, which can be read off the heap before. |
| PriorityHeap.HeldOnceIsKept | secure_eraser/src/recovery/promising_queue.c:189-191 | With no other slot that condition always holds. |
| PriorityHeap.UpdateContents | secure_eraser/src/recovery/promising_queue.c:189-191 | An update changes the candidate's priority in all its slots and moves the rest only. |
| PriorityHeap.UpdateNeedsDistinctCandidates | secure_eraser/src/recovery/promising_queue.c:189-191 | A heap with a candidate in two slots whose order an update breaks. |
| PriorityHeap.DrainSorts | secure_eraser/src/recovery/promising_queue.c:117-140 | Dequeuing until empty yields a sorted permutation of the contents. |
| QueueProtocol.StepKeepsConserved | secure_eraser/src/recovery/promising_queue.c:84-198 | Every locked operation conserves every candidate, however often it is held. |
| QueueProtocol.StepContents | secure_eraser/src/recovery/promising_queue.c:84-140 | An enqueue adds its entry, a dequeue takes the root, and only removals and updates change the contents otherwise. |
| QueueProtocol.RemovalContents | secure_eraser/src/recovery/promising_queue.c:152-170 | A removal takes the first entry with the uuid and logs its candidate; it changes nothing only when no entry has the uuid. |
| QueueProtocol.RemovalTakesOne | secure_eraser/src/recovery/promising_queue.c:152-170 | A uuid that is held: the removal lowers the copies of its candidate by one, raises its removals by one, and leaves every other candidate alone. |
| QueueProtocol.UpdatedContents | secure_eraser/src/recovery/promising_queue.c:183-198 | An update gives every entry of the candidate found the new priority; it changes nothing only when no entry has the uuid. |
| QueueProtocol.StepKeepsHeap | secure_eraser/src/recovery/promising_queue.c:84-198 | Every locked operation keeps the heap order, a priority update if and only if the candidate's other slots allow it. |
| QueueProtocol.StepKeepsWakeups | secure_eraser/src/recovery/promising_queue.c:108-128 | Every locked operation keeps enough dequeuers awake for the held candidates; after shutdown none sleeps. |
| QueueProtocol.QueueIsSafe | secure_eraser/src/recovery/promising_queue.c:84-198 | On every run each candidate's enqueues equal its dequeues, removals and copies still held; the heap is in order throughout if and only if every update of the run keeps it; and then every dequeue returns a least candidate. |
| QueueProtocol.NoReentryKeepsOrder | secure_eraser/src/recovery/promising_queue.c:84-198 | Every update keeps the order when no candidate is enqueued while it is held. |
| QueueProtocol.NoLostWakeup | secure_eraser/src/recovery/promising_queue.c:108-128 | On every run, a sleeping dequeuer means as many awake ones as candidates; after shutdown no dequeuer sleeps. |
| QueueProtocol.ShutdownDrainsInOrder | secure_eraser/src/recovery/promising_queue.c:117-140 | From a heap in order at shutdown, without edits, the candidates handed out so far followed by the drain of the rest are the drain at shutdown, in any interleaving. |
| QueueProtocol.NotFoundMeansDrained | secure_eraser/src/recovery/promising_queue.c:125-128 | When a dequeuer is told NOT_FOUND, after a run whose updates kept the order, everything held at shutdown has come out, in ascending priority. |
| Blockmaps.Blockmap.Create | secure_eraser/src/recovery/blockmap.c:6-21 | A map of zero blocks or without memory is refused; a new map has two separate arrays of blocks without marks, hash or reservation. |
| Blockmaps.Blockmap.SetCovered | secure_eraser/src/recovery/blockmap.c:37-43 | Changes one flag of one shadow block, or nothing when out of range. |
| Blockmaps.Blockmap.SetHash | secure_eraser/src/recovery/blockmap.c:45-53 | Stores the hash, or its first 64 characters if it is longer, and the computed flag in one shadow block, or nothing when out of range. |
| Blockmaps.Blockmap.SetZero | secure_eraser/src/recovery/blockmap.c:55-61 | Changes one flag of one shadow block, or nothing when out of range. |
| Blockmaps.Blockmap.Release | secure_eraser/src/recovery/blockmap.c:80-88 | A release lowers one positive reservation count by one and leaves a zero count and every other block alone; out of range it is refused. |
| Blockmaps.Blockmap.MergeShadow | secure_eraser/src/recovery/blockmap.c:95-101 | The committed map becomes the shadow map. |
| Blockmaps.Blockmap.ComputeHashes | secure_eraser/src/recovery/blockmap.c:103-133 | Each readable block gets its hash, whole up to 64 characters, and its zero flag; each unreadable one keeps its entry; marks, covered flags and reservations stay; and the result is committed. |
| Blockmaps.Blockmap.Collect | secure_eraser/src/recovery/blockmap.c:153-160 | The sort buffer holds the hashed non-zero blocks in block order. |
| Blockmaps.Blockmap.LinkShadow | secure_eraser/src/recovery/blockmap.c:164-175 | The in-place linking loop is the linking function on values. |
| Blockmaps.Blockmap.FindDuplicatesInMap | secure_eraser/src/recovery/blockmap.c:147-179 | For any result a sort may give, collecting, sorting, linking and merging make both arrays the linked map. |
| Blockmaps.Blockmap.DuplicateCountOf | secure_eraser/src/recovery/blockmap.c:199-206 | The number of committed blocks marked duplicate. |
| Blockmaps.Blockmap.CoveredCount | secure_eraser/src/recovery/blockmap.c:181-188 | The number of committed blocks marked covered. |
| Blockmaps.SameRootIffSameContent | secure_eraser/src/recovery/blockmap.c:103-179 | Hash a new map with a hash of 64 characters and link it: two readable non-zero blocks have the same root exactly when the hashes of their bytes agree, hence exactly when their bytes agree unless these are a collision; the root is such a block too. |
| Blockmaps.SameRootIffSameStored | secure_eraser/src/recovery/blockmap.c:45-179 | The same for any hash function, with what is stored of the hashes. |
| Blockmaps.StoredHash | secure_eraser/src/recovery/blockmap.c:48 | A hash of at most 64 characters is stored whole, a longer one as its first 64. |
| Blockmaps.LinkingIsAlwaysPossible | secure_eraser/src/recovery/blockmap.c:153-162 | A sort result exists for every map, and blocks without a hash or all zero are left as they were. |
| DuplicateForest.SortedBlocks | secure_eraser/src/recovery/blockmap.c:153-162 | After any sort each hashed non-zero block is in the buffer once, with its hash. |
| DuplicateForest.CollectedIs | secure_eraser/src/recovery/blockmap.c:153-160 | The buffer before the sort holds, in block order, exactly the blocks with a hash that are not zero. |
| DuplicateForest.NotAfterIsLexicographic | secure_eraser/src/recovery/blockmap.c:141-145 | The order of the sort: one hash is a prefix of the other, or smaller where they first differ. |
| DuplicateForest.LinkedAt | secure_eraser/src/recovery/blockmap.c:164-175 | Which block the loop marks duplicate, what it points to, and which it marks exemplar. |
| DuplicateForest.LinkedElsewhere | secure_eraser/src/recovery/blockmap.c:164-175 | Linking touches the three marks of blocks in the buffer and nothing else. |
| DuplicateForest.ChainsEnd | secure_eraser/src/recovery/blockmap.c:147-179 | Whatever the order of ties, following `exemplar_block` from a hashed non-zero block ends at a non-duplicate block of the same hash, when the first of each group was unmarked. |
| DuplicateForest.ChainsEndIffLeadersUnmarked | secure_eraser/src/recovery/blockmap.c:147-179 | For a given sort, on any map, all chains end so if and only if the sort puts an unmarked block first in each group; a map without marks always qualifies. |
| DuplicateForest.AlwaysEndsIffNoneMarked | secure_eraser/src/recovery/blockmap.c:147-179 | On any map, all chains end so for every sort if and only if no hashed non-zero block is marked as a duplicate yet. |
| DuplicateForest.SecondSearchSafeIffNoDuplicates | secure_eraser/src/recovery/blockmap.c:147-179 | A second search over the same map is safe for every sort if and only if no two hashed non-zero blocks share a hash. |
| DuplicateForest.SecondSearchMakesCycle | secure_eraser/src/recovery/blockmap.c:164-175 | Two equal blocks, searched twice with the tie broken both ways: each is the duplicate of the other. |
| DuplicateForest.SecondSearchIffSameLeaders | secure_eraser/src/recovery/blockmap.c:147-179 | For given sorts, a second search is safe if and only if both put the same block first in each group. |
| DuplicateForest.SameRootIffSameHash | secure_eraser/src/recovery/blockmap.c:164-175 | Two hashed non-zero blocks reach the same root exactly when their hashes are equal. |
| DuplicateForest.DuplicateCount | secure_eraser/src/recovery/blockmap.c:199-206 | The duplicate count is the hashed non-zero blocks less the distinct hashes. |
| DuplicateForest.ExemplarIffPointedTo | secure_eraser/src/recovery/blockmap.c:170-172 | A block is marked exemplar exactly when some duplicate points to it. |
| DuplicateForest.ThirdOfThreeMissesLeader | secure_eraser/include/recovery/blockmap.h:14-16 | Of three equal blocks the third points to the second, a duplicate itself. |
| DuplicateForest.ExemplarIsLeaderIffNoTriple | secure_eraser/include/recovery/blockmap.h:14-16 | Every duplicate points to a non-duplicate if and only if no three hashed non-zero blocks share a hash. |
| Gif.Validate | secure_eraser/src/formats/gif_validator.c:12-59 | The loop's verdict and size are those of the walk over blocks and sub-blocks. |
| Gif.AcceptsStream | secure_eraser/src/formats/gif_validator.c:25-58 | Every encoded GIF stream, followed by anything, is VALIDATES with exactly its length. |
| Gif.ReadStream | secure_eraser/src/formats/gif_validator.c:25-58 | Whatever VALIDATES begins with an encoded GIF stream of the reported length. |
| Gif.ValidatesIffStream | secure_eraser/src/formats/gif_validator.c:12-59 | VALIDATES with size p if and only if the first p bytes encode a GIF data stream. |
| Gif.TableBytes | secure_eraser/src/formats/gif_validator.c:19-38 | The bytes skipped for a colour table are those of the colours announced: 2^(b + 1) of three bytes each for a packed byte with its highest bit set and lowest bits b, none otherwise. |
| Gif.PromisingIsCutOff | secure_eraser/src/formats/gif_validator.c:25-58 | Data with a signature and a whole colour table that do not validate are PROMISING: whole blocks, and then neither a trailer nor a whole block, with the size reported there. |
| Gif.TableCutOff | secure_eraser/src/formats/gif_validator.c:18-58 | A global colour table that goes on past the data: PROMISING with the size the table would need. |
| Gif.UnparsedIff | secure_eraser/src/formats/gif_validator.c:13-16 | INVALID exactly below 14 bytes or without one of the two signatures. |
| Gif.VerdictIsLocal | secure_eraser/src/formats/gif_validator.c:25-58 | The reported size is within the data, and the carved bytes alone or followed by anything get the same verdict and size. |
| Jpeg.Validate | secure_eraser/src/formats/jpeg_validator.c:18-50 | The loop's verdict and size are those of the marker walk. |
| Jpeg.AcceptsStream | secure_eraser/src/formats/jpeg_validator.c:25-49 | Every encoded marker stream, followed by anything, is VALIDATES with exactly its length. |
| Jpeg.ReadStream | secure_eraser/src/formats/jpeg_validator.c:25-49 | Whatever VALIDATES begins with an encoded marker stream of the reported length. |
| Jpeg.ValidatesIffStream | secure_eraser/src/formats/jpeg_validator.c:18-50 | VALIDATES with size p if and only if the first p bytes are a marker stream from SOI to EOI. |
| Jpeg.PromisingIffScanned | secure_eraser/src/formats/jpeg_validator.c:25-49 | Data that begin with SOI and do not validate are whole tokens and something cut off: PROMISING exactly when one of the tokens starts a scan, INVALID otherwise, with the size reported there. |
| Jpeg.UnparsedIff | secure_eraser/src/formats/jpeg_validator.c:19-20 | Not looked at further exactly below 4 bytes or without SOI. |
| Jpeg.VerdictIsLocal | secure_eraser/src/formats/jpeg_validator.c:25-49 | The reported size is within the data, and the carved bytes alone or followed by anything get the same verdict and size. |
| Jpeg.FilledAcceptedIffJumpsFit | secure_eraser/src/formats/jpeg_validator.c:25-47 | With k fill bytes before the final EOI and anything after the file, the file is accepted with its exact length if and only if k is a multiple of 65537. |
| Jpeg.FillByteHidesTheEnd | secure_eraser/src/formats/jpeg_validator.c:30-46 | In particular not for one fill byte, and for 65537. |
| Jpeg.OneFillByteLast | secure_eraser/src/formats/jpeg_validator.c:30-46 | A file with one fill byte before an EOI that ends the data is not VALIDATES at all. |
| Jpeg.FillHarmlessIff | secure_eraser/src/formats/jpeg_validator.c:25-47 | With k fill bytes before any other marker of a file, the file is accepted with its exact length, whatever the marker's segment holds and whatever follows, if and only if k is a multiple of 65537, or one or two less than one and no length follows the marker. |
| Png.Validate | secure_eraser/src/formats/png_validator.c:19-48 | The loop's verdict and size are those of the chunk walk. |
| Png.AcceptsFile | secure_eraser/src/formats/png_validator.c:26-47 | Every IHDR-first, CRC-correct chunk list ending in IEND, followed by anything, is VALIDATES, with a size of twelve bytes past the start of IEND. |
| Png.ReadFile | secure_eraser/src/formats/png_validator.c:26-47 | Whatever VALIDATES begins with such a chunk list. |
| Png.ValidatesIffFile | secure_eraser/src/formats/png_validator.c:19-48 | VALIDATES with size p if and only if the data begin with such a list and p is its length less the data of IEND. |
| Png.PromisingIffCutOff | secure_eraser/src/formats/png_validator.c:23-47 | PROMISING with size p if and only if the data start with a whole IHDR and ordinary chunks of length p and no whole chunk follows. |
| Png.VerdictIsLocalIffEndIsEmpty | secure_eraser/src/formats/png_validator.c:39-42 | The carved bytes alone decide the verdict, whatever follows, if and only if the IEND length is zero. |
| Png.CutEndIsNoFile | secure_eraser/src/formats/png_validator.c:39-42 | For every CRC function and any non-empty IEND data: a file that is accepted and whose carved bytes are not. |
| Png.CrcCoversChunk | secure_eraser/src/formats/png_validator.c:30 | For lengths the specification allows, the 32-bit `length + 4` covers all of type and data. |
| Png.CrcCoversIff | secure_eraser/src/formats/png_validator.c:30 | The 32-bit length plus four covers all of type and data if and only if it does not wrap round, and at most three bytes otherwise. |
| Png.Names | secure_eraser/src/formats/png_validator.c:21-39 | Signature and chunk types are those of the standard. |
| FileMirrors.FileMirror.Open | secure_eraser/src/recovery/file_mirror.c:10-33 | Block size 0 and an unreadable image are refused; a new mirror covers nothing and shows every whole block. |
| FileMirrors.FileMirror.MarkCovered | secure_eraser/src/recovery/file_mirror.c:66-73 | One flag of a block in range is set, every other stays, and the cached count stays exact. |
| FileMirrors.FileMirror.UnmarkCovered | secure_eraser/src/recovery/file_mirror.c:75-82 | One flag of a block in range is cleared, every other stays, and the cached count stays exact. |
| FileMirrors.FileMirror.ApparentToActual | secure_eraser/src/recovery/file_mirror.c:91-104 | The counting loop computes the select function. |
| FileMirrors.FileMirror.ActualToApparent | secure_eraser/src/recovery/file_mirror.c:106-116 | The counting loop computes the rank function. |
| FileMirrors.FileMirror.ReadApparentBlock | secure_eraser/src/recovery/file_mirror.c:46-64 | Out of range is refused; otherwise the bytes of the image at the k-th uncovered block, byte for byte, or an I/O error exactly when `pread` falls short. |
| FileMirrors.FileMirror.ReadActualBlock | secure_eraser/src/recovery/file_mirror.c:46-54 | A block past the last whole one is refused; otherwise its bytes, or an I/O error exactly when `pread` falls short. |
| FileMirrors.ReadsGiveImageCutOut | secure_eraser/src/recovery/file_mirror.c:46-64 | The reads of apparent blocks 0, 1 and so on give, one after the other, the whole blocks of the image with the covered ones cut out. |
| FileMirrors.NothingCutOut | secure_eraser/src/recovery/file_mirror.c:46-64 | With nothing covered that is the image up to its last whole block. |
| FileMirrors.CountStaysExact | secure_eraser/src/recovery/file_mirror.c:66-82 | After any marks and unmarks the cached count is the number of uncovered blocks. |
| FileMirrors.MapsAreInverse | secure_eraser/src/recovery/file_mirror.c:91-116 | The maps are inverse bijections between apparent indices and uncovered blocks; the sentinel is unreachable for indices in range. |
| FileMirrors.MapsAreIncreasing | secure_eraser/src/recovery/file_mirror.c:91-104 | The maps are strictly increasing. |
| FileMirrors.CoveringShifts | secure_eraser/src/recovery/file_mirror.c:66-73 | Covering a block lowers by one exactly the apparent indices of the uncovered blocks after it. |
| FileMirrors.CoverThenUncover | secure_eraser/src/recovery/file_mirror.c:66-82 | Uncovering undoes covering. |
| FileMirrors.ApparentViewIsTheUncoveredBlocks | secure_eraser/src/recovery/file_mirror.c:91-104 | Apparent block k is the k-th uncovered block in image order. |
| BlockErase.ClampBlockSize | secure_eraser/src/sanitization/block_erase.c:114-120 | A size from 512 bytes to 64 MiB is kept, a smaller one becomes 1 MiB, a larger one 64 MiB. |
| BlockErase.ClampPasses | secure_eraser/src/sanitization/block_erase.c:122-124 | A number from 1 to 35 is kept, 0 becomes 1, a larger one 35. |
| BlockErase.FillPattern | secure_eraser/src/sanitization/block_erase.c:37-60 | The buffer holds the pattern; only the random generator can fail. |
| BlockErase.WriteImageChunk | secure_eraser/src/sanitization/block_erase.c:194-200 | One write: success exactly when all of the chunk lands, and only the landed bytes change. |
| BlockErase.WriteDeviceChunk | secure_eraser/src/sanitization/block_erase.c:381-398 | Short writes are continued; success exactly when all of the chunk lands, and only the landed bytes change. |
| BlockErase.ErasePass | secure_eraser/src/sanitization/block_erase.c:171-220 | A pass patterns exactly its landed prefix, counts whole chunks, reports each of them, succeeds when every call does, and otherwise says which call failed at which byte. |
| BlockErase.EraseTarget | secure_eraser/src/sanitization/block_erase.c:163-240 | At any stop, with c completed passes: c * size <= bytes <= (c + 1) * size, the target shows exactly c passes and the landed prefix of the next, success exactly when all passes completed, reports increase within the total. |
| BlockErase.EraseImage | secure_eraser/src/sanitization/block_erase.c:92-240 | The guarantee and explanation above for regular non-empty files with clamped options; every refused request leaves the target untouched. |
| BlockErase.EraseDevice | secure_eraser/src/sanitization/block_erase.c:242-433 | The guarantee and explanation above for a device that is confirmed by its path, a block device, writable, not mounted, open and not empty; otherwise not a byte changes, and the code is that of the first check that fails. |
| BlockErase.FilledAfterOnePass | secure_eraser/src/sanitization/block_erase.c:169-227 | Once one constant pass completed, every byte is the fill byte, however later passes end. |
| BlockErase.LastPassRemains | secure_eraser/src/sanitization/block_erase.c:169-227 | A successful random erase leaves the bytes of its last pass. |
| BlockErase.CounterExactIffItFits | secure_eraser/src/sanitization/block_erase.c:202-235 | On success the 64-bit counter is size times passes if and only if that fits. |
| BlockErase.UntouchedPastFailure | secure_eraser/src/sanitization/block_erase.c:169-227 | A failure in the first pass leaves the bytes past the last landed one as they were. |
| Verification.VerifyBlock | secure_eraser/src/sanitization/verification.c:89-96 | A block is good exactly when all its bytes, the short last block's too, are the expected one. |
| Verification.VerifyConstant | secure_eraser/src/sanitization/verification.c:34-111 | The stepped loop with its early exits gives the summary function. |
| Verification.VerifyImagePattern | secure_eraser/src/sanitization/verification.c:115-160 | A random pattern is unsupported; otherwise the readback with the clamped block size. |
| Verification.SummaryIs | secure_eraser/src/sanitization/verification.c:34-160 | Every field of the summary in terms of the file and the calls: what was checked and failed, why the loop stopped, the scope; a random pattern and an empty file never pass. |
| Verification.BlocksPartition | secure_eraser/src/sanitization/verification.c:47-79 | Each byte of the file lies in exactly one block. |
| Verification.FullPassIffAllBytes | secure_eraser/src/sanitization/verification.c:68-105 | Without I/O errors a verification that is not sampled checks every block and passes exactly when every byte is the fill byte. |
| Verification.CompletedFullPassIsSound | secure_eraser/src/sanitization/verification.c:68-110 | Whatever the I/O, a completed full verification that passed means every byte is the fill byte. |
| Verification.SamplePassIffSampledBlocks | secure_eraser/src/sanitization/verification.c:54-105 | A sampled verification passes exactly when the blocks at multiples of the step match, block 0 among them. |
| Verification.SampleGaps | secure_eraser/src/sanitization/verification.c:68 | Every block has a sampled block less than one step before it. |
| Verification.SampleSize | secure_eraser/src/sanitization/verification.c:54-58 | A sample checks all blocks up to 16, and otherwise the rounded-up quotient by the step, between 16 and 31. |
| Verification.SuccessfulEraseVerifies | secure_eraser/src/sanitization/verification.c:115-160 | After a successful erase with ZERO or ONE, verification passes without failed blocks in every mode and with every block size. |
| Verification.PassedIffReachedBlocksMatch | secure_eraser/src/sanitization/verification.c:68-105 | In every mode and whatever the I/O does, `verification_passed` if and only if all blocks match that were visited before a seek or read failed. |
| Verification.FullPassedIffReachedBlocksMatch | secure_eraser/src/sanitization/verification.c:68-105 | For a readback that is not sampled: if and only if each block matches up to which every seek and read works. |
| Verification.TrustedIffAllRead | secure_eraser/src/sanitization/verification.c:68-105 | A passed verdict means a filled file, for every file of a size, if and only if every block's seek and read works. |
| Verification.CompletedIffAllVisitsRead | secure_eraser/src/sanitization/verification.c:68-85 | The status is free of error exactly when every visited block's seek and read works. |
| Verification.PassedWithoutReading | secure_eraser/src/sanitization/verification.c:105 | In particular, when the first read fails `verification_passed` is true of every file. |
| AuditRecords.CanonicalInjective | secure_eraser/src/audit/audit.c:57-84 | Without bars in the text fields, equal canonical strings mean equal included fields, and conversely. |
| AuditRecords.CanonicalParts | secure_eraser/src/audit/audit.c:57-84 | Between its bars the canonical string of a record without bars in its texts holds the 21 fields, in the code's order, each behind its name. |
| AuditRecords.PairDeterminedIff | secure_eraser/src/audit/audit.c:57-85 | For any two neighbouring text fields: among records that differ in these only, with texts below given lengths, the canonical string determines both if and only if no text past a bar and the second field's label inside one of them can move to the other and fit. |
| AuditRecords.PairDeterminedIffNoLabel | secure_eraser/src/audit/audit.c:57-85 | With no bound on the texts, if and only if neither contains a bar followed by that label. |
| AuditRecords.RenderPair | secure_eraser/src/audit/audit.c:57-84 | For any two neighbouring fields: records that differ in these only have one canonical string exactly when the joined fields agree. |
| AuditRecords.BarsConfuseFields | secure_eraser/src/audit/audit.c:57-66 | Such pairs of records for any two neighbouring text fields: text moves between them with the same canonical string. |
| AuditRecords.CanonicalFits | secure_eraser/src/audit/audit.c:86-88 | Every record that its structure can hold fits the 4096-byte buffer: the overflow exit is dead. |
| AuditRecords.AuditRecord.Finalize | secure_eraser/src/audit/audit.c:41-99 | Sets the previous hash, whole up to 64 characters, then this hash over the canonical string; overflows exactly from 4096 characters on, which no record its structure can hold reaches. |
| AuditRecords.FinalizeExtends | secure_eraser/src/audit/audit.c:41-99 | Finalising with the last hash extends a chain and changes no field but the two hashes. |
| AuditRecords.AnyRecordsChain | secure_eraser/src/audit/audit.c:41-99 | Any records that their structure can hold can be finalised one after the other into a chain that keeps all their other fields. |
| AuditRecords.LastHashBindsChain | secure_eraser/src/audit/audit.c:57-98 | Two chains with the same last hash agree in length and in every included field of every record, or two of their canonical strings collide under the hash. |
| AuditRecords.NotesAreNotBound | secure_eraser/src/audit/audit.c:57-84 | Device id and notes of any record can change and the chain is still one. |
| AuditLogs.ExtractsMember | secure_eraser/src/audit/audit_log.c:110-133 | Substring search for a key finds the first string member of that name, in any object of clean members. |
| AuditLogs.ReadsOwnFieldIff | secure_eraser/src/audit/audit_log.c:110-124 | From the JSON line of any record at all the search finds the record's own hash field (or previous-hash field) if and only if no text written before that field holds the key with its quotes. |
| AuditLogs.ReadsOwnField | secure_eraser/src/audit/audit_log.c:110-133 | And then the validator reads that field's value, up to 64 characters. |
| AuditLogs.PlainIsLoggable | secure_eraser/src/audit/audit.c:109-159 | Text without quotes and newlines meets that condition. |
| AuditLogs.ExtractsHashes | secure_eraser/src/audit/audit.c:109-159 | From the line of a record that meets it the validator reads exactly the record's two hashes. |
| AuditLogs.JsonFits | secure_eraser/src/audit/audit_log.c:53-61 | A record's JSON text is one line and fits both 8192-byte buffers. |
| AuditLogs.LinesOfLog | secure_eraser/src/audit/audit_log.c:41-105 | Reading an appended log back line by line gives the JSON texts of the records in order. |
| AuditLogs.LastLineUnterminated | secure_eraser/src/audit/audit_log.c:93-105 | A last line without a newline is read as it is. |
| AuditLogs.LongLineIsCut | secure_eraser/src/audit/audit_log.c:93-105 | A line that does not fit the buffer is read in pieces of 8191 characters, each as a line. |
| AuditLogs.ReadHash | secure_eraser/src/audit/audit_log.c:117-120 | The copy loop takes the characters up to the quote, at most 64. |
| AuditLogs.TakenHash | secure_eraser/src/audit/audit_log.c:117-120 | The copy stops at the first quote, at the end, or after as many characters as there is room for, and no earlier. |
| AuditLogs.ValidateLine | secure_eraser/src/audit/audit_log.c:108-151 | The checks on one line are the step of the scan. |
| AuditLogs.ValidateChain | secure_eraser/src/audit/audit_log.c:70-165 | The reading loop, blank lines and early exit included, gives the verdict function on the file's lines. |
| AuditLogs.VerdictOnLines | secure_eraser/src/audit/audit_log.c:93-162 | The verdict on any lines at all: EMPTY when all are empty; VALID exactly when each other holds a hash of 64 characters and, after the first, names the hash of the one before; TAMPERED otherwise. |
| AuditJson.JsonSaysRecord | secure_eraser/src/audit/audit.c:101-190 | A JSON parser reads from the text of a record whose texts hold no quotes exactly its 24 members, each under its name with the record's own text, number or flag. |
| AuditJson.DecimalSays | secure_eraser/src/audit/audit.c:57-84 | A number is written as the digits of its value. |
| AuditLogs.VerdictOnLog | secure_eraser/src/audit/audit_log.c:93-162 | A log of records is EMPTY, or VALID exactly when hashes are whole and each record names the hash before it, or TAMPERED. |
| AuditLogs.ChainValidates | secure_eraser/src/audit/audit_log.c:70-165 | The log of a finalised chain is VALID. |
| AuditLogs.DroppedRecord | secure_eraser/src/audit/audit_log.c:135-142 | Dropping a record is noticed if and only if it is neither first nor last and its hash differs from its predecessor's. |
| AuditLogs.SwappedRecords | secure_eraser/src/audit/audit_log.c:135-142 | Exchanging two records is noticed when hashes are distinct. |
| AuditLogs.EditsGoUnnoticed | secure_eraser/include/audit/audit_log.h:42-43 | Logs with the same hash fields get the same verdict, whatever else was rewritten. |
| ImageBlocks.ChunksCount | secure_eraser/src/testing/test_image_gen.c:101 | The number of blocks reserved is the number of pieces the file is cut into. |
| ImageBlocks.BlocksInImageIffGapFits | secure_eraser/src/testing/test_image_gen.c:102-132 | The blocks of a file are strictly increasing and lie in the image if and only if the gap fits as well. |
| ImageBlocks.BlocksFollow | secure_eraser/src/testing/test_image_gen.c:117-144 | Blocks follow one another from the next free one on, but for two left out before the second half of a gap file. |
| ImageBlocks.StartBlockIsFirstBlock | secure_eraser/src/testing/test_image_gen.c:126-130 | The recorded start block is the next free one, and the first block used unless the file is a gap file of one block; the record has the file's size and one block for each piece. |
| ImageBlocks.EmbedKeepsInv | secure_eraser/src/testing/test_image_gen.c:98-161 | Embedding keeps every earlier file in place, the records ordered and disjoint, and everything else, gaps and slack, as it was before the first file. |
| ImageBlocks.PaddedWithZeros | secure_eraser/src/testing/test_image_gen.c:119-144 | A part of a file that lies in the image is padded with zeros. |
| ImageBlocks.EveryFileReadsBack | secure_eraser/src/testing/test_image_gen.c:98-161 | After any embeds every file reads back from its record, and the blocks of earlier records precede those of later ones. |
| TestImages.ImageBuilder.Create | secure_eraser/src/testing/test_image_gen.c:13-34 | Zero block size or count is refused; a new image is all zero with no records, whatever stands behind it in memory. |
| TestImages.ImageBuilder.Embed | secure_eraser/src/testing/test_image_gen.c:98-162 | Empty data and too little room are refused without a change; otherwise the invariant holds with one more record and file, no block but those of the file changes, and these all lie in the image if and only if the gap fits as well. |
| TestImages.ImageBuilder.CopyParts | secure_eraser/src/testing/test_image_gen.c:117-144 | The placement loop fills exactly the blocks of the file with its pieces. |
| TestImages.ImageBuilder.TakeBlock | secure_eraser/src/testing/test_image_gen.c:129-130 | The next free block, after the gap at the start of the second half. |
| TestImages.ImageBuilder.CopyChunk | secure_eraser/src/testing/test_image_gen.c:122 | Copying into the flat buffer changes one block and no other. |
| BlockStates.Serialize | secure_eraser/src/recovery/block_state.c:53-85 | Refused without a change when the buffer is short; otherwise 73 bytes and the format data, laid out field by field. |
| BlockStates.BlockState.Deserialize | secure_eraser/src/recovery/block_state.c:87-124 | For a buffer of any size: the outcome and every field of the decoder; a wrong magic number leaves the state, a bad length leaves only the header fields, which are read whether the buffer holds them or not. |
| BlockStates.HeaderFields | secure_eraser/src/recovery/block_state.c:65-77 | A buffer begins with the header exactly when each field lies at its offset. |
| BlockStates.LittleEndian | secure_eraser/src/recovery/block_state.c:65-77 | Numbers are written with the least significant byte first. |
| BlockStates.StartsWithMagic | secure_eraser/src/recovery/block_state.c:63-65 | The first four bytes are the text `SKLB`. |
| BlockStates.DecodeOutcome | secure_eraser/src/recovery/block_state.c:87-124 | Exactly when deserialisation succeeds and when it refuses its argument; the validity flag is set for every byte but 0. |
| BlockStates.ReadsInBufferIffReadable | secure_eraser/src/recovery/block_state.c:87-121 | Every read lies in the buffer, whatever is behind it, if and only if a buffer with the magic number has room for the whole header. |
| BlockStates.ReadableIsDetermined | secure_eraser/src/recovery/block_state.c:87-124 | Then the outcome and the state depend on the buffer only. |
| BlockStates.ShortBufferIsArbitrary | secure_eraser/src/recovery/block_state.c:87-124 | A buffer with the magic number that ends before the format length is accepted or refused according to what stands behind it. |
| BlockStates.StateRoundTrip | secure_eraser/src/recovery/block_state.c:53-124 | Deserialising what was serialised restores every field, whatever follows. |
| BlockStates.BytesRoundTripIffCanonicalFlag | secure_eraser/src/recovery/block_state.c:108-110 | Serialising what was deserialised restores the bytes if and only if the validity byte is 0 or 1. |
| FolderEraser.Eraser.Erase | secure_eraser/src/file_eraser/folder_eraser.c:106-136 | Dangerous paths and roots that are no directory are refused; otherwise the traversal from fresh counters. |
| FolderEraser.Eraser.Recurse | secure_eraser/src/file_eraser/folder_eraser.c:38-104 | One directory: depth, status, mount and cycle checks, the entry loop, removal of the directory when nothing is left and the removal works. |
| FolderEraser.Eraser.EraseOne | secure_eraser/src/file_eraser/folder_eraser.c:74-93 | What one entry adds to the counters and what is left of it; a file that is overwritten and not unlinked counts and stays. |
| FolderEraser.EraseIsAccounted | secure_eraser/src/file_eraser/folder_eraser.c:38-136 | For every tree, options and failures, those of `unlink` and `rmdir` included: no symlink or special file is lost or moved; processed, succeeded, failed and skipped count the files reached, those overwritten, the others and the links reached; the bytes are all passes over the files overwritten modulo 2^64; the files that went are those of them that could be unlinked; and the directories counted are those that went. |
| FolderEraser.SucceededAreGoneIff | secure_eraser/src/file_eraser/file_eraser.c:131-150 | With removal asked for, files_succeeded is the number of files that went if and only if none of the files overwritten fails to unlink. |
| FolderEraser.UnlinkFailureIsSuccess | secure_eraser/src/file_eraser/folder_eraser.c:79-89 | A folder with one writable file that cannot be unlinked: success, one file succeeded, none failed, nothing gone. |
| FolderEraser.SystemFoldersAreRefused | secure_eraser/src/file_eraser/folder_eraser.c:19-24 | A folder under `/dev/`, `/proc/` or `/sys/`, and no other, is refused for its path, with its whole tree and nothing counted. |
| FolderEraser.NoDirectoryTwice | secure_eraser/src/file_eraser/folder_eraser.c:50-62 | The walk remembers the first 1024 directories it comes to, and comes to none twice when there are no more. |
| FolderEraser.CodeOfDirectory | secure_eraser/src/file_eraser/folder_eraser.c:39-65 | The code for each way a directory is not entered; a directory seen before or one that fails is left as it was. |
| FolderEraser.CodeOfFolder | secure_eraser/src/file_eraser/folder_eraser.c:106-136 | Success for every folder that can be read and opened, whatever becomes of what is in it. |
| FolderEraser.DirErased | secure_eraser/src/file_eraser/folder_eraser.c:38-104 | With nothing failing, what is left of a directory is its pruned tree, and no directory is taken for a cycle. |
| FolderEraser.PruneLeavesAncestors | secure_eraser/src/file_eraser/folder_eraser.c:97-101 | Every directory left leads to a symlink or special file, and no regular file is left. |
| FolderEraser.CompleteErasure | secure_eraser/src/file_eraser/folder_eraser.c:38-136 | On one mount with distinct directory inodes, depth to spare and no failing call: exactly the symlinks, special files and their ancestor directories remain, every regular file and every symlink is counted, the bytes are all passes over all files modulo 2^64, and the folder is gone if there are no symlinks and special files. |

## Left out

- PoolProtocol.NeverAllAsleep: for submitters only before shutdown, because destroy wakes workers only; what becomes of the submitters after it is `SleepersAfterDrain` and `ReleasedIffFewSleepers`.
- PoolProtocol.ShutdownDrains: fairness of the scheduler is not modelled; the lemma bounds the moves and shows one is always possible.
- TestImages.ImageBuilder.Embed: two blocks of memory behind the image are part of the model, and a gap that leaves the image ends there; that such a write may fault or damage another object is not modelled.
- BlockStates.BlockState.Deserialize: memory behind a short buffer is readable in the model; that such a read may fault is not modelled.
- AuditLogs.ExtractsHashes: for records that meet the condition of `ReadsOwnFieldIff` and whose hashes hold no quotes; the JSON writer escapes nothing.
- AuditJson.JsonSaysRecord: for records without quotes in their texts; the writer escapes nothing.
- AuditLogs.VerdictOnLog: for records whose text also holds no newlines, which would split their lines.
- AuditRecords.PairDeterminedIff: the exact ambiguity is stated for two neighbouring text fields; across more fields only the sufficient condition of `CanonicalInjective` is.
- FolderEraser.CompleteErasure: `file_erase` overwrites its file or fails as a whole, with `unlink` an outcome of its own; the directory is listed as it was when opened, and paths longer than 1023 bytes are not truncated.
- Freeing of memory, destruction of mutexes, and calls with null pointers.
- The worker pool's thread creation; the queue's requeue and kill, which forward to enqueue and remove.
- Stdio buffering in the image erase: written bytes are on the file at once. A write interrupted by a signal is its retry; an endless series of interruptions is not modelled.
- A file that cannot be stat'ed or opened for verification; confidence notes, error texts and durations.
- Allocation failures other than those of the queue's growth, the block map and the block state.
- `blockmap_reserve` and the reservation and zero counts, and direct setting of duplicate marks: each reads off one line.
- The mirror's hash check on opening and `file_mirror_verify_integrity`.
- The block-scoring functions of the validators, and the PDF, ZIP, MP3 and ELF validators: flat scans with weak specifications.
- The SHA-256 of a ground-truth record and the file name in it; writing the synthetic image to disk.
- The SQLite audit store, timestamps and the audit directory.
- Reassembly, the recovery engine, checkpoints, output and API: stubs or forwarding.
- ATA and NVMe commands, device detection, dispatch by device type, cryptographic erase and the command line; whether a path is a block device and a device is mounted are parameters.
