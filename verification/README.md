# Proofs about the lock-free pipe and its neighbours

This project models five pieces of the `perf` repository in Dafny and proves what they promise.
`dafny verify dfyconfig.toml` checks all of it.

**The single-reader, single-writer pipe** (`lockless_pipe/LocklessPipe.hpp`) is a ring of
`PIPE_SIZE` bytes that holds records of a four-byte length and a payload. It is modelled in layers.

- `PipeLayout`: positions with unbounded lap numbers, where the writer puts a record, the admission
  test, and where each byte of each record of a history lies.
- `PipeWords`: the same computations on 32-bit and 64-bit words, and that they refine the layout.
- `PipeWalk`: decoding the bytes of the buffer with the writer's own wrap tests, and an account of
  every byte of the ring.
- `PipeProtocol`: the two threads as micro-steps, one store and one byte at a time. The writer's
  stores wait in a buffer of epochs that `MF_write_sync` separates; the stores of the oldest epoch
  reach memory in any order whatever. A run that drains each store at once is a run on ordinary
  memory, so every statement about runs covers that case as well.
- `PipeInvariant`, `PipeWriterSteps`, `PipeMemorySteps`: the invariant, and that each step keeps it.
- `PipeTheorems`, `PipeObservers`, `PipeProgress`, `PipeValidation`: what follows for every run:
  first in first out, publication, no overwriting, what peekers and queries see, release of a blocked
  push under every schedule, exactly which lengths can deadlock, and exactly when `validate` can
  report corruption where there is none.
- `Pipe`: the class itself, whose methods update its fields and its byte array in place.

The safety results hold for any cap on the length up to `PIPE_SIZE - 4` (`PipeLayout.Sound`). The
half-pipe cap of the original matters for progress only, and `PipeProgress.GetsStuckIff` gives the
exact bound: with `PIPE_SIZE` at least 11 the cap could be three bytes larger, with 10 two bytes.

`validate` is right on the reader's and on the writer's thread. On any other thread it reports
corruption in a sound pipe if one record is released between its loads of the two positions and
the writer moves to the old read offset, one lap on (`PipeValidation.OneReleaseMisreports`).

Assumptions: `PIPE_SIZE` is at least 10, so that the cap does not underflow, and
`PIPE_SIZE + PIPE_SIZE/2 - 2` is below 2^32, which `PipeWords.StandardWidthIsExact` shows to be
necessary and sufficient. `read` is declared at line 303 of the header but its body is not part of
the repository: the reader here is an assumption, the mirror of `startWrite`. It applies the same
two wrap tests after it has seen a pipe that is not empty, copies the bytes out one by one, stores
`readVPtr_`, and then counts the record. The comment of `isFull` compares the advanced write
position with `readVPtr_` itself; the code, and `PipeLayout.FullIffPastLap`, compare it with the
read offset one lap later.

**The asynchronous write test** (`async_to_sync_writes/aio_write_test.c`) is the modules `AioBatch` and
`AioProgress`: the submitting thread, the kernel and the completion thread as steps over shared
counters, a mutex and a condition variable. The wait of the submitter tests for a total that *is* a
multiple of the batch size, so it ends in mid-batch only. Its message about a completed batch is never
printed, and with batches of one the wait never ends. If a whole batch completes before the submitter
locks the mutex, the signal is lost, the completion thread has nothing left to take, and the submitter
sleeps for ever. So it can hang in its wait exactly when at least one whole batch is wanted
(`AioProgress.CanHangIff`). It always finishes exactly when some writes but less than a batch are wanted
(`AioProgress.AlwaysFinishesIff`): with none wanted it waits at the join.
The signal at the end of a batch always wakes a sleeping submitter (`AioBatch.EndOfBatchWakes`), but it
frees it only if a write of a later batch is counted before it tests again
(`AioProgress.CanBeFreedBySignalIff`); in the first batch it never does
(`AioProgress.AsleepInFirstBatchIsStuck`). A stop signal gives no last signal, a failed wait does.

**`random_at_most`** (`async_to_sync_writes/test1.c`) is the module `RandomAtMost`: exact counts of draws
for every maximum, and uniformity of the whole algorithm with its redraws.

**The bounded message** of `StreamingException` and `Errno` and **the bitmap** of `Utility.h` are the
modules `BoundedMessage` and `Bitmap`, with in-place buffers.

Integers are unbounded in Dafny; where the width matters it is written out (`PipeWords`).

## Model

| member | source | states |
|---|---|---|
| PipeLayout.FullIffPastLap | lockless_pipe/LocklessPipe.hpp:548-594 | The admission test, made from two offsets, is true exactly when the write would end at or past the read offset one lap later |
| PipeLayout.StaysNotFull | lockless_pipe/LocklessPipe.hpp:408-419 | A stale read position is safe: a pipe that is not full stays so as the reader moves on |
| PipeLayout.FinishAdvances | lockless_pipe/LocklessPipe.hpp:431-447 | No write bumps the lap number twice, and each ends inside the ring |
| PipeLayout.RecordsAreDisjoint | lockless_pipe/LocklessPipe.hpp:431-456 | Two records less than a lap apart share no byte of the buffer |
| PipeLayout.EmptyIsNeverFull | lockless_pipe/LocklessPipe.hpp:250-259 | An empty pipe takes every length up to the cap, at every offset |
| PipeLayout.EmptyIsNeverFullIff | lockless_pipe/LocklessPipe.hpp:250-259 | An empty pipe of any size is never full for a length, at any offset, if and only if twice the length and a header fit the buffer, and so do the length and two headers |
| PipeLayout.StoreKeepsRecord | lockless_pipe/LocklessPipe.hpp:431-456 | Storing any byte of a later record leaves an earlier one intact until the later one ends more than a lap ahead |
| PipeWords.ShiftsPackExactly | lockless_pipe/LocklessPipe.hpp:305-308 | The packed word has 64 bits: the lower 32 are those of the offset, the upper 32 those of the lap number |
| PipeWords.ShiftsUnpackExactly | lockless_pipe/LocklessPipe.hpp:310-318 | The unpacked lap number has the upper 32 bits of the word, the unpacked offset the lower 32 |
| PipeWords.MachineArithmetic | lockless_pipe/LocklessPipe.hpp:305-318 | Packing, sums, differences and counters as literal arithmetic at 2^32 and 2^64 |
| PipeWords.PlaceRefines | lockless_pipe/LocklessPipe.hpp:431-447 | The placement computed in wrapping 32-bit words is the one on unbounded lap numbers |
| PipeWords.FullRefines | lockless_pipe/LocklessPipe.hpp:548-594 | The admission test in 32-bit sums is the one on unbounded numbers |
| PipeWords.StandardWidthIsExact | lockless_pipe/LocklessPipe.hpp:342 | The 32-bit admission test is right for every pair of positions within a lap, and equally after every history of records of which some are read, if and only if the buffer and half of it, less two, stay below 2^32 |
| PipeWords.EmptyRefines | lockless_pipe/LocklessPipe.hpp:192-194 | Equal words mean equal positions, and the wrapped difference of lap numbers is the true one, at most one |
| PipeWalk.RecordDecodes | lockless_pipe/LocklessPipe.hpp:454-456 | Reading back what the writer stored gives the length, the payload and the next position |
| PipeWalk.WalkDecodes | lockless_pipe/LocklessPipe.hpp:294-296 | Walking the raw bytes between two positions decodes exactly the records between them, in order |
| PipeWalk.UsedBytesAreOccupied | lockless_pipe/LocklessPipe.hpp:180-187 | The numerator of the fill level is the headers, payloads and skipped bytes of the unread records, at most the buffer, and zero only when there are none; there are at most a quarter as many records as bytes |
| PipeWalk.OneWrapAtMost | lockless_pipe/LocklessPipe.hpp:433-445 | Bytes are skipped at the end of the buffer for at most one unread record |
| PipeInvariant.ClearedIsGood | lockless_pipe/LocklessPipe.hpp:382-390 | A cleared pipe satisfies the invariant of the protocol, whatever its buffer holds |
| PipeInvariant.PublishedRecordsAreComplete | lockless_pipe/MemoryFence.h:34-42 | Whenever memory shows a write position, every unread record before it is there, header and payload, in whatever order the stores drained between fences |
| PipeWriterSteps.AdmittedFits | lockless_pipe/LocklessPipe.hpp:408-447 | An admitted record ends within a lap of the reader |
| PipeWriterSteps.KeepsAdmit | lockless_pipe/LocklessPipe.hpp:431-445 | Planning a record keeps the invariant |
| PipeWriterSteps.KeepsAnnounce | lockless_pipe/LocklessPipe.hpp:447-452 | Announcing the next position before the fence keeps the invariant |
| PipeWriterSteps.KeepsStoreHeader | lockless_pipe/LocklessPipe.hpp:454-454 | Storing the length keeps it |
| PipeWriterSteps.KeepsStorePayload | lockless_pipe/LocklessPipe.hpp:85-85 | Storing the payload keeps it |
| PipeWriterSteps.KeepsCount | lockless_pipe/LocklessPipe.hpp:463-470 | Counting the record before the second fence keeps it |
| PipeWriterSteps.KeepsPublish | lockless_pipe/LocklessPipe.hpp:472-472 | Publishing the announced position keeps it |
| PipeMemorySteps.StoresDoNotClash | lockless_pipe/LocklessPipe.hpp:447-472 | Between two fences no two different stores of the writer go to the same place, so their order cannot matter |
| PipeMemorySteps.KeepsDrain | lockless_pipe/MemoryFence.h:8-32 | Letting any one store of the oldest epoch reach memory keeps the invariant |
| PipeMemorySteps.KeepsRetire | lockless_pipe/MemoryFence.h:34-42 | Passing a fence keeps it: the record whose bytes have drained is now in memory |
| PipeMemorySteps.LoadedByte | lockless_pipe/LocklessPipe.hpp:303-303 | The next byte that the assumed reader loads is the record's own |
| PipeMemorySteps.KeepsAdvance | lockless_pipe/LocklessPipe.hpp:303-303 | Releasing a record that was copied keeps the invariant |
| PipeTheorems.StepKeepsInv | lockless_pipe/LocklessPipe.hpp:394-473 | Every step of either thread and of memory keeps the invariant |
| PipeTheorems.ReachableIsGood | lockless_pipe/LocklessPipe.hpp:382-473 | Every reachable state satisfies it |
| PipeTheorems.StepRefinesQueue | lockless_pipe/LocklessPipe.hpp:82-88 | Each step is an enqueue of the next pushed record, a dequeue that delivers the head byte for byte, or invisible to the queue |
| PipeTheorems.Fifo | lockless_pipe/LocklessPipe.hpp:44-48 | Over every interleaving and drain order the records popped, followed by those still queued, are a prefix of the records pushed |
| PipeTheorems.WalkIsQueue | lockless_pipe/LocklessPipe.hpp:294-318 | In every reachable state walking memory from the read position decodes exactly the queue and lands on the write position |
| PipeTheorems.NeverOutOfBounds | lockless_pipe/LocklessPipe.hpp:431-456 | No store that drains and no byte that is loaded lies outside the buffer |
| PipeTheorems.NoOverwrite | lockless_pipe/LocklessPipe.hpp:408-456 | The bytes of an admitted record miss every byte of every unread one |
| PipeTheorems.AdmissionStands | lockless_pipe/LocklessPipe.hpp:408-431 | Once the test has passed, no step of the reader or of memory makes it fail |
| PipeTheorems.AdmittedOrSpins | lockless_pipe/LocklessPipe.hpp:408-419 | A waiting writer is admitted exactly when its record would end before the read offset one lap later, and spins exactly when it is not |
| PipeTheorems.EveryPushIsAnswered | lockless_pipe/LocklessPipe.hpp:399-429 | A record is begun with or refused as its length says, a waiting push can be stopped, and neither changes anything |
| PipeObservers.AnnouncedBeforeStored | lockless_pipe/LocklessPipe.hpp:447-454 | No byte of a record reaches memory before the announced position has moved past the record |
| PipeObservers.PeekedByteIsIntact | lockless_pipe/LocklessPipe.hpp:449-452 | A byte that a peeker copied is the record's own if the announced position, read later, has not passed the record's start one lap on, also in mid-write |
| PipeObservers.PeekedRecordIsIntact | lockless_pipe/LocklessPipe.hpp:449-452 | A whole record that a peeker copied byte by byte, at different moments, is intact, header and payload, if the word it loads from the announced position afterwards passes the test on 32-bit lap numbers |
| PipeObservers.NotPassedIsExact | lockless_pipe/LocklessPipe.hpp:305-318 | That test on words is exact while the announced position is less than 2^32 laps ahead |
| PipeObservers.UsedBytesOfQueue | lockless_pipe/LocklessPipe.hpp:180-194 | In every reachable state the emptiness test is exact and the fill level accounts for every byte of the queue |
| PipeObservers.CountIsUnread | lockless_pipe/LocklessPipe.hpp:152-154 | The count loses nothing in its cast: it is the queue's length, plus one for a record counted and not yet published, plus one for a record released and not yet counted; exact when nothing is in progress |
| PipeValidation.CountCheckIsSound | lockless_pipe/LocklessPipe.hpp:602-613 | From any thread the number read, loaded first, never exceeds the number written |
| PipeValidation.ValidOnReadersThread | lockless_pipe/LocklessPipe.hpp:598-675 | On the reader's thread validation never reports corruption, whatever the writer does between its loads |
| PipeValidation.ValidOnWritersThread | lockless_pipe/LocklessPipe.hpp:461-473 | On the writer's thread it never does either, also between counting and publishing |
| PipeValidation.ValidWithoutRelease | lockless_pipe/LocklessPipe.hpp:598-655 | On any thread, with anything happening between the four loads, all checks pass if no record is released between the loads of the two positions |
| PipeValidation.OneReleaseMisreports | lockless_pipe/LocklessPipe.hpp:615-655 | With one release in between, a run of a cleared pipe of any accepted size makes it report corruption where there is none |
| PipeValidation.CanMisreportIff | lockless_pipe/LocklessPipe.hpp:615-655 | A false report is possible with at most k releases between the two loads if and only if k is positive |
| PipeValidation.ValidIff | lockless_pipe/LocklessPipe.hpp:598-655 | For any four values, the checks pass exactly when the counts are in order and the words stand for two positions of the ring at most one lap number apart, the second not the first one lap on |
| PipeProgress.NobodyIsHeldUp | lockless_pipe/LocklessPipe.hpp:46-49 | No thread ever waits for another: in every reachable state the writer can go on or test again, the reader can go on unless it sees an empty pipe, and any store between two fences can reach memory next |
| PipeProgress.SomethingCanMove | lockless_pipe/LocklessPipe.hpp:408-419 | Until all is drained and read, memory or the reader has a step to take |
| PipeProgress.SchedulesDoWork | lockless_pipe/LocklessPipe.hpp:408-419 | Every schedule of memory and reader is exactly as long as the work it does, counted from the stores and the bytes still to read, so none goes on for ever |
| PipeProgress.EverythingArrives | lockless_pipe/LocklessPipe.hpp:367-378 | Nothing is lost under any schedule: memory and the reader come to rest after an exact number of steps, and then all that was pushed was popped |
| PipeProgress.BlockedPushIsReleased | lockless_pipe/LocklessPipe.hpp:250-259 | From any reachable state with a waiting push, every schedule of memory and reader pops the unread records within a bounded number of steps, and once they are popped the push is admitted |
| PipeProgress.LongRecordGetsStuck | lockless_pipe/LocklessPipe.hpp:254-255 | With the cap lifted, clear, push, pop reaches an empty pipe at which a push of a length that does not fit waits and no thread can help |
| PipeProgress.GetsStuckIff | lockless_pipe/LocklessPipe.hpp:250-259 | A cleared pipe can get stuck with a record of an accepted length if and only if twice the length and a header, or the length and two headers, exceed the pipe |
| Pipe.LocklessPipe.constructor | lockless_pipe/LocklessPipe.hpp:350-363 | A new pipe is consistent, empty, and running |
| Pipe.LocklessPipe.Clear | lockless_pipe/LocklessPipe.hpp:382-390 | Clearing leaves a consistent, empty pipe |
| Pipe.LocklessPipe.WaitForRoom | lockless_pipe/LocklessPipe.hpp:407-419 | The wait ends, exactly when there is room; the reader took the oldest records meanwhile, and the pipe was full at each of them |
| Pipe.LocklessPipe.StartWrite | lockless_pipe/LocklessPipe.hpp:394-457 | Too long, interrupted, no room, or granted, in that order of tests; a refusal changes nothing, a grant leaves all unread records intact |
| Pipe.LocklessPipe.FinishWrite | lockless_pipe/LocklessPipe.hpp:461-473 | The stored record joins the unread ones |
| Pipe.LocklessPipe.Push | lockless_pipe/LocklessPipe.hpp:82-88 | The record is appended after those not taken during the wait; a record that is too long, or a stopped writer, changes nothing |
| Pipe.LocklessPipe.Read | lockless_pipe/LocklessPipe.hpp:303-303 | The assumed reader returns the oldest unread record from the bytes in the buffer and leaves the rest |
| Pipe.LocklessPipe.Pop | lockless_pipe/LocklessPipe.hpp:367-378 | The oldest record, or an internal error if its length is zero |
| Pipe.LocklessPipe.IsEmpty | lockless_pipe/LocklessPipe.hpp:192-194 | True exactly when nothing is unread |
| Pipe.LocklessPipe.Count | lockless_pipe/LocklessPipe.hpp:152-154 | The number of unread records |
| Pipe.LocklessPipe.BytesUsed | lockless_pipe/LocklessPipe.hpp:180-187 | What the unread records occupy, zero exactly when there are none |
| Pipe.LocklessPipe.Validate | lockless_pipe/LocklessPipe.hpp:598-675 | The answer is yes exactly when the fields are so, and always between two calls |
| Pipe.LocklessPipe.WalkIsUnread | lockless_pipe/LocklessPipe.hpp:294-318 | Walking the byte array decodes exactly the unread records |
| AioBatch.StepKeepsInv | async_to_sync_writes/aio_write_test.c:83-201 | Every step of either thread or of the kernel keeps the accounting invariant |
| AioBatch.CompletionAccounting | async_to_sync_writes/aio_write_test.c:178-201 | In every run the batch counter at the loop head is the total modulo the batch size, completions never exceed submissions, a stop by count is exactly at the target, and a finished submitter attempted whole batches and less than one too many |
| AioBatch.CountersAreEvents | async_to_sync_writes/aio_write_test.c:83-201 | Attempts, acceptances, completions and counts are the numbers of these events in the run |
| AioBatch.EndOfBatchWakes | async_to_sync_writes/aio_write_test.c:190-199 | In every run, no batch ends over a sleeping submitter: the total passes the next boundary only with the signal that wakes it |
| AioBatch.BatchMessageIsNeverPrinted | async_to_sync_writes/aio_write_test.c:122-134 | After the wait the total is never a multiple of the batch size, so the message is never printed |
| AioProgress.WaitsForEverAfterBoundary | async_to_sync_writes/aio_write_test.c:122-130 | Once nothing more is left to count at a batch boundary, whether the completion thread has returned or still awaits a signal, a submitter in its wait stays there in every continuation |
| AioProgress.CanHangIff | async_to_sync_writes/aio_write_test.c:83-201 | A run without rejected writes, stop signal or failed wait can reach a submitter in its wait that nothing whatever frees if and only if at least one whole batch is wanted |
| AioProgress.SleepsForEver | async_to_sync_writes/aio_write_test.c:117-130 | The failing run: the first batch completes and is counted before the submitter locks the mutex, the signal is lost, and all threads come to rest with the submitter asleep |
| AioProgress.AlwaysFinishesIff | async_to_sync_writes/aio_write_test.c:83-225 | Every schedule without faults and spurious wake-ups ends, and only with the submitter finished, if and only if some writes but less than a batch are wanted |
| AioProgress.FinishesBelowOneBatch | async_to_sync_writes/aio_write_test.c:83-225 | With less than a batch wanted, every such schedule has a bounded number of steps |
| AioProgress.CanHangWithAllCountedIff | async_to_sync_writes/aio_write_test.c:83-225 | All writes wanted can complete, the completion thread return, and the submitter be left in its wait for ever if and only if whole batches make up their number (and, with batches of one, there is only one) |
| AioProgress.AsleepInFirstBatchIsStuck | async_to_sync_writes/aio_write_test.c:117-130 | With at least a batch wanted, a submitter that falls asleep in its first batch stays in its wait, unless a spurious wake-up comes |
| AioProgress.CanBeFreedBySignalIff | async_to_sync_writes/aio_write_test.c:190-199 | The signal at the end of a batch can free a sleeping submitter if and only if a batch has more than one write and more than one batch is wanted |
| AioProgress.CanForgetSleeperIff | async_to_sync_writes/aio_write_test.c:202-205 | A stop signal can leave the submitter asleep away from a boundary, without a last signal, if and only if a batch has more than one write and more than one is wanted |
| AioProgress.FailedWaitFrees | async_to_sync_writes/aio_write_test.c:206-223 | A failed wait for a signal gives the last signal, which frees the submitter from there |
| AioProgress.RejectedBatchHangs | async_to_sync_writes/aio_write_test.c:106-130 | A batch whose writes were all rejected is still waited for, and for ever |
| AioProgress.LeavesAfterMidBatch | async_to_sync_writes/aio_write_test.c:122-130 | Away from a boundary no schedule keeps it in its wait: it always has a step to take and leaves within a bounded number of steps |
| AioProgress.CanEndBatchIff | async_to_sync_writes/aio_write_test.c:122-130 | The submitter can ever get past its wait if and only if a batch has more than one write |
| RandomAtMost.RandomAtMost | async_to_sync_writes/test1.c:63-80 | The answer is the bin of the first draw below the greatest multiple of the number of bins, and there is none exactly when no draw is |
| RandomAtMost.FirstAcceptedDecides | async_to_sync_writes/test1.c:71-79 | Draws before the first accepted one, and after it, do not matter |
| RandomAtMost.EachResultHasOneBin | async_to_sync_writes/test1.c:61-80 | Each result from 0 to the maximum has exactly as many draws as a bin holds |
| RandomAtMost.ResultIsInRange | async_to_sync_writes/test1.c:61-62 | No other result is possible |
| RandomAtMost.MostDrawsAreAccepted | async_to_sync_writes/test1.c:71-76 | More than half of all draws are accepted |
| RandomAtMost.SwappingExchangesResults | async_to_sync_writes/test1.c:71-79 | Over whole draw sequences of any length a one-to-one map exchanges any two results and keeps all others |
| BoundedMessage.ShownMeaning | lockless_pipe/StreamingException.h:74-88 | An append shows the text up to its first NUL, and for a value whose output throws the literal text of the catch clause |
| BoundedMessage.StreamingException.Append | lockless_pipe/StreamingException.h:69-91 | The buffer stays terminated and holds message and text if they have at most 255 characters, and otherwise their first 255; a value whose output throws adds the text of the catch clause |
| BoundedMessage.StreamingException.With | lockless_pipe/StreamingException.h:62-67 | A new exception holds the first 255 characters of its first message |
| BoundedMessage.CutTwiceIsOnce | lockless_pipe/StreamingException.h:77-89 | Cutting after each append is the same as cutting the whole once |
| BoundedMessage.AppendAll | lockless_pipe/StreamingException.h:36-43 | Any chain of appends leaves the first 255 characters of the whole concatenation |
| BoundedMessage.Errno.With | lockless_pipe/Errno.hh:37-51 | The error's description, " when ", and the given text |
| BoundedMessage.Errno.Append | lockless_pipe/Errno.hh:56-68 | The first extra text is preceded by " when ", the later ones by nothing |
| BoundedMessage.Errno.AppendAll | lockless_pipe/Errno.hh:8-15 | Over any chain " when " comes exactly once, then the extras in order |
| Bitmap.BitsAfter | lockless_pipe/Utility.h:58-91 | Setting adds exactly one index to the set of bits, clearing removes exactly one |
| Bitmap.BitmapRefinesSet | lockless_pipe/Utility.h:93-104 | After any calls the test answers for each index as a set of indices would |
| Bitmap.FormsAgree | lockless_pipe/Utility.h:66-78 | Both forms of setting agree, and a false flag clears |
| Bitmap.SetAddsPower | lockless_pipe/Utility.h:53-64 | On k bytes read as one big-endian number, setting clear bit nr adds exactly 2^(8k - 1 - nr) |
| Bitmap.ClearTakesPower | lockless_pipe/Utility.h:80-91 | Clearing a set bit takes the same power away |
| Bitmap.SetBit | lockless_pipe/Utility.h:58-64 | In place: the one index is added, all other bits stay |
| Bitmap.SetBitTo | lockless_pipe/Utility.h:72-78 | In place: added or removed as the flag says |
| Bitmap.ClearBit | lockless_pipe/Utility.h:85-91 | In place: the one index is removed |

## Left out

- `read`, `peek` and the waits of the reader: no body of `read` is part of the repository. The assumed reader does not peek, time out or get interrupted, and `Pipe.LocklessPipe.Pop` answers that a pipe is empty where a caller would wait.
- Pipe.LocklessPipe.WaitForRoom: one call at a time; a sleep of the writer is modelled as the reader taking one record. Arbitrary interleavings inside the calls are in `PipeProtocol`.
- Pipe.LocklessPipe.Push: lengths of 2^32 and more, which `push` would cut to 32 bits, are excluded.
- PipeObservers.PeekedByteIsIntact: the peeker is an observer of the specification, because `separateThreadPeek` is not part of this model. It compares true positions here, and loaded words in `PipeObservers.PeekedRecordIsIntact`, for up to 2^32 laps.
- PipeValidation.ValidWithoutRelease: `validate` has no fence between its four loads. The model takes them in program order on every thread, and `PipeValidation.CountCheckIsSound` rests on that.
- Reordering of the reader's own loads and stores: the reader steps in order. Its bytes do not change while it copies them, so the order of its loads within a record does not matter.
- Records written in all: fewer than 2^64 for the count check of `validate`, whose counters would wrap.
- Byte order of the length header: least significant byte first; writer and reader share the host's order.
- `wakeup`, wakeup policies, `usleep`, clocks, `print`, stream output, the division in `percentFull`, and the starting and stopping of either thread beyond the flag that the writer tests.
- `numFailedWrites_`, which nothing increments, and the `stomp` constants, which nothing writes.
- The instructions behind `MEMBAR_release` and `MEMBAR_acquire`: only the ordering that `MemoryFence.h` promises is used.
- `AioBatch`, `AioProgress`: failures of the mutex and condition calls and of a completed write, which exit the process, and the overflow of the 32-bit loop counter. One signal is queued for each completion, and the condition may wake the submitter at any time.
- `AioBatch` as classes: two threads that interleave are modelled as steps over a state, not as methods.
- `random_at_most`: the generator is the sequence of its draws; `RAND_MAX` is any bound below 2^63.
- Inheritance of `Errno` from `StreamingException`: modelled as a field. Conversion of values to text by a stream is a parameter that may fail.
- `align_up`, `round_robin` and the letter helpers of `Utility.h`, and the other programs of the repository: easy members or system-call plumbing.
