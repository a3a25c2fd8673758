# fio's I/O-unit engine and the embedding offload, in Dafny

This project models the parts of fio that keep a benchmark job's books straight, and the
host and device halves of the repository's in-storage embedding sum, and proves what they
guarantee over every input, every interleaving or every run.

| module | what it is about |
|---|---|
| `IoUnits` | an I/O unit's life as state and steps: take, fill, queue, complete, requeue, return, reap; file references |
| `UnitPool`, `UnitFlight`, `UnitFiles`, `UnitRanges` | one invariant each: where units are, what the engine owes, who references a file, which byte ranges are in flight |
| `UnitRuns` | the invariants together, every step and every run; syncs outside the submit loop |
| `UnitOutcomes` | what the steps come to: which bytes are transferred, when the engine is asked, when batches are committed, how many units are out |
| `Quiesce` | waiting for the engine: what holds on return, and when it returns |
| `UnitExamples` | jobs that reach the states in which the code goes wrong |
| `UnitContainers` | the pool's lists kept in the real stack and ring |
| `ThreadData` | the same steps as code on a mutable thread, proved against `IoUnits` |
| `IoUQueue` | the free stack and the requeue ring |
| `FileLock`, `Semaphore`, `Flow` | protocols between threads, one event per atomic step |
| `AxMap`, `RandomMap` | the bitmap of bitmaps refines a set; random I/O over it covers the file exactly once |
| `ClockConversion` | ticks to nanoseconds with shifts and multiplications |
| `LatencyTarget`, `Pacing` | the two feedback controllers |
| `Fifo` | the masked byte ring |
| `Embedding` | tables in pages, the device's accumulate loop, the whole offload |
| `Bits` (with `Cyclic`), `Options` | machine arithmetic, masks and windows; an option type |

The engine, the device, the clock, sleeping and random draws are parameters: an engine
answers each unit as it likes and returns owed units in any order.

## What the code does not do

Each of these is proved; wherever a promise fails for some inputs only, so is the exact
condition under which it holds.

- `io_u_quiesce` never returns when nothing is held and `io_u_queued` is not zero. A wait
  commits in the engine without moving the queued count, so a job reaches that state
  (`Quiesce.QuiesceReturnsIff`, `UnitExamples.StuckReached`, `UnitExamples.QuiesceHangs`).
- Requeued units carry the FREE flag but keep their file reference, so a file's references
  count the units without that flag only while none of its units is on the ring
  (`UnitRuns.ReferencesCountHeldIff`, `UnitExamples.ReferenceOfFreeUnit`).
- `td_io_close_file` on a file that is closing or closed upsets the count, and `close_files`
  tests only that the file is open (`UnitFiles.CloseKeepsIff`, `UnitFiles.CloseAllKeepsIff`,
  `UnitExamples.SecondCloseUnderUnit`).
- `fio_io_sync` loses a reference when it is given a requeued unit
  (`UnitRuns.SyncKeepsReferencesIff`, `UnitExamples.SyncLosesReference`), and its retry after
  BUSY finds FLIGHT still set (`UnitRuns.SyncRetryFails`).
- `unvme_read_embedding` stores the elapsed time past its page buffer for the last row of a
  page (`Embedding.ElapsedInPageIff`).
- A push to a full ring with the head in the last slot empties the ring; the pool never
  fills it (`IoUQueue.Ring.Push`, `UnitPool.RingNeverFills`).
- The latency search never settles for a device whose limit is one below `iodepth`
  (`LatencyTarget.SettlesIffLimitNotOneBelow`, `LatencyTarget.SwingsForever`).
- A comment says that three good windows in a row lift the upper end of the latency search;
  good windows at other depths in between do not clear the count
  (`LatencyTarget.GoodWindowsAddUp`).
- The tick conversion can overflow 64 bits on clocks slower than 10^6 ticks per millisecond
  (`ClockConversion.NeverOverflowsIffFast`).
- `usec_for_io` is wrong for some byte counts above 18446744073710 bytes a second
  (`Pacing.UsecForRightIffSlow`).
- A semaphore raised above one can lose a wake-up (`Semaphore.NothingLostIffBinary`).
- While a job leaves a flow, between its two subtractions, all others can be throttled: only
  while its weight times the counter exceeds the total, and exactly then with one other job
  (`Flow.OthersThrottledMidExit`, `Flow.OnlyOtherThrottledIff`, `Flow.MidExitStallReached`).
- A FIFO whose size is not a power of two gives back wrong bytes (`Fifo.GivesBackIffPow2`).

## Model

| member | source | states |
|---|---|---|
| `IoUQueue.Queue.constructor` | fio/io_u_queue.c:6-19 | an empty stack with room for `nr` units |
| `IoUQueue.Queue.Pop` | fio/io_u_queue.h:17-28 | last in, first out: the old contents are the new ones plus the unit returned; nothing from an empty stack |
| `IoUQueue.Queue.Push` | fio/io_u_queue.h:30-38 | appends the unit, and the assertion holds exactly when the stack was not full; otherwise nothing changes |
| `IoUQueue.SmearFills` | fio/io_u_queue.c:33-38 | five shift-and-or steps turn any 32-bit number into all ones below its top bit |
| `IoUQueue.FillBelow` | fio/io_u_queue.c:33-38 | the smearing code computes 2^width - 1 |
| `IoUQueue.RingSize` | fio/io_u_queue.c:29-40 | the ring size is the least power of two that is at least `nr + 1` when `nr < 2^31`, and zero (32-bit wrap) for every larger `nr` |
| `IoUQueue.RoundedUp` | fio/io_u_queue.c:31-39 | the same, for the branch that rounds |
| `IoUQueue.ExactPowerKept` | fio/io_u_queue.c:31-32 | the same, for the branch that finds a power of two already: the test `max & (max - 1)` decides it |
| `IoUQueue.Ring.constructor` | fio/io_u_queue.c:29-48 | an empty ring with more than `nr` slots when `nr < 2^31`, and one without slots otherwise |
| `IoUQueue.Ring.Empty` | fio/io_u_queue.h:84-87 | head equals tail exactly when the ring holds nothing |
| `IoUQueue.Ring.Push` | fio/io_u_queue.h:61-70 | appends while more than one slot is free; on a full ring the unmasked test misses the wrap, so the push is refused unless the head is in the last slot, where it goes through and makes the ring look empty |
| `IoUQueue.Ring.Pop` | fio/io_u_queue.h:72-82 | first in, first out |
| `Fifo.Fifo.constructor` | fio/fifo.c:29-42 | an empty FIFO of any size |
| `Fifo.Room` | fio/fifo.h:41-44 | the 32-bit expression is the size less the bytes queued, across index wrap |
| `Fifo.PutAppends` | fio/fifo.c:50-71 | with a power-of-two size, a put appends the longest prefix that fits, across buffer wrap and index wrap |
| `Fifo.Fifo.Put` | fio/fifo.c:50-71 | the code does that put on an array, for any size |
| `Fifo.GetTakesOldest` | fio/fifo.c:73-98 | with a power-of-two size, a get returns and removes the oldest bytes in order, including the reset of both indices when the queue runs empty |
| `Fifo.Fifo.Get` | fio/fifo.c:73-98 | the code does that get on an array, for any size |
| `Fifo.ByteAtIsMasked` | fio/fifo.c:73-98 | after a put of a whole buffer, a get of `p` bytes and then of one returns the byte in the masked slot, for any size |
| `Fifo.GivesBackIffPow2` | fio/fifo.c:50-98 | that is byte `p` at every position and for all data exactly when the size is a power of two, which nothing in the code checks |
| `Fifo.MissedSlot` | fio/fifo.c:57-61 | for every other size, a slot that no index is masked to |
| `ClockConversion.HighestBit` | fio/gettime.c:336-348 | the shift-counting loop finds the top bit of the one-hour tick count |
| `ClockConversion.OnesBelow` | fio/gettime.c:357-359 | the mask loop sets exactly the low bits |
| `ClockConversion.ChooseMultiplier` | fio/gettime.c:314-334 | the shift is 21 or 22, the largest whose multiplier stays within 2^64 - 1 over an hour of ticks, and the multiplier times an hour of ticks fits 64 bits |
| `ClockConversion.Calibrate` | fio/gettime.c:314-359 | no intermediate product of the calibration overflows, and the constants satisfy `Calibrated`, for every rate whose hour of ticks fits 64 bits |
| `ClockConversion.NeverAhead` | fio/gettime.c:203-206 | the two-stage value never exceeds ticks * 10^6 / cycles_per_msec |
| `ClockConversion.ShortfallBound` | fio/gettime.c:203-206 | it falls short by less than ticks / 2^shift + whole blocks + 1 |
| `ClockConversion.Monotone` | fio/gettime.c:203-206 | it is monotone in ticks, across block boundaries too |
| `ClockConversion.ExactWhenItFits` | fio/gettime.c:203-206 | the 64-bit computation equals the unbounded one exactly when that fits 64 bits |
| `ClockConversion.NeverOverflowsIffFast` | fio/gettime.c:203-206 | no 64-bit tick count overflows exactly when the clock makes at least 10^6 ticks per millisecond |
| `ClockConversion.SlowClockOverflows` | fio/gettime.c:203-206 | on every slower clock the largest tick count overflows |
| `ClockConversion.ConversionLaws` | fio/gettime.c:203-206 | on any clock, up to any tick count whose exact time fits 64 bits, the 64-bit conversion itself is monotone, never ahead, and short by no more than that bound |
| `ClockConversion.FastClockInTime` | fio/gettime.c:203-206 | on a clock of 10^6 ticks per millisecond or more that is every tick count |
| `LatencyTarget.Controller.constructor` | fio/io_u.c:1450-1463 | the search starts at depth one with the bracket one to `iodepth` |
| `LatencyTarget.Controller.TargetFailed` | fio/io_u.c:1417-1439 | a failed window narrows the bracket from above and halves, giving up exactly at depth one |
| `LatencyTarget.Controller.TargetSucceeded` | fio/io_u.c:1471-1526 | a good window raises the lower end, grows the bracket after three stable windows, and ends the search when the depth stops moving twice |
| `LatencyTarget.WindowInRange` | fio/io_u.c:1417-1526 | each window keeps 1 <= low <= qd <= min(high, iodepth) and high <= iodepth + 2 |
| `LatencyTarget.Windows` | fio/io_u.c:1417-1526 | so does every sequence of windows |
| `LatencyTarget.Controller.RunWindows` | fio/io_u.c:1531-1551 | the code run over a sequence of windows is that sequence, and stays in range |
| `LatencyTarget.SuccessesEndSearch` | fio/io_u.c:1471-1526 | with `latency_run` off, iodepth - qd + 2 good windows in a row end the search |
| `LatencyTarget.EndNeedsTwoSettled` | fio/io_u.c:1508-1522 | the search is done only after two good windows that left the depth as it was: one begins the final run, a later one confirms it |
| `LatencyTarget.FinalRunIsSettled` | fio/io_u.c:1512-1521 | the final run begins only with such a window |
| `LatencyTarget.LatencyRunNeverEnds` | fio/io_u.c:1512-1522 | with `latency_run` on no sequence of windows begins the final run or ends the search |
| `LatencyTarget.ThreeGoodWindowsLift` | fio/io_u.c:1478-1491 | just below an upper end that failed, two good windows keep the depth and a third lifts that end by one, so that the depth above is tried again |
| `LatencyTarget.GoodWindowsAddUp` | fio/io_u.c:1478-1491 | among good windows every third one measured just below the upper end lifts it by one, whatever good windows lie between them |
| `LatencyTarget.FailuresReachOne` | fio/io_u.c:1417-1439 | from any depth as many failed windows as it is above one bring it down to one |
| `LatencyTarget.SettlesIffLimitNotOneBelow` | fio/io_u.c:1417-1526 | on a device that meets the target exactly up to some depth, the search settles exactly when that depth is not iodepth - 1 |
| `LatencyTarget.NeverSettlesFrom` | fio/io_u.c:1471-1526 | for that one limit the search is never done |
| `LatencyTarget.SwingReached` | fio/io_u.c:1417-1526 | instead it comes to depth iodepth - 1 with the bracket closed up to iodepth |
| `LatencyTarget.SwingsForever` | fio/io_u.c:1417-1526 | and from there swings between iodepth - 1 and iodepth for ever, every second window bringing back the same state |
| `LatencyTarget.HopelessDeviceStaysAtOne` | fio/io_u.c:1417-1439 | a device that never meets the target keeps the search at depth one |
| `Semaphore.ApplyKeepsCounts` | fio/fio_sem.c:133-180 | each step of down, trylock, wake-up and up keeps value + downs == initial + ups and `waiters` == sleeping + woken |
| `Semaphore.RunKeepsCounts` | fio/fio_sem.c:133-180 | so does every interleaving |
| `Semaphore.TakesIffAvailable` | fio/fio_sem.c:133-163 | a down, a resumed down and a trylock take the semaphore exactly when it is available; otherwise a down sleeps and a trylock does not |
| `Semaphore.BinaryRunLosesNothing` | fio/fio_sem.c:149-180 | while the value stays at one or below, an available semaphore with a sleeper always has a woken thread still to run |
| `Semaphore.NothingLostIffBinary` | fio/fio_sem.c:165-180 | over all runs no wake-up is lost exactly when the value is kept at one or below |
| `Semaphore.SecondUpLosesWakeup` | fio/fio_sem.c:172-177 | the up from one to two that signals nobody |
| `FileLock.Find` | fio/filelock.c:119-131 | finds an active entry with the hash, or there is none |
| `FileLock.StepKeepsInv` | fio/filelock.c:133-246 | every step of a lock, trylock or unlock call keeps the table invariant, including nap and second lookup |
| `FileLock.TakenKeepsInv` | fio/filelock.c:186-192 | taking an entry's semaphore makes the caller its one holder |
| `FileLock.GaveBackKeepsInv` | fio/filelock.c:194-205 | the failed trylock that finds other references gives its own back |
| `FileLock.InstalledKeepsInv` | fio/filelock.c:150-163 | an entry installed after the second lookup is the only one for its hash |
| `FileLock.ReturnedFreeKeepsInv` | fio/filelock.c:150-158 | an entry found superfluous goes back to the free list intact |
| `FileLock.UnlockKeepsInv` | fio/filelock.c:225-246 | unlock releases the holder's own entry and frees it with the last reference |
| `FileLock.HolderFindsEntry` | fio/filelock.c:234-243 | a holder's unlock always finds its entry, so the not-found message is unreachable |
| `FileLock.FreshOk` | fio/filelock.c:70-96 | the initial table satisfies the invariant |
| `FileLock.RunKeepsInv` | fio/filelock.c:133-246 | every interleaving of any number of clients keeps it |
| `FileLock.ReachableIsSafe` | fio/filelock.c:133-246 | in every reachable state: one client per hash has the lock, one still inside unlock included; one active entry per hash; references that count exactly the clients past lookup; free entries with no references and value one; no semaphore above one, and at zero when an unlock raises it, so that no wake-up is lost |
| `FileLock.OneHolder` | fio/filelock.c:168-246 | two clients that have the lock of one hash, unlocking or not, are the same |
| `FileLock.LookupStep` | fio/filelock.c:133-163 | a lookup stops at the active entry of its hash without touching the free list, and asks for a free entry only if there is none |
| `FileLock.LockStep` | fio/filelock.c:168-189 | a blocking call stays in the call until it has its lock; it naps exactly when it finds no free entry |
| `FileLock.LockReturnsWithLock` | fio/filelock.c:168-189 | in every run, whatever the others do, a blocking call that has returned had its lock for that hash |
| `FileLock.TrylockStep` | fio/filelock.c:168-213 | a trylock takes the lock exactly when it is free; it fails exactly when it finds no free entry or, at its second look, another referrer; otherwise it waits on a semaphore that is up |
| `FileLock.TrylockWaitsAlone` | fio/filelock.c:194-210 | in every run a trylock goes to wait only as its entry's one referrer |
| `FileLock.CallsComeOut` | fio/filelock.c:168-213 | both of these from the start of a call in any reachable state |
| `FileLock.SomeoneProgresses` | fio/filelock.c:52-68 | while any call is under way some client can move other than by napping again |
| `Flow.ApplyConserves` | fio/flow.c:17-130 | each atomic operation keeps counter == 1 + members' counts (half-done increments included), total == sum of weights, refs == members |
| `Flow.RunConserves` | fio/flow.c:17-130 | so does every interleaving |
| `Flow.EveryRun` | fio/flow.c:17-130 | from an unused flow, every run conserves, and while no job is half-way out the jobs that can run are never all throttled |
| `Flow.LastPutSeesOne` | fio/flow.c:106-107 | whoever drops the last reference finds the counter at one, so the assertion holds |
| `Flow.SomeoneMayRun` | fio/flow.c:25-45 | while no job is half-way out, some job that can run is not throttled |
| `Flow.OthersThrottledMidExit` | fio/flow.c:103-104 | all but a leaving job are throttled only while that job's weight times the counter exceeds the total |
| `Flow.OnlyOtherThrottledIff` | fio/flow.c:103-104 | a single other job, not between its two increments, is throttled exactly then |
| `Flow.Passes` | fio/flow.c:17-55 | an undisturbed call that lets the job go adds one to the shared and to its own counter |
| `Flow.DecidedOnSample` | fio/flow.c:25-36 | whatever others do between a job's look at the counter and its decision, it goes on exactly if its count does not exceed its share of the counter it saw |
| `Flow.MidExitStallReached` | fio/flow.c:103-104 | a run that reaches such a stall: the only job left is throttled while the other is between its two subtractions |
| `Flow.FlowIsFair` | fio/flow.c:25-52 | with fixed membership and non-atomic increments, each of n jobs stays within [-(n-1)*W - w, W - w] of its share in every reachable state |
| `Flow.FreshFlowIsFair` | fio/flow.c:115-122 | jobs that have just joined start fair |
| `AxMap.CountLevels` | fio/lib/axmap.c:113-129 | the 32-bit loop counts the levels down to a single word, for every map whose word count it can hold |
| `AxMap.AxMap.constructor` | fio/lib/axmap.c:113-160 | an empty set over `nrBits` bits, also where the 32-bit count of levels falls short |
| `AxMap.AxMap.Isset` | fio/lib/axmap.c:325-337 | membership in the abstract set |
| `AxMap.SetFromOk` | fio/lib/axmap.c:167-189 | setting bits and climbing while words fill keeps every level's bit equal to the fullness of the word below, and adds exactly those bits |
| `AxMap.AxMap.BitsToSet` | fio/lib/axmap.c:223-252 | how many bits can be set at once: up to the end of the word and the first bit already set |
| `AxMap.AxMap.SetWord` | fio/lib/axmap.c:271-284 | one round sets a clear run within a word |
| `AxMap.AxMap.SetNr` | fio/lib/axmap.c:299-323 | adds exactly the longest clear run from `bit`, at most `nr` long, and returns its length |
| `AxMap.ScanLevel` | fio/lib/axmap.c:366-399 | first clear bit of a level at or after an index, or none |
| `AxMap.AxMap.FindFirstFree` | fio/lib/axmap.c:343-407 | the top-down search finds the least free bit at or after `bit`, or there is none |
| `AxMap.AxMap.NextFree` | fio/lib/axmap.c:413-454 | the next free bit after `bit`, wrapping to the start; none exactly when all are set |
| `AxMap.AxMap.Reset` | fio/lib/axmap.c:87-96 | the empty set again |
| `RandomMap.RandomFile.constructor` | fio/filesetup.c:1524-1580 | an empty map with one bit per block |
| `RandomMap.RandomFile.NextBlock` | fio/io_u.c:87-132 | the drawn block if it is free, otherwise the next free one cyclically; none exactly when every block is taken |
| `RandomMap.RandomFile.DrawnBlocksFit` | fio/io_u.c:546-574 | a drawn size is as many whole blocks as the minimum size and the draw hold, up to the maximum |
| `RandomMap.RandomFile.NextBuflen` | fio/io_u.c:522-582 | the first drawn size that ends inside the file, and none only if none does; one block if there is but one size |
| `RandomMap.RandomFile.Mark` | fio/io_u.c:35-56 | marks the run up to the first taken block and trims the length to it |
| `RandomMap.RandomFile.NextRange` | fio/io_u.c:905-945 | offset and length name whole free-starting blocks inside the file, chosen by the draw; a failure means that every block is taken, a redraw that no size fits everywhere |
| `RandomMap.RandomFile.Fill` | fio/io_u.c:905-972 | issues a range disjoint from all before it and inside the file, from the drawn block or the next free one, as long as its first fitting size and the taken blocks allow; or fails only when every block has been issued exactly once |
| `RandomMap.RandomFile.Service` | fio/io_u.c:1359-1390 | over any sequence of draws: at most one issue per block, and when the file is marked done an exact cover; with a fitting size in each, one draw more than there are blocks marks it done |
| `RandomMap.RandomFile.Reset` | fio/filesetup.c:2091-2106 | a new pass over the file starts |
| `RandomMap.BlockSetSize` | fio/io_u.c:35-56 | disjoint runs cover as many blocks as their lengths add up to |
| `RandomMap.CoverIsWhole` | fio/io_u.c:1359-1390 | an exact cover issues each block of the file once and no more |
| `RandomMap.BytesDisjoint` | fio/io_u.c:905-972 | runs without a common block are byte ranges without a common byte |
| `Pacing.SplitIsExact` | fio/backend.c:823-829 | splitting off whole seconds gives exactly bytes * 10^6 / bps, rounded down |
| `Pacing.UsecForExactIff` | fio/backend.c:823-829 | the 64-bit code gives that floor exactly when remainder * 10^6 fits 64 bits |
| `Pacing.UsecForRightIffSlow` | fio/backend.c:823-829 | it is right for every byte count exactly for rates up to 18446744073710 bytes a second |
| `Pacing.Pacer.RateDdir` | fio/io_u.c:642-702 | the direction returned is due when the sleep ends and is the wanted one if that is due; no sleep while an allowed direction is due, and none past the first deadline |
| `Pacing.EarliestDirection` | fio/io_u.c:654-680 | a mixed job takes the direction due first, the wanted one on a tie or if due already, and waits exactly until then; any other job waits for the direction it wants |
| `Pacing.Pacer.Submit` | fio/ioengines.c:367-385 | a refused unit's bytes are rolled back in 64-bit arithmetic, and the deadline follows the bytes |
| `Pacing.SubmitPaced` | fio/backend.c:1073-1076 | one submission keeps every direction within its rate |
| `Pacing.TurnPaced` | fio/io_u.c:642-702 | so does a whole turn: requeued unit first, otherwise the rate check, any delays |
| `Pacing.RefusedComesBack` | fio/backend.c:500-505 | a unit the engine refuses is the one submitted next, without another rate check |
| `Pacing.TurnBooks` | fio/ioengines.c:367-385 | in any direction a turn books in 64 bits exactly the length the engine accepted |
| `Pacing.RunCounts` | fio/ioengines.c:367-385 | over every run the issued bytes are the sum of the lengths the engine accepted |
| `Pacing.RateHolds` | fio/io_u.c:642-702 | over every run, the bytes the engine accepted * 10^6 < bps * (now + 1) + one block * 10^6 in each direction with a rate |
| `Embedding.RowPlace` | MyDriver-fixed.32/unvme_embed_lib.c:296 | the host's page number and the in-page offset together name exactly the row's words |
| `Embedding.TableAddressableIff` | MyDriver-fixed.32/unvme_embed_lib.c:296 | the host's 32-bit products and sums fit for every row of a table exactly for table ids up to 8588 |
| `Embedding.DeviceShapes` | eBPF_program/embedding32.c:26-28 | both device programs (32 and 64 words) have rows that divide a page |
| `Embedding.Ssd.WriteTable` | MyDriver-fixed.32/unvme_embed_lib.c:220-263 | exactly the whole pages of the table are written, every other page is as before |
| `Embedding.RowAfterWrite` | MyDriver-fixed.32/unvme_embed_lib.c:391-410 | reading a row back gives the table's row if the write filled its page, and what was there before otherwise; no other table is disturbed |
| `Embedding.Ssd.WriteTables` | MyDriver-fixed.32/unvme_embed_lib.c:232-261 | after any sequence of writes each row of each table reads as last written |
| `Embedding.Ssd.Accumulate` | eBPF_program/embedding32.c:26-38 | adds the selected row into the result row, 32-bit wrap, and nothing else |
| `Embedding.AddedCell` | eBPF_program/embedding64.c:26-38 | result rows do not overlap: adding to one leaves the cells of the others alone |
| `Embedding.Ssd.SparseLengthSum` | MyDriver-fixed.32/unvme_embed_lib.c:280-376 | every cell of the fetched page is its start plus the 32-bit sum of that component over the rows requested for it, and the map page is zero afterwards |
| `Embedding.OrderIrrelevant` | MyDriver-fixed.32/unvme_embed_lib.c:295-323 | request lists with the same members give the same sums |
| `Embedding.OffloadIsPlainSum` | MyDriver-fixed.32/unvme_embed_lib.c:280-376 | a page that sums the rows on the device is a plain sparse-length sum over the tables last written |
| `Embedding.Offload` | MyDriver-fixed.32/unvme_embed_lib.c:220-376 | a host that writes tables to a fresh device and then asks for sums gets exactly that |
| `Embedding.ElapsedInPageIff` | MyDriver-fixed.32/unvme_embed_lib.c:398-425 | the word the reader stores the elapsed time in is part of the page buffer exactly when the row is not the last of its page |
| `UnitPool.PutPool` | fio/io_u.c:794-821 | returning a held unit keeps each unit in exactly one place and `cur_depth` the number held |
| `UnitPool.RequeuePool` | fio/io_u.c:829-860 | so does requeueing one |
| `UnitPool.GetPool` | fio/io_u.c:1569-1622 | so does taking one from ring or stack |
| `UnitPool.RequeuedFirstInOrder` | fio/io_u.c:1582-1592 | requeued units are taken again in order, before any free one and regardless of the depth limit |
| `UnitPool.PoolAddsUp` | fio/backend.c:1222-1267 | free, requeued and held units always add up to `iodepth` |
| `UnitPool.HeldHasRoom` | fio/io_u_queue.h:30-38 | a held unit always finds room on the stack, so the `assert(0)` of the push is unreachable |
| `UnitPool.RingNeverFills` | fio/io_u_queue.h:61-70 | and on the ring, where a push therefore never meets the full case |
| `UnitFlight.QueueFlight` | fio/ioengines.c:319-452 | `td_io_queue` keeps FLIGHT equal to what the engine owes (plus what it has just completed) and the counters equal to the number owed, for each answer |
| `UnitFlight.CommitFlight` | fio/ioengines.c:474-496 | moving queued to in-flight keeps the sum modulo 2^32 |
| `UnitRuns.ReturnedFlight` | fio/ioengines.c:276-311 | so does taking returned events off the in-flight count, although the queued count may still hold them |
| `UnitFiles.PutFiles` | fio/filesetup.c:1890-1927 | returning a unit drops its file reference, and the file is really closed exactly with the last |
| `UnitFiles.FillFiles` | fio/filesetup.c:1883-1888 | a unit set on a file takes one reference |
| `UnitFiles.GiveUpFiles` | fio/io_u.c:1374-1386 | a file that yields no block gives the reference back and starts closing |
| `UnitFiles.OpenKeeps` | fio/ioengines.c:498-532 | opening, or undoing a close, keeps the counts |
| `UnitFiles.CloseKeeps` | fio/ioengines.c:607-618 | closing an open file that is not closing keeps exact references exact; closing any file keeps it open exactly while it has references |
| `UnitFiles.CloseKeepsIff` | fio/ioengines.c:607-618 | closing keeps the exact references exactly when the file is open and not already closing |
| `UnitFiles.CloseAllKeepsIff` | fio/filesetup.c:1582-1591 | `close_files` keeps them exactly when no file is closing already |
| `UnitFiles.ClosedButForUsers` | fio/filesetup.c:1582-1591 | and then leaves open just the files some unit uses, all of them closing |
| `UnitFiles.NoneLeftClosing` | fio/filesetup.c:1890-1927 | a file no unit uses is not left in the closing state |
| `UnitFiles.UserHasOpenFile` | fio/ioengines.c:342 | a unit that holds a reference has its file open, so the assertion in `td_io_queue` holds |
| `UnitRanges.MeetIffNotApart` | fio/backend.c:549-575 | the 64-bit overlap test finds exactly the ranges that are not disjoint |
| `UnitRanges.AloneInDepth` | fio/backend.c:577-588 | the `cur_depth > 1` shortcut is sound: with one unit held no other is in flight |
| `UnitRanges.PassMeetsNone` | fio/backend.c:577-588 | a unit that is submitted is apart from everything in flight |
| `UnitRuns.CompleteInv` | fio/io_u.c:1959-2061 | completion, short or whole, keeps every invariant |
| `UnitRuns.SubmitInv` | fio/backend.c:427-588 | submission keeps every invariant whatever the engine answers |
| `UnitRuns.ReapInv` | fio/io_u.c:2078-2156 | so does reaping any events the engine owes, in any order |
| `UnitRuns.FillInv` | fio/io_u.c:1359-1390 | so does setting a unit on a file |
| `UnitRuns.SyncInv` | fio/backend.c:245-285 | so does a sync outside the submit loop whatever is on the ring, with exact references if the ring is empty and at least enough of them otherwise |
| `UnitRuns.SyncKeepsReferencesIff` | fio/backend.c:247-255 | such a sync keeps the file references right exactly when the requeue ring is empty |
| `UnitRuns.RetryAllowedIff` | fio/ioengines.c:326-385 | a unit `td_io_queue` accepted once may be queued again after BUSY and a commit exactly when it is not a sync |
| `UnitRuns.SyncRetryFails` | fio/backend.c:262-282 | so in every state the retry of `fio_io_sync` fails the assertion that FLIGHT is clear; the flag then marks a unit the engine does not owe |
| `UnitRuns.ReferencesCountHeldIff` | fio/filesetup.c:1883-1927 | references count the units on the file without the FREE flag, plus one while open and not closing, exactly when no unit on the requeue ring is on the file |
| `UnitRuns.ApplyInv` | fio/ioengines.c:276-496 | every step of a job keeps places, flight, ranges and counters, and references as far as the run's syncs and closes allow |
| `UnitRuns.RunInv` | fio/io_u.c:794-860 | so does every run |
| `UnitRuns.InitInv` | fio/backend.c:1222-1267 | the pool starts out satisfying them |
| `UnitRuns.EveryRunIsSafe` | fio/io_u.c:1569-1622 | in every state any run reaches, syncs over a non-empty ring and repeated closes included: each unit once on the stack, once on the ring or held, `cur_depth` the number held, FLIGHT exactly on the units the engine owes and the counters counting them modulo 2^32, in-flight ranges disjoint under `serialize_overlap`, files open exactly while they have references and counted; references at least enough in runs without repeated closes, and exact in runs without either |
| `UnitOutcomes.CompleteMoves` | fio/io_u.c:1995-2020 | an event leaves the end of a unit's range where it is and the residual to transfer; the unit is requeued exactly if something was transferred, something is left and the file goes on, and is freed otherwise |
| `UnitOutcomes.QueueEventMoves` | fio/backend.c:431-476 | the same for a unit completed at once, which is requeued unless it stands at the very end of the file |
| `UnitOutcomes.FillRange` | fio/io_u.c:1796-1800 | a unit set on a file has the whole of its block still to transfer |
| `UnitOutcomes.StepMoves` | fio/backend.c:431-476 | every step of a job leaves a unit that is under way on its file, moved on by exactly what the step reports for it |
| `UnitOutcomes.TransfersTile` | fio/io_u.c:1995-2020 | over every run the pieces reported transferred follow each other without gap or overlap up to where the unit stands, and the end of its range stays |
| `UnitOutcomes.WholeRangeTransferred` | fio/io_u.c:1995-2020 | with the report of the last byte they tile exactly the range the unit started with |
| `UnitOutcomes.EngineAskedIff` | fio/backend.c:577-588 | the engine is asked exactly unless overlaps are serialized and the unit meets one in flight, with or without the shortcut on `cur_depth` |
| `UnitOutcomes.FullBatchCommitted` | fio/ioengines.c:426-434 | a unit that fills the batch is committed with all that was queued; before that nothing is |
| `UnitOutcomes.RefusalCommits` | fio/backend.c:500-505 | a refused unit goes to the end of the ring and all that was queued is committed, unless no unit is held any more |
| `UnitOutcomes.TakenUnit` | fio/io_u.c:1569-1606 | no unit is found exactly when the ring is empty and the stack is empty or `latency_qd` units are held; a unit tried again keeps its file and range, a fresh one has neither |
| `UnitOutcomes.DepthStaysBelowLimit` | fio/io_u.c:1557-1567 | over every run that never moves `latency_qd` above q, at most q units are held or wait to be tried again, and at most q are with the engine |
| `Quiesce.QuiesceLeavesNothing` | fio/io_u.c:609-640 | whenever `io_u_quiesce` returns the engine owes nothing |
| `Quiesce.QuiesceReturnsIff` | fio/io_u.c:609-640 | with an engine that goes on delivering it returns exactly when a unit is held or nothing is queued at the call |
| `Quiesce.ReapCounts` | fio/ioengines.c:276-311 | a wait takes what it returns from what is owed and leaves the queued count alone |
| `UnitExamples.StuckReached` | fio/ioengines.c:276-311 | with two units and a batch of two, a job reaches a state with nothing held and one counted as queued: a wait reaps a unit that was never committed |
| `UnitExamples.QuiesceHangs` | fio/io_u.c:622-631 | there `io_u_quiesce` does not return, whatever the engine answers |
| `UnitExamples.ReferenceOfFreeUnit` | fio/io_u.c:829-860 | a job reaches a state in which a file has a reference from a unit that carries the FREE flag |
| `UnitExamples.SyncLosesReference` | fio/backend.c:247-255 | there a sync takes that unit and leaves a reference no unit holds |
| `UnitExamples.SecondCloseUnderUnit` | fio/ioengines.c:607-618 | a job reaches a state in which closing a file again really closes it under a unit |
| `UnitContainers.Containers.constructor` | fio/backend.c:1222-1267 | the real stack and ring start out holding the initial pool |
| `UnitContainers.Containers.PutUnit` | fio/io_u.c:794-821 | whatever state the pool is in, pushing a held unit on the real stack succeeds and keeps it equal to the pool's free list |
| `UnitContainers.Containers.RequeueUnit` | fio/io_u.c:829-860 | the same for the real ring, whose full case is never met |
| `UnitContainers.Containers.GetUnit` | fio/io_u.c:1582-1592 | popping ring or stack gives the unit `Get` gives |
| `ThreadData.Thread.constructor` | fio/backend.c:1222-1267 | the pool-filling loop makes the initial state |
| `ThreadData.Thread.GetFileRef` | fio/filesetup.c:1883-1888 | the code of `get_file` does the step `GetFile`; an open file is all it needs |
| `ThreadData.Thread.PutFileRef` | fio/filesetup.c:1890-1927 | the code of `put_file` does the step `PutFile` |
| `ThreadData.Thread.PutIoU` | fio/io_u.c:794-821 | the code of `put_io_u` does the step `Put` |
| `ThreadData.Thread.RequeueIoU` | fio/io_u.c:829-860 | the code of `requeue_io_u` does the step `Requeue` |
| `ThreadData.Thread.QueueIsFull` | fio/io_u.c:1557-1567 | full exactly when the stack is empty or the latency depth is reached |
| `ThreadData.Thread.GetIoU` | fio/io_u.c:1569-1622 | the code of `__get_io_u` does the step `Get`; that listed units carry the FREE flag is all it needs |
| `ThreadData.Thread.TdIoCommit` | fio/ioengines.c:474-496 | the code of `td_io_commit` does the step `Commit` |
| `ThreadData.Thread.InFlightOverlap` | fio/backend.c:549-575 | the loop finds an overlap exactly when some unit in flight meets the range |
| `ThreadData.Thread.TdIoQueue` | fio/ioengines.c:319-452 | the code of `td_io_queue` does the step `Queue`; a unit not in flight on an open file is all it needs |
| `ThreadData.Thread.IoCompleted` | fio/io_u.c:1959-2061 | the code of `io_completed` and its caller's put does the step `Complete` |
| `ThreadData.Thread.IosCompleted` | fio/io_u.c:2078-2092 | the loop over events does them all |
| `ThreadData.Thread.QueuedComplete` | fio/io_u.c:2122-2156 | getevents and completion together do the step `Reap` |
| `ThreadData.Thread.IoQueueEvent` | fio/backend.c:427-516 | the code of `io_queue_event` does the step `QueueEvent`, the end-of-file jump included |
| `ThreadData.Thread.IoUSubmit` | fio/backend.c:577-588 | overlap check, queueing and the answer together do the step `Submit` |
| `ThreadData.Thread.TdIoOpenFile` | fio/ioengines.c:498-532 | the code of `td_io_open_file` does the step `OpenFile` |
| `ThreadData.Thread.TdIoCloseFile` | fio/ioengines.c:607-618 | the code of `td_io_close_file` does the step `CloseFile` |
| `ThreadData.Thread.SetIoUFile` | fio/io_u.c:1359-1390 | the retry loop serves the unit from the first file offered that has a block, closing those that have none |
| `ThreadData.Thread.FioIoSync` | fio/backend.c:245-285 | the code of `fio_io_sync` does the step `Sync`, and gets through exactly when it is not refused |
| `ThreadData.Thread.IoUQuiesce` | fio/io_u.c:609-640 | the loop returns exactly when, and in the state in which, `Drain` says |
| `ThreadData.Thread.CloseFiles` | fio/filesetup.c:1582-1591 | the loop closes the open files one by one, closing ones included |
| `ThreadData.Thread.Step` | fio/backend.c:427-588 | the code takes any step of any such run with its invariants kept and none of its assertions on flags, files, references or queues failing |
| `ThreadData.ServedInv` | fio/io_u.c:1359-1390 | however many files are tried, every invariant is kept and a served unit is on an open file |
| `ThreadData.FirstBlockServed` | fio/io_u.c:1359-1390 | a unit is served exactly if some file offered has a block, and then with the first such block; every file tried before is done |
| `ThreadData.HeldIsPutOk` | fio/io_u.c:806-816 | a held unit may always be returned or requeued: room on stack and ring, and its file's reference is there to drop |
| `ThreadData.PossibleIsDraining` | fio/io_u.c:625-631 | every wait of the quiesce loop finds its units in flight and returnable |

## Left out

- AxMap.AxMap.SetNr: requires the run to end inside the map; the code computes a trimmed length for a run past the end and does not use it.
- AxMap.AxMap.SetWord: the same.
- AxMap.AxMap.Isset: requires the bit to lie in a word of the map; the code also lets through the bit just past the end of a map of whole words, where there is no word.
- AxMap.AxMap.constructor: the size in bits is an unbounded number, so sizes within 63 of 2^64, where the code's first rounding wraps, are not modelled.
- RandomMap.RandomFile.constructor: requires the I/O region to lie inside the file.
- RandomMap.RandomFile.Fill: one unit for block size, minimum size and alignment; unaligned sizes and differing minimum sizes are not modelled.
- RandomMap.RandomFile.NextBuflen: draws are given; when none of the given ones fits, the code's endless redraw is the outcome `Redraw`.
- Embedding.RowPlace: addresses are unbounded numbers; `Embedding.TableAddressableIff` says for which table ids the host's `int` holds them.
- Embedding.Ssd.WriteTables: the same, for table ids above 8588.
- Embedding.Ssd.WriteTable: table sizes are unbounded numbers, where the host's `int` overflows for tables of 2^31 bytes or more.
- ThreadData.Thread.FioIoSync: not an error answer, which ends the job with the unit still in flight.
- ThreadData.Thread.IoQueueEvent: a transfer that moved nothing ends the job and is not a step.
- UnitRuns.EveryRunIsSafe: the pool has fewer than 2^31 units, since the code counts them in an `int`; steps that end the job (failing assertions, fatal errors, cancellation, a failed open after the file was opened) are ends of the run.
- Pacing.RateHolds: linear pacing without timeout, think time, trim-write or short transfers; Poisson pacing uses floating point. A sleep lasts at least the time asked.
- Flow.EveryRun: ratios are exact rationals and counters unbounded; double rounding and counter wrap are not modelled.
- Embedding.Ssd.SparseLengthSum: row addresses are unbounded numbers, where the host's `int` overflows for rows that start 2^31 bytes or more into a table. States the page fetched from the device; the pointer the function returns never receives it. Run, page read and clear (opcodes 0x82, 0x84, 0x85) are taken as device contracts, and result ids as in range.
- FileLock.ReachableIsSafe: a thread that holds several locks counts as several clients, and file names are their hashes.
- LatencyTarget.Controller.TargetSucceeded: whether a window met the target is given; the percentile arithmetic is not modelled.
- Accounting fields (`io_issues`, bytes done, statistics, logs) and the verify, trim and iolog paths through an I/O unit.
- Offload mode, parent and child threads, async verify threads and zoned devices.
- `fio_sem_down_timeout`, which mixes clock sources.
- Non-uniform random distributions, the LFSR generator and floating-point draws.
- Network client and server, GUI, cgroups, disk statistics, option parsing, ETA and JSON output.
- The blktrace merge and the job start and reap counters.
- Memory allocation failures.
